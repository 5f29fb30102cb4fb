/** The BOM version state machine: at most one active version per product. */
module BomVersions {
  import opened Common

  datatype Status = Draft | Active | Deprecated

  datatype Version = Version(product: nat, status: Status)

  /** bom_versions by id. */
  type Table = map<nat, Version>

  datatype Error = NotFound | TransitionForbidden

  /** BOM_STATUS_TRANSITIONS. */
  predicate Allowed(from: Status, to: Status) {
    match from
    case Draft => to == Active || to == Deprecated
    case Active => to == Deprecated
    case Deprecated => false
  }

  datatype Command = Activate(id: nat) | Deprecate(id: nat)

  function Target(c: Command): Status {
    if c.Activate? then Active else Deprecated
  }

  /** Why a command is refused, if it is. */
  function Refused(t: Table, c: Command): Option<Error> {
    if c.id !in t then Some(NotFound)
    else if !Allowed(t[c.id].status, Target(c)) then Some(TransitionForbidden)
    else None
  }

  /** The status of version v after an accepted command. */
  function StatusAfter(t: Table, c: Command, v: nat): Status
    requires c.id in t && v in t
  {
    if v == c.id then Target(c)
    else if c.Activate? && t[v].product == t[c.id].product && t[v].status == Active then Deprecated
    else t[v].status
  }

  /** The table after a command; unchanged when it is refused. */
  function Apply(t: Table, c: Command): Table {
    if Refused(t, c).Some? then t else map v | v in t :: t[v].(status := StatusAfter(t, c, v))
  }

  /**
   What a command does: a draft can be activated, a draft or an active version deprecated, nothing else;
   activating a version deprecates the other active versions of its product; deprecating one changes no
   other.
   */
  lemma CommandIsExact(t: Table, c: Command, v: nat)
    requires v in t
    ensures Refused(t, c).Some?
            <==> c.id !in t || t[c.id].status == Deprecated || (c.Activate? && t[c.id].status == Active)
    ensures v in Apply(t, c) && Apply(t, c)[v].product == t[v].product
    ensures Refused(t, c).Some? ==> Apply(t, c) == t
    ensures Refused(t, c).None? && v == c.id ==> Apply(t, c)[v].status == if c.Activate? then Active else Deprecated
    ensures Refused(t, c).None? && v != c.id ==>
              Apply(t, c)[v].status
              == if c.Activate? && t[v] == Version(t[c.id].product, Active) then Deprecated else t[v].status
  {
  }

  class VersionStore {
    var table: Table

    constructor (table: Table)
      ensures this.table == table
    {
      this.table := table;
    }

    /** activate_bom_version: look up, check the transition, deprecate the product's other active
        versions, then set this one active. */
    method ActivateVersion(id: nat) returns (r: Result<Version, Error>)
      modifies this
      ensures table == Apply(old(table), Activate(id))
      ensures r == match Refused(old(table), Activate(id)) case Some(e) => Err(e) case None => Ok(table[id])
    {
      if id !in table {
        return Err(NotFound);
      }
      var version := table[id];
      if !Allowed(version.status, Active) {
        return Err(TransitionForbidden);
      }
      table := map v | v in table ::
        if table[v].product == version.product && table[v].status == Active && v != id
        then table[v].(status := Deprecated) else table[v];
      table := table[id := version.(status := Active)];
      r := Ok(table[id]);
    }

    /** deprecate_bom_version. */
    method DeprecateVersion(id: nat) returns (r: Result<Version, Error>)
      modifies this
      ensures table == Apply(old(table), Deprecate(id))
      ensures r == match Refused(old(table), Deprecate(id)) case Some(e) => Err(e) case None => Ok(table[id])
    {
      if id !in table {
        return Err(NotFound);
      }
      if !Allowed(table[id].status, Deprecated) {
        return Err(TransitionForbidden);
      }
      table := table[id := table[id].(status := Deprecated)];
      r := Ok(table[id]);
    }
  }

  // ---- Runs ----

  function Run(t: Table, commands: seq<Command>): Table {
    if commands == [] then t else Apply(Run(t, commands[..|commands| - 1]), commands[|commands| - 1])
  }

  ghost predicate AtMostOne(t: Table, product: nat) {
    forall v, w :: v in t && w in t && t[v] == t[w] == Version(product, Active) ==> v == w
  }

  /** Version ids and products never change. */
  ghost predicate SameVersions(t: Table, u: Table) {
    t.Keys == u.Keys && forall v :: v in t ==> t[v].product == u[v].product
  }

  lemma ApplyStep(t: Table, c: Command, product: nat)
    ensures SameVersions(t, Apply(t, c))
    ensures AtMostOne(t, product) ==> AtMostOne(Apply(t, c), product)
    ensures Refused(t, c).None? && c.Activate? ==>
              forall v :: v in t && Apply(t, c)[v] == Version(t[c.id].product, Active) <==> v == c.id
  {
  }

  /** Every run keeps at most one active version in a product that starts with at most one. */
  lemma {:induction false} RunsKeepOneActive(t: Table, commands: seq<Command>, product: nat)
    requires AtMostOne(t, product)
    ensures AtMostOne(Run(t, commands), product) && SameVersions(t, Run(t, commands))
  {
    if commands != [] {
      var front, last := commands[..|commands| - 1], commands[|commands| - 1];
      RunsKeepOneActive(t, front, product);
      ApplyStep(Run(t, front), last, product);
    }
  }

  /** Command i of the run activates a version of the product. */
  ghost predicate ActivatesIn(t: Table, commands: seq<Command>, i: nat, product: nat)
    requires i < |commands|
  {
    var before := Run(t, commands[..i]);
    && commands[i].Activate? && Refused(before, commands[i]).None?
    && before[commands[i].id].product == product
  }

  /** Even a table that starts with several active versions is repaired by the first successful
      activation: from then on the product has at most one. */
  lemma {:induction false} ActivationRepairs(t: Table, commands: seq<Command>, i: nat, product: nat)
    requires i < |commands| && ActivatesIn(t, commands, i, product)
    ensures AtMostOne(Run(t, commands), product)
    decreases |commands|
  {
    var front, last := commands[..|commands| - 1], commands[|commands| - 1];
    ApplyStep(Run(t, front), last, product);
    if i < |front| {
      assert front[..i] == commands[..i];
      ActivationRepairs(t, front, i, product);
    } else {
      assert front == commands[..i];
    }
  }

  /** A deprecated version stays deprecated; a version never returns to draft; and commands that name no
      version of a product leave all its versions as they were. */
  lemma {:induction false} RunsAreOneWay(t: Table, commands: seq<Command>, v: nat)
    requires v in t
    ensures v in Run(t, commands) && Run(t, commands)[v].product == t[v].product
    ensures t[v].status == Deprecated ==> Run(t, commands)[v] == t[v]
    ensures Run(t, commands)[v].status == Draft ==> t[v].status == Draft
    ensures (forall c :: c in commands && c.id in t ==> t[c.id].product != t[v].product)
            ==> Run(t, commands)[v] == t[v]
  {
    if commands != [] {
      var front, last := commands[..|commands| - 1], commands[|commands| - 1];
      assert commands == front + [last];
      RunsAreOneWay(t, front, v);
      SameKeys(t, front);
      ApplyStep(Run(t, front), last, t[v].product);
    }
  }

  lemma {:induction false} SameKeys(t: Table, commands: seq<Command>)
    ensures SameVersions(t, Run(t, commands))
  {
    if commands != [] {
      var front, last := commands[..|commands| - 1], commands[|commands| - 1];
      SameKeys(t, front);
      ApplyStep(Run(t, front), last, 0);
    }
  }
}
