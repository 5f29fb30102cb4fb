/**
 Synchronising a supplier's factories with a submitted form: upsert in form order, then removal of the
 factories the form no longer has (deleted, or deactivated while a foreign key still refers to them);
 and the carbon declarations that point at factories by their position in the form.
 */
module FactorySync {
  import opened Common

  /** A row of supplier_factories; `details` stands for the columns the form writes. */
  datatype Factory = Factory(supplier: nat, details: string, active: bool)

  type Rows = map<nat, Factory>

  /** A factory of the form. */
  datatype Entry = Entry(id: Option<nat>, details: string)

  /** A row of factory_carbon_declarations, and a declaration of the form. */
  datatype Declaration = Declaration(factory: nat, details: string)
  datatype FormDeclaration = FormDeclaration(index: Option<int>, details: string)

  function Owned(rows: Rows, supplier: nat): set<nat> {
    set id | id in rows && rows[id].supplier == supplier
  }

  /** The id entry gets: its own when the supplier already has that factory, else a new one. */
  predicate IsUpdate(existing: set<nat>, e: Entry) {
    e.id.Some? && e.id.value in existing
  }

  /** Rows and returned ids after the first n entries; new ids are handed out from `next`. */
  datatype Progress = Progress(rows: Rows, next: nat, ids: seq<nat>)

  function Upsert(rows: Rows, next: nat, supplier: nat, entries: seq<Entry>): (p: Progress)
    ensures rows.Keys <= p.rows.Keys && next <= p.next && |p.ids| == |entries|
  {
    if entries == [] then Progress(rows, next, [])
    else
      var p := Upsert(rows, next, supplier, entries[..|entries| - 1]);
      var e := entries[|entries| - 1];
      if IsUpdate(Owned(rows, supplier), e) then
        Progress(p.rows[e.id.value := p.rows[e.id.value].(details := e.details)], p.next, p.ids + [e.id.value])
      else
        Progress(p.rows[p.next := Factory(supplier, e.details, true)], p.next + 1, p.ids + [p.next])
  }

  function IdSet(ids: seq<nat>): set<nat> {
    set i | i in ids
  }

  /** The factories the form no longer has. */
  function Stale(rows: Rows, supplier: nat, ids: seq<nat>): set<nat> {
    Owned(rows, supplier) - IdSet(ids)
  }

  /** Every stale factory is deleted, unless a foreign key refers to it: then it is deactivated. */
  function Sweep(rows: Rows, stale: set<nat>, references: set<nat>): Rows {
    map id | id in rows && !(id in stale && id !in references) ::
      if id in stale then rows[id].(active := false) else rows[id]
  }

  /** The whole synchronisation. */
  function Sync(rows: Rows, next: nat, supplier: nat, entries: seq<Entry>, references: set<nat>): Progress {
    var p := Upsert(rows, next, supplier, entries);
    p.(rows := Sweep(p.rows, Stale(rows, supplier, p.ids), references))
  }

  /** All ids in the table were handed out before `next`. */
  ghost predicate Valid(rows: Rows, next: nat) {
    forall id :: id in rows ==> id < next
  }

  class FactoryStore {
    var rows: Rows
    var next: nat
    var declarations: seq<Declaration>

    constructor ()
      ensures rows == map[] && next == 0 && declarations == []
    {
      rows, next, declarations := map[], 0, [];
    }

    /** The first loop of write_master_form_factories: update the supplier's own factories, insert the
        others, and remember the ids in form order. */
    method UpsertFactories(supplier: nat, entries: seq<Entry>) returns (ids: seq<nat>)
      requires Valid(rows, next)
      modifies this`rows, this`next
      ensures Progress(rows, next, ids) == Upsert(old(rows), old(next), supplier, entries)
    {
      var existing := Owned(rows, supplier);
      ids := [];
      var i := 0;
      while i < |entries|
        invariant i <= |entries| && existing <= rows.Keys
        invariant Progress(rows, next, ids) == Upsert(old(rows), old(next), supplier, entries[..i])
      {
        assert entries[..i + 1][..i] == entries[..i];
        var e := entries[i];
        if e.id.Some? && e.id.value in existing {
          rows := rows[e.id.value := rows[e.id.value].(details := e.details)];
          ids := ids + [e.id.value];
        } else {
          rows := rows[next := Factory(supplier, e.details, true)];
          ids := ids + [next];
          next := next + 1;
        }
        i := i + 1;
      }
      assert entries[..i] == entries;
    }

    /** The second loop: try to delete each stale factory; where that fails on a foreign key, deactivate it.
        The declarations of a deleted factory go with it. */
    method RemoveStale(stale: set<nat>, references: set<nat>)
      requires stale <= rows.Keys
      modifies this`rows, this`declarations
      ensures rows == Sweep(old(rows), stale, references)
      ensures declarations == Kept(old(declarations), stale - references)
    {
      var left := stale;
      KeptAll(declarations);
      assert rows == Sweep(rows, {}, references);
      assert stale - left - references == {};
      while left != {}
        invariant left <= stale && rows == Sweep(old(rows), stale - left, references)
        invariant declarations == Kept(old(declarations), stale - left - references)
        decreases left
      {
        var fid :| fid in left;
        SweepOne(old(rows), stale - left, fid, references);
        if fid in references {
          rows := rows[fid := rows[fid].(active := false)];
          assert stale - (left - {fid}) - references == stale - left - references;
        } else {
          rows := rows - {fid};
          KeptTwice(old(declarations), stale - left - references, {fid});
          declarations := Kept(declarations, {fid});
          assert stale - (left - {fid}) - references == (stale - left - references) + {fid};
        }
        assert stale - (left - {fid}) == stale - left + {fid};
        left := left - {fid};
      }
      assert stale - left == stale;
    }

    /** write_master_form_factories. `references` are the factories that supply ratios or audit records
        point at. */
    method WriteFactories(supplier: nat, entries: seq<Entry>, references: set<nat>) returns (ids: seq<nat>)
      requires Valid(rows, next)
      modifies this
      ensures Progress(rows, next, ids) == Sync(old(rows), old(next), supplier, entries, references)
      ensures declarations == Kept(old(declarations), Stale(old(rows), supplier, ids) - references)
    {
      var existing := Owned(rows, supplier);
      ids := UpsertFactories(supplier, entries);
      RemoveStale(existing - IdSet(ids), references);
    }
  }

  lemma SweepOne(rows: Rows, done: set<nat>, fid: nat, references: set<nat>)
    requires fid in rows && fid !in done
    ensures
      var swept := Sweep(rows, done, references);
      fid in swept && Sweep(rows, done + {fid}, references)
                      == if fid in references then swept[fid := swept[fid].(active := false)] else swept - {fid}
  {
  }

  /** The declarations of all factories but those in `gone`. */
  function Kept(declarations: seq<Declaration>, gone: set<nat>): seq<Declaration> {
    if declarations == [] then []
    else
      var last := declarations[|declarations| - 1];
      Kept(declarations[..|declarations| - 1], gone) + (if last.factory in gone then [] else [last])
  }

  lemma {:induction false} KeptAll(d: seq<Declaration>)
    ensures Kept(d, {}) == d
  {
    if d != [] {
      KeptAll(d[..|d| - 1]);
    }
  }

  lemma {:induction false} KeptTwice(d: seq<Declaration>, a: set<nat>, b: set<nat>)
    ensures Kept(Kept(d, a), b) == Kept(d, a + b)
  {
    if d != [] {
      var front, last := d[..|d| - 1], d[|d| - 1];
      KeptTwice(front, a, b);
      var k := Kept(front, a);
      assert (k + [last])[..|k|] == k;
      assert k + [] == k;
    }
  }

  // ---- What a synchronisation does ----

  /** Position k of the form is the last one that got this id. */
  ghost predicate LastUse(ids: seq<nat>, k: nat, id: nat) {
    k < |ids| && ids[k] == id && forall j :: k < j < |ids| ==> ids[j] != id
  }

  lemma {:induction false} UpsertKeys(rows: Rows, next: nat, supplier: nat, entries: seq<Entry>)
    requires Valid(rows, next)
    ensures
      var p := Upsert(rows, next, supplier, entries);
      Valid(p.rows, p.next) && p.rows.Keys == rows.Keys + IdSet(p.ids)
  {
    if entries != [] {
      var front := entries[..|entries| - 1];
      UpsertKeys(rows, next, supplier, front);
      var before, after := Upsert(rows, next, supplier, front).ids, Upsert(rows, next, supplier, entries).ids;
      assert IdSet(after) == IdSet(before) + {after[|after| - 1]};
    }
  }

  /** A row the upsert returns belongs to the supplier and keeps its active flag, or is new and active; any
      other row is as before. */
  lemma {:induction false} UpsertRow(rows: Rows, next: nat, supplier: nat, entries: seq<Entry>, id: nat)
    requires Valid(rows, next)
    ensures
      var p := Upsert(rows, next, supplier, entries);
      && (id in rows && id !in p.ids ==> p.rows[id] == rows[id])
      && (id in p.ids ==> id in p.rows && p.rows[id].supplier == supplier)
      && (id in p.ids && id in rows ==> rows[id].supplier == supplier && p.rows[id].active == rows[id].active)
      && (id in p.ids && id !in rows ==> id >= next && p.rows[id].active)
  {
    if entries != [] {
      var front := entries[..|entries| - 1];
      UpsertRow(rows, next, supplier, front, id);
      UpsertKeys(rows, next, supplier, front);
    }
  }

  /** A returned row holds what the form says last about it. */
  lemma {:induction false} UpsertDetails(rows: Rows, next: nat, supplier: nat, entries: seq<Entry>, k: nat, id: nat)
    requires Valid(rows, next) && LastUse(Upsert(rows, next, supplier, entries).ids, k, id)
    ensures
      var p := Upsert(rows, next, supplier, entries);
      id in p.rows && p.rows[id].details == entries[k].details
    decreases |entries|
  {
    var n := |entries| - 1;
    var front := entries[..n];
    var before, after := Upsert(rows, next, supplier, front), Upsert(rows, next, supplier, entries);
    assert after.ids[..n] == before.ids;
    if k < n {
      assert LastUse(before.ids, k, id);
      UpsertDetails(rows, next, supplier, front, k, id);
      assert after.ids[n] != id;
    }
  }

  /** The returned ids, entry by entry: an owned id is kept, any other entry gets a new id of its own. */
  lemma {:induction false} UpsertIds(rows: Rows, next: nat, supplier: nat, entries: seq<Entry>, k: nat)
    requires k < |entries|
    ensures
      var p := Upsert(rows, next, supplier, entries);
      if IsUpdate(Owned(rows, supplier), entries[k]) then p.ids[k] == entries[k].id.value
      else next <= p.ids[k] < p.next
  {
    if k < |entries| - 1 {
      UpsertIds(rows, next, supplier, entries[..|entries| - 1], k);
    }
  }

  lemma {:induction false} NewIdsDiffer(rows: Rows, next: nat, supplier: nat, entries: seq<Entry>, j: nat, k: nat)
    requires Valid(rows, next) && j < k < |entries|
    requires Upsert(rows, next, supplier, entries).ids[j] == Upsert(rows, next, supplier, entries).ids[k]
    ensures IsUpdate(Owned(rows, supplier), entries[j]) && IsUpdate(Owned(rows, supplier), entries[k])
    decreases |entries|
  {
    var front := entries[..|entries| - 1];
    if k < |entries| - 1 {
      NewIdsDiffer(rows, next, supplier, front, j, k);
    } else {
      UpsertIds(rows, next, supplier, front, j);
      UpsertKeys(rows, next, supplier, front);
    }
  }

  /**
   After a synchronisation: the ids line up with the form; the supplier owns exactly the returned
   factories and the referenced ones the form left out, and the latter are inactive and otherwise as
   before; a returned factory keeps its active flag, a new one is active; no referenced factory is gone;
   other suppliers' rows are as before.
   */
  lemma SyncIsExact(rows: Rows, next: nat, supplier: nat, entries: seq<Entry>, references: set<nat>)
    requires Valid(rows, next)
    ensures
      var p := Sync(rows, next, supplier, entries, references);
      var dropped := Owned(rows, supplier) - IdSet(p.ids);
      && |p.ids| == |entries| && Valid(p.rows, p.next)
      && (forall k :: 0 <= k < |entries| && IsUpdate(Owned(rows, supplier), entries[k]) ==>
           p.ids[k] == entries[k].id.value)
      && (forall k :: 0 <= k < |entries| && !IsUpdate(Owned(rows, supplier), entries[k]) ==> p.ids[k] !in rows)
      && Owned(p.rows, supplier) == IdSet(p.ids) + dropped * references
      && (forall id :: id in dropped * references ==> p.rows[id] == rows[id].(active := false))
      && (forall id :: id in p.ids ==> id in p.rows && p.rows[id].active == (id in rows ==> rows[id].active))
      && (forall id :: id in references && id in rows ==> id in p.rows)
      && (forall id :: id in rows && rows[id].supplier != supplier ==> id in p.rows && p.rows[id] == rows[id])
      && (forall k: nat, id :: LastUse(p.ids, k, id) ==> id in p.rows && p.rows[id].details == entries[k].details)
      && (forall j, k :: 0 <= j < k < |entries| && p.ids[j] == p.ids[k] ==> IsUpdate(Owned(rows, supplier), entries[j]))
  {
    hide Upsert;
    UpsertKeys(rows, next, supplier, entries);
    var u := Upsert(rows, next, supplier, entries);
    forall k: nat | k < |entries|
      ensures if IsUpdate(Owned(rows, supplier), entries[k]) then u.ids[k] == entries[k].id.value
              else next <= u.ids[k] < u.next
    {
      UpsertIds(rows, next, supplier, entries, k);
    }
    forall j: nat, k: nat | j < k < |entries| && u.ids[j] == u.ids[k]
      ensures IsUpdate(Owned(rows, supplier), entries[j])
    {
      NewIdsDiffer(rows, next, supplier, entries, j, k);
    }
    forall id ensures
        && (id in rows && id !in u.ids ==> u.rows[id] == rows[id])
        && (id in u.ids ==> id in u.rows && u.rows[id].supplier == supplier)
        && (id in u.ids && id in rows ==> rows[id].supplier == supplier && u.rows[id].active == rows[id].active)
        && (id in u.ids && id !in rows ==> u.rows[id].active)
    {
      UpsertRow(rows, next, supplier, entries, id);
    }
    forall k: nat, id | LastUse(u.ids, k, id) ensures id in u.rows && u.rows[id].details == entries[k].details {
      UpsertDetails(rows, next, supplier, entries, k, id);
    }
  }

  // ---- Resubmission ----

  /** The same form with the ids the first submission returned. */
  function Resubmitted(entries: seq<Entry>, ids: seq<nat>): seq<Entry>
    requires |entries| == |ids|
  {
    seq(|entries|, k requires 0 <= k < |entries| => Entry(Some(ids[k]), entries[k].details))
  }

  lemma {:induction false} AllUpdates(rows: Rows, next: nat, supplier: nat, entries: seq<Entry>)
    requires forall e :: e in entries ==> IsUpdate(Owned(rows, supplier), e)
    ensures Upsert(rows, next, supplier, entries).next == next
    ensures forall k :: 0 <= k < |entries| ==> entries[k].id == Some(Upsert(rows, next, supplier, entries).ids[k])
  {
    if entries != [] {
      var front := entries[..|entries| - 1];
      assert forall e :: e in front ==> e in entries;
      assert entries[|entries| - 1] in entries;
      AllUpdates(rows, next, supplier, front);
    }
  }

  lemma {:induction false} LastUseExists(ids: seq<nat>, id: nat) returns (k: nat)
    requires id in ids
    ensures LastUse(ids, k, id)
  {
    var n := |ids| - 1;
    if ids[n] == id {
      k := n;
    } else {
      k := LastUseExists(ids[..n], id);
    }
  }

  /** Submitting the form again with the returned ids changes nothing: no new rows, the same ids, and the
      factories left out the first time stay as they are. */
  lemma ResubmissionIsIdempotent(rows: Rows, next: nat, supplier: nat, entries: seq<Entry>, references: set<nat>)
    requires Valid(rows, next)
    ensures
      var p := Sync(rows, next, supplier, entries, references);
      |p.ids| == |entries| && Sync(p.rows, p.next, supplier, Resubmitted(entries, p.ids), references) == p
  {
    hide Upsert;
    SyncIsExact(rows, next, supplier, entries, references);
    var p := Sync(rows, next, supplier, entries, references);
    var again := Resubmitted(entries, p.ids);
    forall e | e in again ensures IsUpdate(Owned(p.rows, supplier), e) {
      var k :| 0 <= k < |again| && again[k] == e;
      assert p.ids[k] in IdSet(p.ids);
    }
    SameRows(p.rows, p.next, supplier, again, entries, p.ids);
    SweepAgain(p.rows, Stale(p.rows, supplier, p.ids), references);
  }

  lemma SameRows(rows: Rows, next: nat, supplier: nat, again: seq<Entry>, entries: seq<Entry>, ids: seq<nat>)
    requires Valid(rows, next) && |entries| == |ids| && again == Resubmitted(entries, ids)
    requires forall e :: e in again ==> IsUpdate(Owned(rows, supplier), e)
    requires forall k: nat, id :: LastUse(ids, k, id) ==> id in rows && rows[id].details == entries[k].details
    ensures Upsert(rows, next, supplier, again) == Progress(rows, next, ids)
  {
    hide Upsert;
    var u := Upsert(rows, next, supplier, again);
    AllUpdates(rows, next, supplier, again);
    assert u.ids == ids;
    UpsertKeys(rows, next, supplier, again);
    forall id | id in ids ensures id in rows {
      var k :| 0 <= k < |ids| && ids[k] == id;
      assert again[k] in again;
    }
    assert u.rows.Keys == rows.Keys;
    forall id | id in rows ensures u.rows[id] == rows[id] {
      UpsertRow(rows, next, supplier, again, id);
      if id in ids {
        var k := LastUseExists(ids, id);
        UpsertDetails(rows, next, supplier, again, k, id);
      }
    }
  }

  lemma SweepAgain(rows: Rows, stale: set<nat>, references: set<nat>)
    requires stale <= references && forall id :: id in stale && id in rows ==> !rows[id].active
    ensures Sweep(rows, stale, references) == rows
  {
  }

  // ---- Carbon declarations ----

  /** _factory_id_at. */
  function FactoryAt(index: Option<int>, ids: seq<nat>): Option<nat> {
    if index.None? || ids == [] then None
    else if 0 <= index.value < |ids| then Some(ids[index.value])
    else None
  }

  function Attached(form: seq<FormDeclaration>, ids: seq<nat>): seq<Declaration> {
    if form == [] then []
    else
      var last := form[|form| - 1];
      Attached(form[..|form| - 1], ids)
      + (match FactoryAt(last.index, ids)
         case None => []
         case Some(fid) => [Declaration(fid, last.details)])
  }

  /** The declaration part of write_master_form_manufacturing: replace the declarations of the form's
      factories, attaching each to the factory at its index and skipping those that point nowhere. */
  method WriteDeclarations(store: FactoryStore, ids: seq<nat>, form: seq<FormDeclaration>)
    modifies store`declarations
    ensures store.declarations == Kept(old(store.declarations), IdSet(ids)) + Attached(form, ids)
  {
    if ids != [] {
      store.declarations := Kept(store.declarations, IdSet(ids));
    } else {
      KeptAll(store.declarations);
      assert IdSet(ids) == {};
    }
    ghost var kept := store.declarations;
    var i := 0;
    assert kept + Attached(form[..0], ids) == kept;
    while i < |form|
      invariant i <= |form| && store.declarations == kept + Attached(form[..i], ids)
    {
      assert form[..i + 1][..i] == form[..i];
      var fid := FactoryAt(form[i].index, ids);
      if fid.Some? {
        store.declarations := store.declarations + [Declaration(fid.value, form[i].details)];
      }
      i := i + 1;
    }
    assert form[..i] == form;
  }

  ghost predicate PointsAt(d: FormDeclaration, ids: seq<nat>, a: Declaration) {
    d.index.Some? && 0 <= d.index.value < |ids| && a == Declaration(ids[d.index.value], d.details)
  }

  /** A declaration is attached iff some declaration of the form points at its factory by index. */
  lemma {:induction false} AttachedIff(form: seq<FormDeclaration>, ids: seq<nat>, a: Declaration)
    ensures a in Attached(form, ids) <==> exists d :: d in form && PointsAt(d, ids, a)
  {
    if form != [] {
      var front, last := form[..|form| - 1], form[|form| - 1];
      AttachedIff(front, ids, a);
      assert forall d :: d in form <==> d in front || d == last;
      if PointsAt(last, ids, a) {
        assert last in form;
      }
    }
  }

  lemma {:induction false} KeptIff(d: seq<Declaration>, gone: set<nat>, x: Declaration)
    ensures x in Kept(d, gone) <==> x in d && x.factory !in gone
  {
    if d != [] {
      var front, last := d[..|d| - 1], d[|d| - 1];
      KeptIff(front, gone, x);
      assert x in d <==> x in front || x == last;
    }
  }

  /** Through both steps of a submission no declaration is left pointing at a factory that is gone, and
      the factories of the form carry exactly the declarations the form attaches to them. */
  lemma SubmissionKeepsDeclarationsSound(
      rows: Rows, next: nat, supplier: nat, entries: seq<Entry>, references: set<nat>,
      declarations: seq<Declaration>, form: seq<FormDeclaration>, x: Declaration)
    requires Valid(rows, next) && forall d :: d in declarations ==> d.factory in rows
    ensures
      var p := Sync(rows, next, supplier, entries, references);
      var cascaded := Kept(declarations, Stale(rows, supplier, p.ids) - references);
      var after := Kept(cascaded, IdSet(p.ids)) + Attached(form, p.ids);
      && (x in after ==> x.factory in p.rows)
      && (x.factory in p.ids ==> (x in after <==> exists d :: d in form && PointsAt(d, p.ids, x)))
      && (x.factory in p.rows && x.factory !in p.ids ==> (x in after <==> x in declarations))
  {
    hide Upsert;
    var p := Sync(rows, next, supplier, entries, references);
    SyncIsExact(rows, next, supplier, entries, references);
    UpsertKeys(rows, next, supplier, entries);
    AttachedIff(form, p.ids, x);
    var gone := Stale(rows, supplier, p.ids) - references;
    KeptIff(declarations, gone, x);
    KeptIff(Kept(declarations, gone), IdSet(p.ids), x);
    forall id | id in p.ids ensures id in p.rows {
      assert id in Owned(p.rows, supplier);
    }
  }
}
