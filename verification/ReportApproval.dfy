/** The approval line of a report: creation, submission, and step-by-step approval or rejection. */
module ReportApproval {
  import opened Common

  datatype ReportStatus = Draft | ApprovalPending | FullyApproved | Returned

  datatype StepStatus = Pending | Approved | Rejected

  datatype Error = NoApprovers | NotDraft | StepMissing | NotTheApprover | NotPending | StepDecided

  datatype Action = Submit | Approve(actor: nat) | Reject(actor: nat)

  /** The report and the statuses of its steps; step k is decided by approver k. */
  datatype Line = Line(status: ReportStatus, current: nat, steps: seq<StepStatus>)

  class Report {
    const approvers: seq<nat>
    var status: ReportStatus
    var current: nat
    var steps: seq<StepStatus>

    ghost function View(): Line
      reads this
    {
      Line(status, current, steps)
    }

    constructor (approvers: seq<nat>)
      ensures this.approvers == approvers && View() == Created(approvers)
    {
      this.approvers := approvers;
      status, current := Draft, 1;
      steps := seq(|approvers|, i => Pending);
    }

    method SubmitReport() returns (error: Option<Error>)
      modifies this
      ensures Acts(approvers, old(View()), Submit, View(), error)
    {
      if status != Draft {
        return Some(NotDraft);
      }
      status, current := ApprovalPending, 1;
      error := None;
    }

    /** The checks of the service before a decision: the current step exists and the actor decides it. */
    method CheckActor(actor: nat) returns (error: Option<Error>)
      ensures error == ActorError(approvers, View(), actor)
    {
      if !(1 <= current <= |steps|) || current > |approvers| {
        return Some(StepMissing);
      }
      if approvers[current - 1] != actor {
        return Some(NotTheApprover);
      }
      error := None;
    }

    method ApproveStep(actor: nat) returns (error: Option<Error>)
      modifies this
      ensures Acts(approvers, old(View()), Approve(actor), View(), error)
    {
      error := CheckActor(actor);
      if error.Some? {
        return;
      }
      var isLast := current >= |steps|;
      if status != ApprovalPending {
        return Some(NotPending);
      }
      if steps[current - 1] != Pending {
        return Some(StepDecided);
      }
      steps := steps[current - 1 := Approved];
      if isLast {
        status := FullyApproved;
      } else {
        current := current + 1;
      }
    }

    method RejectStep(actor: nat) returns (error: Option<Error>)
      modifies this
      ensures Acts(approvers, old(View()), Reject(actor), View(), error)
    {
      error := CheckActor(actor);
      if error.Some? {
        return;
      }
      if status != ApprovalPending {
        return Some(NotPending);
      }
      if steps[current - 1] != Pending {
        return Some(StepDecided);
      }
      steps := steps[current - 1 := Rejected];
      status := Returned;
    }
  }

  /** create_report: an approval line needs at least one approver. */
  method CreateReport(approvers: seq<nat>) returns (r: Result<Report, Error>)
    ensures r.Err? <==> approvers == []
    ensures r.Err? ==> r.error == NoApprovers
    ensures r.Ok? ==> fresh(r.value) && r.value.approvers == approvers && r.value.View() == Created(approvers)
  {
    if approvers == [] {
      return Err(NoApprovers);
    }
    var report := new Report(approvers);
    r := Ok(report);
  }

  function Created(approvers: seq<nat>): Line {
    Line(Draft, 1, seq(|approvers|, i => Pending))
  }

  function ActorError(approvers: seq<nat>, r: Line, actor: nat): Option<Error> {
    if !(1 <= r.current <= |r.steps|) || r.current > |approvers| then Some(StepMissing)
    else if approvers[r.current - 1] != actor then Some(NotTheApprover)
    else None
  }

  function DecisionError(approvers: seq<nat>, r: Line, actor: nat): Option<Error> {
    if ActorError(approvers, r, actor).Some? then ActorError(approvers, r, actor)
    else if r.status != ApprovalPending then Some(NotPending)
    else if r.steps[r.current - 1] != Pending then Some(StepDecided)
    else None
  }

  function ErrorOf(approvers: seq<nat>, r: Line, a: Action): Option<Error> {
    match a
    case Submit => if r.status != Draft then Some(NotDraft) else None
    case Approve(actor) => DecisionError(approvers, r, actor)
    case Reject(actor) => DecisionError(approvers, r, actor)
  }

  /** One action: the line afterwards and the error, if any. */
  ghost predicate Acts(approvers: seq<nat>, before: Line, a: Action, after: Line, error: Option<Error>) {
    && error == ErrorOf(approvers, before, a)
    && (error.Some? ==> after == before)
    && (error.None? ==>
          match a
          case Submit => after == Line(ApprovalPending, 1, before.steps)
          case Approve(_) =>
            && after.steps == before.steps[before.current - 1 := Approved]
            && if before.current == |before.steps| then after.status == FullyApproved && after.current == before.current
               else after.status == before.status && after.current == before.current + 1
          case Reject(_) =>
            after == Line(Returned, before.current, before.steps[before.current - 1 := Rejected]))
  }

  // ---- Runs ----

  ghost predicate IsRun(approvers: seq<nat>, lines: seq<Line>, actions: seq<Action>, errors: seq<Option<Error>>) {
    && approvers != []
    && |lines| == |actions| + 1 == |errors| + 1
    && lines[0] == Created(approvers)
    && forall i, j {:trigger lines[i], lines[j]} :: 0 <= i && j == i + 1 && j < |lines| ==>
         Acts(approvers, lines[i], actions[i], lines[j], errors[i])
  }

  /** How many steps are decided in a line that keeps the invariant. */
  function Decided(r: Line): nat {
    if r.status == FullyApproved || r.status == Returned then r.current
    else if r.current == 0 then 0 else r.current - 1
  }

  /** The steps before the current one are approved and those after it pending; the current one is
      pending, or approved in a fully approved line, or rejected in a returned one. */
  ghost predicate InOrder(approvers: seq<nat>, r: Line) {
    && |r.steps| == |approvers| && 1 <= r.current <= |r.steps|
    && (forall k :: 0 <= k < r.current - 1 ==> r.steps[k] == Approved)
    && (forall k :: r.current <= k < |r.steps| ==> r.steps[k] == Pending)
    && (r.steps[r.current - 1] ==
          match r.status
          case Draft => Pending
          case ApprovalPending => Pending
          case FullyApproved => Approved
          case Returned => Rejected)
    && (r.status == Draft ==> r.current == 1)
    && (r.status == FullyApproved ==> r.current == |r.steps|)
  }

  predicate IsDecision(a: Action) {
    a.Approve? || a.Reject?
  }

  lemma ActionKeepsOrder(approvers: seq<nat>, before: Line, a: Action, after: Line, error: Option<Error>)
    requires InOrder(approvers, before) && Acts(approvers, before, a, after, error)
    ensures InOrder(approvers, after)
    ensures Decided(after) == Decided(before) + (if error.None? && IsDecision(a) then 1 else 0)
    ensures error.None? && IsDecision(a) ==> a.actor == approvers[Decided(before)]
  {
  }

  /** Whoever's turn it is can decide a pending report, and nobody else: any other actor is refused, and so is
      any decision on a report that is not pending. */
  lemma TurnDecides(approvers: seq<nat>, r: Line, actor: nat)
    requires InOrder(approvers, r)
    ensures DecisionError(approvers, r, actor).None?
            <==> r.status == ApprovalPending && actor == approvers[r.current - 1]
    ensures ErrorOf(approvers, r, Approve(actor)) == ErrorOf(approvers, r, Reject(actor))
            == DecisionError(approvers, r, actor)
  {
  }

  /** The approvers in turn, after the submission. */
  function InTurn(approvers: seq<nat>): seq<Action> {
    [Submit] + seq(|approvers|, k requires 0 <= k < |approvers| => Approve(approvers[k]))
  }

  /** A line with approvers can always be completed: submitting and approving in turn never fails and ends
      in a fully approved report. */
  lemma {:induction false} ApprovalInTurnSucceeds(
      approvers: seq<nat>, lines: seq<Line>, actions: seq<Action>, errors: seq<Option<Error>>, n: nat)
    requires IsRun(approvers, lines, actions, errors) && actions == InTurn(approvers) && 1 <= n <= |actions|
    ensures errors[n - 1].None? && InOrder(approvers, lines[n]) && Decided(lines[n]) == n - 1
    ensures lines[n].status == if n == |actions| then FullyApproved else ApprovalPending
  {
    assert Acts(approvers, lines[n - 1], actions[n - 1], lines[n], errors[n - 1]);
    if n > 1 {
      ApprovalInTurnSucceeds(approvers, lines, actions, errors, n - 1);
      TurnDecides(approvers, lines[n - 1], approvers[n - 2]);
      ActionKeepsOrder(approvers, lines[n - 1], actions[n - 1], lines[n], errors[n - 1]);
    } else {
      assert InOrder(approvers, lines[0]);
    }
  }

  /** The actors of the successful decisions among the first n actions. */
  function Deciders(actions: seq<Action>, errors: seq<Option<Error>>, n: nat): seq<nat>
    requires n <= |actions| == |errors|
  {
    if n == 0 then []
    else
      Deciders(actions, errors, n - 1)
      + (if errors[n - 1].None? && IsDecision(actions[n - 1]) then [actions[n - 1].actor] else [])
  }

  /**
   Over every run the line stays in order, and the people who decided, in the order they did, are exactly
   the first approvers of the list: at most one decision per approver, never out of turn.
   */
  lemma {:induction false} RunsStayInOrder(
      approvers: seq<nat>, lines: seq<Line>, actions: seq<Action>, errors: seq<Option<Error>>, n: nat)
    requires IsRun(approvers, lines, actions, errors) && n <= |actions|
    ensures InOrder(approvers, lines[n])
    ensures Decided(lines[n]) <= |approvers| && Deciders(actions, errors, n) == approvers[..Decided(lines[n])]
  {
    if n > 0 {
      RunsStayInOrder(approvers, lines, actions, errors, n - 1);
      assert Acts(approvers, lines[n - 1], actions[n - 1], lines[n], errors[n - 1]);
      ActionKeepsOrder(approvers, lines[n - 1], actions[n - 1], lines[n], errors[n - 1]);
    }
  }

  /** What the report status means for the steps, in both directions. */
  lemma StatusMeansSteps(approvers: seq<nat>, r: Line)
    requires InOrder(approvers, r)
    ensures r.status == FullyApproved <==> forall k :: 0 <= k < |r.steps| ==> r.steps[k] == Approved
    ensures r.status == Returned <==> exists k :: 0 <= k < |r.steps| && r.steps[k] == Rejected
    ensures forall k :: 0 <= k < |r.steps| && r.steps[k] == Rejected ==> k == r.current - 1
  {
    assert r.steps[r.current - 1] == Approved || r.steps[r.current - 1] != Approved;
  }

  /** A fully approved or returned report accepts no action ever again; there is no way to resubmit. */
  lemma {:induction false} EndIsFinal(
      approvers: seq<nat>, lines: seq<Line>, actions: seq<Action>, errors: seq<Option<Error>>, i: nat, n: nat)
    requires IsRun(approvers, lines, actions, errors) && i <= n <= |actions|
    requires lines[i].status == FullyApproved || lines[i].status == Returned
    ensures lines[n] == lines[i] && (n > i ==> errors[n - 1].Some?)
    decreases n
  {
    if i < n {
      EndIsFinal(approvers, lines, actions, errors, i, n - 1);
      assert Acts(approvers, lines[n - 1], actions[n - 1], lines[n], errors[n - 1]);
    }
  }
}
