/**
 The batch pipeline as a transition system: the deterministic router, five work nodes, the human
 interrupt and the final node. Database, LLM, geo, risk and reviewer answers are arbitrary.
 The router stores the applicable regulations in the state it is given; here that state goes on.
 */
module Pipeline {
  import opened Common
  import opened Verdicts
  import ExtractionGate

  datatype Stage = Queued | Extraction | Geo | Compliance | Risk | Judgment

  datatype Reason = GeographicalRisk | RiskEscalated | LowConfidence

  datatype Status = Processing | HitlWait | Completed

  datatype Final = Final(overall: Overall, confidence: Option<real>)

  /** BatchState, without identifiers and texts. A missing key is None (false for hitlRequired). */
  datatype State = State(
    product: Option<nat>,
    destination: Option<string>,
    stage: Stage,
    status: Status,
    confidence: Option<real>,
    applicable: Option<seq<Regulation>>,
    hitlRequired: bool,
    errorReason: Option<Reason>,
    supplierIds: seq<nat>,
    geoRisk: Option<bool>,
    verdicts: Option<map<Regulation, Verdict>>,
    final: Option<Final>)

  /** start_graph's initial state. */
  function Initial(product: Option<nat>, destination: Option<string>): State {
    State(product, destination, Queued, Processing, None, None, false, None, [], None, None, None)
  }

  /** What the outside world answers to one node execution. */
  datatype Answers = Answers(
    supplierIds: seq<nat>,
    documents: seq<ExtractionGate.Document>,
    geoRisks: nat,
    evidence: EvidenceMap,
    escalated: bool,
    storedVerdicts: map<Regulation, Verdict>,
    storedGeoRisk: bool,
    riskScore: int,
    approved: bool)

  datatype Node = DataGateway | GeoAudit | ComplianceAgent | RiskScoring | FinalJudgment | HitlInterrupt | Finish

  // ---- Router ----

  function Route(s: State): (State, Node) {
    var s' := if s.applicable.None? then s.(applicable := Some(RegulationsFor(s.destination))) else s;
    var node :=
      if s.errorReason.Some? then HitlInterrupt
      else
        match s.stage
        case Queued => DataGateway
        case Extraction => GeoAudit
        case Geo => ComplianceAgent
        case Compliance => RiskScoring
        case Risk => FinalJudgment
        case Judgment => Finish;
    (s', node)
  }

  // ---- Nodes; None means that the node raises ----

  function RunGateway(s: State, a: Answers): State {
    if s.product.None? then
      s.(stage := Extraction, errorReason := Some(LowConfidence), confidence := Some(0.0), supplierIds := [])
    else if a.documents == [] then
      s.(stage := Extraction, errorReason := Some(LowConfidence), confidence := Some(0.0),
         supplierIds := a.supplierIds)
    else
      s.(stage := Extraction,
         errorReason := if ExtractionGate.Passes(a.documents) then None else Some(LowConfidence),
         confidence := Some(ExtractionGate.Lowest(a.documents)),
         supplierIds := a.supplierIds)
  }

  function RunGeoAudit(s: State, a: Answers): State {
    var detected := a.geoRisks > 0;
    s.(stage := Geo, geoRisk := Some(detected),
       errorReason := if detected then Some(GeographicalRisk) else s.errorReason,
       hitlRequired := s.hitlRequired || detected)
  }

  /** float(state.get("confidence_score") or 1.0). */
  function ConfidenceOrOne(c: Option<real>): real {
    if c.Some? && c.value != 0.0 then c.value else 1.0
  }

  function RunCompliance(s: State, a: Answers): Option<State> {
    if s.applicable.None? || s.applicable.value == [] then
      Some(s.(stage := Compliance, verdicts := Some(map[])))
    else
      var found := VerdictsOf(s.applicable.value, a.evidence);
      if found.None? then None
      else
        Some(s.(stage := Compliance, verdicts := found,
                confidence := Some(ConfidenceOrOne(s.confidence)),
                errorReason := if AnyReview(s.applicable.value, a.evidence) then Some(LowConfidence) else None))
  }

  function RunRiskScoring(s: State, a: Answers): Option<State> {
    if s.supplierIds == [] then None
    else
      Some(s.(stage := Risk, hitlRequired := s.hitlRequired || a.escalated,
              errorReason := if a.escalated then Some(RiskEscalated) else s.errorReason))
  }

  function RunFinalJudgment(s: State, a: Answers): State {
    var verdicts := if s.verdicts.Some? && s.verdicts.value != map[] then s.verdicts.value else a.storedVerdicts;
    var geoRisk := if s.geoRisk.Some? then s.geoRisk.value else a.storedGeoRisk;
    s.(stage := Judgment, final := Some(Final(RollUp(verdicts, geoRisk, LevelOf(a.riskScore)), s.confidence)))
  }

  /** hitl_interrupt_node: pause, review and resumption as one step; None when not approved. */
  function RunHitl(s: State, a: Answers): Option<State> {
    if !a.approved then None
    else
      var c := if s.confidence.Some? then s.confidence.value else 0.0;
      Some(s.(status := Processing, hitlRequired := false, errorReason := None,
              confidence := Some(if c > 0.85 then c else 0.85)))
  }

  function RunNode(node: Node, s: State, a: Answers): Option<State> {
    match node
    case DataGateway => Some(RunGateway(s, a))
    case GeoAudit => Some(RunGeoAudit(s, a))
    case ComplianceAgent => RunCompliance(s, a)
    case RiskScoring => RunRiskScoring(s, a)
    case FinalJudgment => Some(RunFinalJudgment(s, a))
    case HitlInterrupt => RunHitl(s, a)
    case Finish => Some(s.(status := Completed))
  }

  // ---- Runs ----

  /** One node execution: the state the node was given and what it returned. */
  datatype Visit = Visit(node: Node, entry: State, exit: Option<State>)

  /** Live: more to do. Done: the graph reached its end. Held: a review was not approved. Raised: a work
      node raised. */
  datatype Phase = Live | Done | Held | Raised

  datatype Config = Config(state: State, trace: seq<Visit>, phase: Phase)

  function Advance(c: Config, a: Answers): Config {
    if c.phase != Live then c
    else
      var (s, node) := Route(c.state);
      var exit := RunNode(node, s, a);
      var trace := c.trace + [Visit(node, s, exit)];
      match exit
      case None => Config(s, trace, if node == HitlInterrupt then Held else Raised)
      case Some(s') => Config(s', trace, if node == Finish then Done else Live)
  }

  type Oracle = nat -> Answers

  /** The configuration after n node executions; execution i reads answer i. */
  function Run(start: State, oracle: Oracle, n: nat): Config {
    if n == 0 then Config(start, [], Live) else Advance(Run(start, oracle, n - 1), oracle(n - 1))
  }

  /** The trace without the human interrupts. */
  function Work(trace: seq<Visit>): seq<Node> {
    if trace == [] then []
    else
      var last := trace[|trace| - 1].node;
      var before := Work(trace[..|trace| - 1]);
      if last == HitlInterrupt then before else before + [last]
  }

  function Pauses(trace: seq<Visit>): nat {
    if trace == [] then 0
    else Pauses(trace[..|trace| - 1]) + (if trace[|trace| - 1].node == HitlInterrupt then 1 else 0)
  }

  const PLAN: seq<Node> := [DataGateway, GeoAudit, ComplianceAgent, RiskScoring, FinalJudgment, Finish]

  function Index(stage: Stage): nat {
    match stage
    case Queued => 0
    case Extraction => 1
    case Geo => 2
    case Compliance => 3
    case Risk => 4
    case Judgment => 5
  }

  /** The measure of a live configuration: stages left, then whether a review is pending. */
  function StagesLeft(c: Config): nat {
    5 - Index(c.state.stage)
  }

  function Pending(c: Config): nat {
    if c.state.errorReason.Some? then 1 else 0
  }

  function ConfidentEnough(c: Option<real>): bool {
    c.Some? && c.value >= 0.85
  }

  // ---- What every reachable configuration keeps ----

  /** A visit as the whole-run results below need it. */
  predicate VisitOk(v: Visit) {
    // No work node is entered with a pending reason, and after the gate none with low confidence.
    && (v.node == HitlInterrupt <==> v.entry.errorReason.Some?)
    && (v.node != HitlInterrupt && v.node != DataGateway ==> ConfidentEnough(v.entry.confidence))
    && v.entry.applicable.Some?
    && (v.node != HitlInterrupt ==> v.node == PLAN[Index(v.entry.stage)])
  }

  /** Consecutive visits: a reason left by one node is handled by the interrupt right after it. */
  predicate Linked(v: Visit, w: Visit) {
    v.exit.Some? && (v.exit.value.errorReason.Some? ==> w.node == HitlInterrupt)
    && w.entry == Route(v.exit.value).0
  }

  ghost predicate TraceOk(trace: seq<Visit>) {
    && (forall i :: 0 <= i < |trace| ==> VisitOk(trace[i]))
    && (forall i, j {:trigger trace[i], trace[j]} :: 0 <= i && j == i + 1 && j < |trace| ==> Linked(trace[i], trace[j]))
  }

  ghost predicate LiveOk(c: Config) {
    var k := Index(c.state.stage);
    && Work(c.trace) == PLAN[..k]
    && Pauses(c.trace) + Pending(c) <= (if k <= 4 then k else 4)
    && |c.trace| == k + Pauses(c.trace)
    && (c.state.stage == Queued || c.state.stage == Judgment ==> c.state.errorReason.None?)
    && ((k >= 1 && c.state.errorReason.None?) || k >= 2 ==> ConfidentEnough(c.state.confidence))
    && (c.trace != [] ==> c.trace[|c.trace| - 1].exit == Some(c.state))
  }

  ghost predicate Invariant(c: Config) {
    TraceOk(c.trace) && (c.phase == Live ==> LiveOk(c))
  }

  lemma GateConfidence(s: State, a: Answers)
    ensures RunGateway(s, a).errorReason.None? ==> ConfidentEnough(RunGateway(s, a).confidence)
  {
    ExtractionGate.LowestBounds(a.documents, 0.85);
  }

  lemma AdvanceKeepsTrace(c: Config, a: Answers)
    requires Invariant(c) && c.phase == Live
    ensures TraceOk(Advance(c, a).trace)
  {
    var trace := Advance(c, a).trace;
    var last := |trace| - 1;
    assert trace[..last] == c.trace;
    assert VisitOk(trace[last]);
    forall i, j | 0 <= i && j == i + 1 && j < |trace| ensures Linked(trace[i], trace[j]) {
      if j == last {
        assert trace[i].exit == Some(c.state);
      } else {
        assert trace[i] == c.trace[i] && trace[j] == c.trace[j];
      }
    }
  }

  lemma Append(trace: seq<Visit>, v: Visit)
    ensures Work(trace + [v]) == if v.node == HitlInterrupt then Work(trace) else Work(trace) + [v.node]
    ensures Pauses(trace + [v]) == Pauses(trace) + (if v.node == HitlInterrupt then 1 else 0)
  {
    assert (trace + [v])[..|trace|] == trace;
  }

  /** What one execution does to the stage and the reason. */
  lemma NodeEffect(c: Config, a: Answers)
    requires LiveOk(c) && Advance(c, a).phase == Live
    ensures
      var node, after := Route(c.state).1, Advance(c, a).state;
      && Advance(c, a).trace == c.trace + [Visit(node, Route(c.state).0, Some(after))]
      && node != Finish
      && (node == HitlInterrupt <==> c.state.errorReason.Some?)
      && (node == HitlInterrupt ==> after.stage == c.state.stage && after.errorReason.None?)
      && (node != HitlInterrupt ==>
            && Index(after.stage) == Index(c.state.stage) + 1 && node == PLAN[Index(c.state.stage)]
            && (after.stage == Judgment ==> after.errorReason.None?))
  {
  }

  lemma ConfidenceEffect(c: Config, a: Answers)
    requires LiveOk(c) && Advance(c, a).phase == Live
    ensures
      var after := Advance(c, a).state;
      ((Index(after.stage) >= 1 && after.errorReason.None?) || Index(after.stage) >= 2) ==>
        ConfidentEnough(after.confidence)
  {
    GateConfidence(Route(c.state).0, a);
  }

  /** A live step keeps the invariant and decreases (stages left, pending review). */
  lemma AdvanceKeepsLive(c: Config, a: Answers)
    requires LiveOk(c) && Advance(c, a).phase == Live
    ensures LiveOk(Advance(c, a))
    ensures StagesLeft(Advance(c, a)) < StagesLeft(c)
            || (StagesLeft(Advance(c, a)) == StagesLeft(c) && Pending(Advance(c, a)) < Pending(c))
  {
    hide Advance, Route, Work, Pauses;
    NodeEffect(c, a);
    ConfidenceEffect(c, a);
    Append(c.trace, Visit(Route(c.state).1, Route(c.state).0, Some(Advance(c, a).state)));
    var k := Index(c.state.stage);
    assert PLAN[..k] + [PLAN[k]] == PLAN[..k + 1];
  }

  // ---- How runs end ----

  /** The four ways a run stands still, and where each can happen. */
  ghost predicate EndOk(c: Config) {
    && c.trace != []
    && var last := c.trace[|c.trace| - 1];
       match c.phase
       case Live => false
       case Done => last.exit.Some? && Work(c.trace) == PLAN && Pauses(c.trace) <= 4 && c.state.status == Completed
       case Held =>
          last.exit.None? && last.node == HitlInterrupt && last.entry.errorReason.Some? && Work(c.trace) < PLAN
       case Raised =>
         last.exit.None?
         && ((last.node == ComplianceAgent && Work(c.trace) == PLAN[..3])
             || (last.node == RiskScoring && last.entry.supplierIds == [] && Work(c.trace) == PLAN[..4]))
  }

  lemma AdvanceEnds(c: Config, a: Answers)
    requires LiveOk(c) && c.phase == Live && Advance(c, a).phase != Live
    ensures EndOk(Advance(c, a))
  {
    hide Work, Pauses;
    var (s, node) := Route(c.state);
    var k := Index(c.state.stage);
    Append(c.trace, Visit(node, s, RunNode(node, s, a)));
    assert node != HitlInterrupt ==> node == PLAN[k];
    assert PLAN[..k] + [PLAN[k]] == PLAN[..k + 1];
    assert PLAN[..6] == PLAN;
  }

  lemma {:induction false} RunKeepsInvariant(product: Option<nat>, destination: Option<string>, oracle: Oracle, n: nat)
    ensures
      var c := Run(Initial(product, destination), oracle, n);
      Invariant(c) && (c.phase != Live ==> EndOk(c))
  {
    hide Advance, TraceOk, LiveOk, EndOk;
    if n == 0 {
      StartIsOk(product, destination);
    } else {
      RunKeepsInvariant(product, destination, oracle, n - 1);
      var c := Run(Initial(product, destination), oracle, n - 1);
      if c.phase == Live {
        AdvanceKeepsTrace(c, oracle(n - 1));
        if Advance(c, oracle(n - 1)).phase == Live {
          AdvanceKeepsLive(c, oracle(n - 1));
        } else {
          AdvanceEnds(c, oracle(n - 1));
        }
      } else {
        EndedStays(c, oracle(n - 1));
      }
    }
  }

  lemma StartIsOk(product: Option<nat>, destination: Option<string>)
    ensures TraceOk([]) && LiveOk(Config(Initial(product, destination), [], Live))
  {
  }

  lemma EndedStays(c: Config, a: Answers)
    requires c.phase != Live
    ensures Advance(c, a) == c
  {
  }

  lemma {:induction false} LiveLength(start: State, oracle: Oracle, n: nat)
    ensures Run(start, oracle, n).phase == Live ==> |Run(start, oracle, n).trace| == n
    ensures |Run(start, oracle, n).trace| <= n
  {
    if n > 0 {
      LiveLength(start, oracle, n - 1);
    }
  }

  /**
   Every run is over after at most ten node executions. A run that reaches the end has executed gateway, geo
   audit, compliance, risk scoring and final judgment exactly once each, in that order, with at most
   four pauses between them. A run that stops early was not approved, or failed in compliance or, for
   want of suppliers, in risk scoring.
   */
  lemma {:induction false} RunsEnd(product: Option<nat>, destination: Option<string>, oracle: Oracle, n: nat)
    requires n >= 10
    ensures
      var c := Run(Initial(product, destination), oracle, n);
      c.phase != Live && EndOk(c)
  {
    hide Run;
    RunKeepsInvariant(product, destination, oracle, n);
    LiveLength(Initial(product, destination), oracle, n);
  }

  /** Over every run: a reason set by one node is still there when the interrupt runs, and the interrupt
      is the next node; no work node ever starts with a pending reason. */
  lemma {:induction false} NoEscalationLost(product: Option<nat>, destination: Option<string>, oracle: Oracle,
                                            n: nat, i: nat)
    requires i < |Run(Initial(product, destination), oracle, n).trace|
    ensures
      var trace := Run(Initial(product, destination), oracle, n).trace;
      && (trace[i].node != HitlInterrupt ==> trace[i].entry.errorReason.None?)
      && (trace[i].exit.Some? && trace[i].exit.value.errorReason.Some? && i + 1 < |trace| ==>
            && trace[i + 1].node == HitlInterrupt
            && trace[i + 1].entry.errorReason == trace[i].exit.value.errorReason)
  {
    RunKeepsInvariant(product, destination, oracle, n);
    var trace := Run(Initial(product, destination), oracle, n).trace;
    assert VisitOk(trace[i]);
    if i + 1 < |trace| {
      assert Linked(trace[i], trace[i + 1]);
    }
  }

  // ---- The trace and the answers it was computed from ----

  ghost predicate NodeAnswered(v: Visit, a: Answers) {
    v.exit == RunNode(v.node, v.entry, a)
  }

  /** The trace starts in the initial state, and each node made its exit of its entry and its answers. */
  ghost predicate Explained(trace: seq<Visit>, product: Option<nat>, destination: Option<string>, oracle: Oracle) {
    && TraceOk(trace)
    && (trace != [] ==> trace[0].entry == Route(Initial(product, destination)).0)
    && forall i: nat :: i < |trace| ==> NodeAnswered(trace[i], oracle(i))
  }

  lemma AdvanceShape(c: Config, a: Answers)
    requires c.phase == Live
    ensures
      var v := Visit(Route(c.state).1, Route(c.state).0, RunNode(Route(c.state).1, Route(c.state).0, a));
      Advance(c, a).trace == c.trace + [v] && NodeAnswered(v, a)
  {
  }

  lemma {:induction false} RunIsExplained(product: Option<nat>, destination: Option<string>, oracle: Oracle, n: nat)
    ensures Explained(Run(Initial(product, destination), oracle, n).trace, product, destination, oracle)
  {
    hide Advance, Route, RunNode, NodeAnswered, LiveOk, TraceOk;
    RunKeepsInvariant(product, destination, oracle, n);
    if n > 0 {
      var c := Run(Initial(product, destination), oracle, n - 1);
      RunIsExplained(product, destination, oracle, n - 1);
      LiveLength(Initial(product, destination), oracle, n - 1);
      if c.phase == Live {
        AdvanceShape(c, oracle(n - 1));
      } else {
        EndedStays(c, oracle(n - 1));
      }
    }
  }

  /** What one visit does to the state the next one is given. */
  lemma PairEffect(v: Visit, w: Visit, a: Answers)
    requires VisitOk(v) && NodeAnswered(v, a) && Linked(v, w)
    ensures Index(w.entry.stage)
            == Index(v.entry.stage) + (if v.node == HitlInterrupt || v.node == Finish then 0 else 1)
    ensures v.exit.Some? && w.entry.verdicts == v.exit.value.verdicts
    ensures v.node != ComplianceAgent ==> w.entry.verdicts == v.entry.verdicts
    ensures w.entry.geoRisk == if v.node == GeoAudit then Some(a.geoRisks > 0) else v.entry.geoRisk
    ensures v.node != DataGateway ==> w.entry.supplierIds == v.entry.supplierIds
    ensures w.entry.product == v.entry.product && w.entry.applicable == v.entry.applicable
  {
  }

  lemma Pair(trace: seq<Visit>, product: Option<nat>, destination: Option<string>, oracle: Oracle, i: nat)
    requires Explained(trace, product, destination, oracle) && i + 1 < |trace|
    ensures VisitOk(trace[i]) && NodeAnswered(trace[i], oracle(i)) && Linked(trace[i], trace[i + 1])
  {
  }

  /** Along a trace the stage never falls, and every work node before the end raises it. */
  lemma {:induction false} StagesRise(
      trace: seq<Visit>, product: Option<nat>, destination: Option<string>, oracle: Oracle, i: nat, j: nat)
    requires Explained(trace, product, destination, oracle) && i < j < |trace|
    ensures Index(trace[j].entry.stage)
            >= Index(trace[i].entry.stage)
               + (if trace[i].node == HitlInterrupt || trace[i].node == Finish then 0 else 1)
    decreases j
  {
    hide Explained, NodeAnswered, VisitOk, Linked;
    Pair(trace, product, destination, oracle, j - 1);
    PairEffect(trace[j - 1], trace[j], oracle(j - 1));
    if i < j - 1 {
      StagesRise(trace, product, destination, oracle, i, j - 1);
    }
  }

  /** No agent is visited twice. */
  lemma OnceOnly(
      trace: seq<Visit>, product: Option<nat>, destination: Option<string>, oracle: Oracle, i: nat, j: nat)
    requires Explained(trace, product, destination, oracle) && i < |trace| && j < |trace|
    ensures trace[i].node == trace[j].node && trace[i].node != HitlInterrupt && trace[i].node != Finish ==> i == j
  {
    hide NodeAnswered, Linked;
    assert VisitOk(trace[i]) && VisitOk(trace[j]);
    if i < j {
      StagesRise(trace, product, destination, oracle, i, j);
    } else if j < i {
      StagesRise(trace, product, destination, oracle, j, i);
    }
  }

  /** A stage that has been passed was passed by the agent of that stage. */
  lemma {:induction false} StagePassed(
      trace: seq<Visit>, product: Option<nat>, destination: Option<string>, oracle: Oracle, j: nat, k: nat)
      returns (i: nat)
    requires Explained(trace, product, destination, oracle) && j < |trace| && k < Index(trace[j].entry.stage)
    ensures i < j && trace[i].node == PLAN[k]
    decreases j
  {
    hide NodeAnswered, Linked;
    if j > 0 {
      Pair(trace, product, destination, oracle, j - 1);
      PairEffect(trace[j - 1], trace[j], oracle(j - 1));
      if k < Index(trace[j - 1].entry.stage) {
        i := StagePassed(trace, product, destination, oracle, j - 1, k);
      } else {
        i := j - 1;
      }
    }
  }

  /** The state every visit after the first is given: the suppliers the gateway found, and the regulations
      of the destination. */
  lemma {:induction false} StateKept(
      trace: seq<Visit>, product: Option<nat>, destination: Option<string>, oracle: Oracle, j: nat)
    requires Explained(trace, product, destination, oracle) && j < |trace|
    ensures trace[j].entry.product == product
    ensures trace[j].entry.applicable == Some(RegulationsFor(destination))
    ensures j > 0 ==> trace[j].node != DataGateway && trace[j].entry.supplierIds == SuppliersFound(product, oracle)
  {
    hide Linked;
    if j > 0 {
      StateKept(trace, product, destination, oracle, j - 1);
      Pair(trace, product, destination, oracle, j - 1);
      PairEffect(trace[j - 1], trace[j], oracle(j - 1));
      FirstVisit(trace, product, destination, oracle);
      StagesRise(trace, product, destination, oracle, 0, j);
      assert VisitOk(trace[j]);
    }
  }

  lemma FirstVisit(trace: seq<Visit>, product: Option<nat>, destination: Option<string>, oracle: Oracle)
    requires Explained(trace, product, destination, oracle) && trace != []
    ensures trace[0].node == DataGateway && trace[0].entry.stage == Queued && trace[0].entry.product == product
    ensures trace[0].exit == Some(RunGateway(trace[0].entry, oracle(0)))
    ensures !trace[0].entry.hitlRequired && trace[0].entry.errorReason.None?
    ensures |trace| > 1 ==> trace[1].entry.supplierIds == SuppliersFound(product, oracle)
  {
    assert VisitOk(trace[0]) && NodeAnswered(trace[0], oracle(0));
    if |trace| > 1 {
      assert Linked(trace[0], trace[1]);
    }
  }

  /** What compliance and the geo audit left is what every later visit is given. */
  lemma {:induction false} ResultsKept(
      trace: seq<Visit>, product: Option<nat>, destination: Option<string>, oracle: Oracle, i: nat, j: nat)
    requires Explained(trace, product, destination, oracle) && i < j < |trace|
    ensures trace[i].node == GeoAudit ==> trace[j].entry.geoRisk == Some(oracle(i).geoRisks > 0)
    ensures trace[i].node == ComplianceAgent ==>
              trace[i].exit.Some? && trace[j].entry.verdicts == trace[i].exit.value.verdicts
    decreases j
  {
    hide Explained, NodeAnswered, Linked;
    Pair(trace, product, destination, oracle, j - 1);
    PairEffect(trace[j - 1], trace[j], oracle(j - 1));
    if i < j - 1 {
      Pair(trace, product, destination, oracle, i);
      ResultsKept(trace, product, destination, oracle, i, j - 1);
      StagesRise(trace, product, destination, oracle, i, j - 1);
    }
  }

  /** The supplier ids the gateway leaves in the state. */
  function SuppliersFound(product: Option<nat>, oracle: Oracle): seq<nat> {
    if product.None? then [] else oracle(0).supplierIds
  }

  /** All reviews of the run were approved, and no judgement of the run lacked a verdict. */
  ghost predicate Unobstructed(trace: seq<Visit>, oracle: Oracle) {
    forall i: nat :: i < |trace| ==>
      && (trace[i].node == HitlInterrupt ==> oracle(i).approved)
      && (trace[i].node == ComplianceAgent && trace[i].entry.applicable.Some? ==>
            !LacksVerdict(trace[i].entry.applicable.value, oracle(i).evidence))
  }

  /**
   A run completes if and only if its product led to at least one supplier, every review was approved
   and every judgement had a verdict. No approval makes up for missing suppliers: risk scoring raises.
   */
  lemma {:induction false} CompletesIff(product: Option<nat>, destination: Option<string>, oracle: Oracle, n: nat)
    requires n >= 10
    ensures
      var c := Run(Initial(product, destination), oracle, n);
      c.phase == Done <==> SuppliersFound(product, oracle) != [] && Unobstructed(c.trace, oracle)
  {
    hide Run;
    var c := Run(Initial(product, destination), oracle, n);
    RunsEnd(product, destination, oracle, n);
    RunKeepsInvariant(product, destination, oracle, n);
    RunIsExplained(product, destination, oracle, n);
    if c.phase == Done {
      DoneIsUnobstructed(c, product, destination, oracle);
    } else {
      StoppedIsObstructed(c, product, destination, oracle);
    }
  }

  lemma AnsweredExit(v: Visit, a: Answers)
    requires VisitOk(v) && NodeAnswered(v, a)
    ensures v.exit.None? <==>
              || (v.node == HitlInterrupt && !a.approved)
              || (v.node == ComplianceAgent && LacksVerdict(v.entry.applicable.value, a.evidence))
              || (v.node == RiskScoring && v.entry.supplierIds == [])
  {
    NoneIsSkipped(v.entry.applicable.value, a.evidence);
    if v.entry.applicable.value == [] {
      assert !LacksVerdict(v.entry.applicable.value, a.evidence);
    }
  }

  lemma StoppedIsObstructed(c: Config, product: Option<nat>, destination: Option<string>, oracle: Oracle)
    requires Explained(c.trace, product, destination, oracle) && (c.phase == Held || c.phase == Raised) && EndOk(c)
    ensures SuppliersFound(product, oracle) == [] || !Unobstructed(c.trace, oracle)
  {
    hide NodeAnswered, Work, Linked;
    var last: nat := |c.trace| - 1;
    assert VisitOk(c.trace[last]) && NodeAnswered(c.trace[last], oracle(last));
    AnsweredExit(c.trace[last], oracle(last));
    StateKept(c.trace, product, destination, oracle, last);
    FirstVisit(c.trace, product, destination, oracle);
  }

  lemma DoneIsUnobstructed(c: Config, product: Option<nat>, destination: Option<string>, oracle: Oracle)
    requires Explained(c.trace, product, destination, oracle) && c.phase == Done && EndOk(c)
    ensures SuppliersFound(product, oracle) != [] && Unobstructed(c.trace, oracle)
  {
    hide NodeAnswered, Work;
    var trace := c.trace;
    forall i: nat | i < |trace| ensures VisitOk(trace[i]) && trace[i].exit.Some? && NodeAnswered(trace[i], oracle(i)) {
      if i + 1 < |trace| {
        assert Linked(trace[i], trace[i + 1]);
      }
    }
    forall i: nat | i < |trace|
      ensures trace[i].node == HitlInterrupt ==> oracle(i).approved
      ensures trace[i].node == ComplianceAgent ==> !LacksVerdict(trace[i].entry.applicable.value, oracle(i).evidence)
    {
      AnsweredExit(trace[i], oracle(i));
    }
    assert PLAN[3] in Work(trace);
    var i := VisitOf(trace, RiskScoring);
    AnsweredExit(trace[i], oracle(i));
    StateKept(trace, product, destination, oracle, i);
    FirstVisit(trace, product, destination, oracle);
  }

  lemma {:induction false} VisitOf(trace: seq<Visit>, node: Node) returns (i: nat)
    requires node in Work(trace)
    ensures i < |trace| && trace[i].node == node
  {
    if trace[|trace| - 1].node == node {
      i := |trace| - 1;
    } else {
      i := VisitOf(trace[..|trace| - 1], node);
    }
  }

  // ---- When a run pauses ----

  /** What makes a node call for a review. */
  ghost predicate Escalates(v: Visit, a: Answers) {
    match v.node
    case DataGateway =>
      || v.entry.product.None? || a.documents == []
      || exists d :: d in a.documents && (!d.confirmed || d.missing || exists c :: c in d.confidences && c < 0.85)
    case GeoAudit => a.geoRisks > 0
    case ComplianceAgent =>
      v.entry.applicable.Some? && exists r :: r in v.entry.applicable.value && AsksReview(r, a.evidence(r))
    case RiskScoring => a.escalated
    case FinalJudgment => false
    case HitlInterrupt => false
    case Finish => false
  }

  function ReasonOf(node: Node): Reason {
    if node == GeoAudit then GeographicalRisk else if node == RiskScoring then RiskEscalated else LowConfidence
  }

  lemma ReviewIff(applicable: seq<Regulation>, evidence: EvidenceMap)
    ensures AnyReview(applicable, evidence) <==> exists r :: r in applicable && AsksReview(r, evidence(r))
  {
    hide Judge, AsksReview;
    forall r | r in applicable ensures Judge(r, evidence(r)).needsReview <==> AsksReview(r, evidence(r)) {
      JudgeDecides(r, evidence(r));
    }
  }

  lemma ReasonIff(v: Visit, a: Answers)
    requires VisitOk(v) && NodeAnswered(v, a) && v.exit.Some?
    ensures v.exit.value.errorReason == if Escalates(v, a) then Some(ReasonOf(v.node)) else None
  {
    hide AnyReview, AsksReview;
    ReviewIff(v.entry.applicable.value, a.evidence);
    if v.entry.applicable.value == [] {
      assert !Escalates(v, a) || v.node != ComplianceAgent;
    }
  }

  /** Over every run, the interrupt follows a node exactly when that node's own inputs call for a review:
      the gate failed, a geographical risk was found, a judgement asked for review, the risk escalated;
      and it is given the reason of that node. */
  lemma {:induction false} PauseIff(product: Option<nat>, destination: Option<string>, oracle: Oracle, n: nat, i: nat)
    requires i + 1 < |Run(Initial(product, destination), oracle, n).trace|
    ensures
      var trace := Run(Initial(product, destination), oracle, n).trace;
      && (trace[i + 1].node == HitlInterrupt <==> Escalates(trace[i], oracle(i)))
      && (trace[i + 1].node == HitlInterrupt ==> trace[i + 1].entry.errorReason == Some(ReasonOf(trace[i].node)))
  {
    hide Run, RunNode, NodeAnswered, Escalates;
    RunIsExplained(product, destination, oracle, n);
    var trace := Run(Initial(product, destination), oracle, n).trace;
    assert VisitOk(trace[i + 1]);
    Pair(trace, product, destination, oracle, i);
    ReasonIff(trace[i], oracle(i));
  }

  predicate FlagFits(s: State) {
    s.hitlRequired <==> s.errorReason == Some(GeographicalRisk) || s.errorReason == Some(RiskEscalated)
  }

  lemma FlagStep(v: Visit, w: Visit, a: Answers)
    requires VisitOk(v) && NodeAnswered(v, a) && Linked(v, w) && FlagFits(v.entry)
    ensures FlagFits(w.entry)
  {
  }

  /** Over every run, hitl_required is set exactly while a geographical or risk escalation is pending: a
      failed gate or a doubtful judgement pauses the run without it. */
  lemma {:induction false} FlagMeansEscalation(
      product: Option<nat>, destination: Option<string>, oracle: Oracle, n: nat, i: nat)
    requires i < |Run(Initial(product, destination), oracle, n).trace|
    ensures
      var entry := Run(Initial(product, destination), oracle, n).trace[i].entry;
      entry.hitlRequired <==> entry.errorReason == Some(GeographicalRisk) || entry.errorReason == Some(RiskEscalated)
  {
    hide Run, NodeAnswered, FlagFits;
    RunIsExplained(product, destination, oracle, n);
    FlagKept(Run(Initial(product, destination), oracle, n).trace, product, destination, oracle, i);
    FlagMeans(Run(Initial(product, destination), oracle, n).trace[i].entry);
  }

  lemma FlagMeans(s: State)
    ensures FlagFits(s) <==>
              (s.hitlRequired <==> s.errorReason == Some(GeographicalRisk) || s.errorReason == Some(RiskEscalated))
  {
  }

  lemma {:induction false} FlagKept(
      trace: seq<Visit>, product: Option<nat>, destination: Option<string>, oracle: Oracle, j: nat)
    requires Explained(trace, product, destination, oracle) && j < |trace|
    ensures FlagFits(trace[j].entry)
  {
    hide NodeAnswered, Linked;
    FirstVisit(trace, product, destination, oracle);
    if j > 0 {
      FlagKept(trace, product, destination, oracle, j - 1);
      Pair(trace, product, destination, oracle, j - 1);
      FlagStep(trace[j - 1], trace[j], oracle(j - 1));
    }
  }

  // ---- Confidence ----

  /** What the gate measures: the least confidence of all documents, 0 without any. */
  function GateValue(product: Option<nat>, oracle: Oracle): real {
    if product.None? || oracle(0).documents == [] then 0.0 else ExtractionGate.Lowest(oracle(0).documents)
  }

  function Floored(c: real): real {
    if c >= 0.85 then c else 0.85
  }

  /** After the gate: the measured value until its review, and never less than 0.85 afterwards. */
  predicate ConfidenceFits(s: State, gate: real) {
    s.confidence == Some(if s.stage == Extraction && s.errorReason.Some? then gate else Floored(gate))
  }

  lemma ConfidenceStep(v: Visit, w: Visit, a: Answers, gate: real)
    requires VisitOk(v) && NodeAnswered(v, a) && Linked(v, w)
    requires v.entry.stage != Queued && ConfidenceFits(v.entry, gate)
    ensures ConfidenceFits(w.entry, gate)
  {
  }

  lemma GateFits(v: Visit, w: Visit, a: Answers)
    requires VisitOk(v) && NodeAnswered(v, a) && Linked(v, w) && v.node == DataGateway
    ensures ConfidenceFits(w.entry, if v.entry.product.None? || a.documents == [] then 0.0
                                    else ExtractionGate.Lowest(a.documents))
  {
    GateConfidence(v.entry, a);
  }

  lemma {:induction false} ConfidenceKept(
      trace: seq<Visit>, product: Option<nat>, destination: Option<string>, oracle: Oracle, j: nat)
    requires Explained(trace, product, destination, oracle) && 0 < j < |trace|
    ensures trace[j].entry.stage != Queued && ConfidenceFits(trace[j].entry, GateValue(product, oracle))
  {
    hide NodeAnswered, Linked, ConfidenceFits;
    Pair(trace, product, destination, oracle, j - 1);
    FirstVisit(trace, product, destination, oracle);
    StagesRise(trace, product, destination, oracle, 0, j);
    if j == 1 {
      GateFits(trace[0], trace[1], oracle(0));
    } else {
      ConfidenceKept(trace, product, destination, oracle, j - 1);
      ConfidenceStep(trace[j - 1], trace[j], oracle(j - 1), GateValue(product, oracle));
    }
  }

  /**
   Over every run: each work node after the gate starts with the confidence the gate measured, raised to
   0.85 where a reviewer let it through, and so does the stored final judgment. No later node lowers it
   and no later review raises it.
   */
  lemma {:induction false} ConfidenceFloor(product: Option<nat>, destination: Option<string>, oracle: Oracle,
                                           n: nat, i: nat)
    requires i < |Run(Initial(product, destination), oracle, n).trace|
    ensures
      var v := Run(Initial(product, destination), oracle, n).trace[i];
      var gate := GateValue(product, oracle);
      var confidence := Some(if gate >= 0.85 then gate else 0.85);
      && (v.node != HitlInterrupt && v.node != DataGateway ==> v.entry.confidence == confidence)
      && (v.node == FinalJudgment ==>
            v.exit.Some? && v.exit.value.final.Some? && v.exit.value.final.value.confidence == confidence)
  {
    hide Run;
    RunIsExplained(product, destination, oracle, n);
    var trace := Run(Initial(product, destination), oracle, n).trace;
    FirstVisit(trace, product, destination, oracle);
    assert VisitOk(trace[i]) && NodeAnswered(trace[i], oracle(i));
    if i > 0 {
      ConfidenceKept(trace, product, destination, oracle, i);
    }
  }

  // ---- The final judgment ----

  /** The compliance visit of a run stores a verdict for exactly the regulations of the destination, each
      the one its judge decides: what the LLM supports with a clause is what is stored. */
  lemma {:induction false} VerdictsAreDecided(
      product: Option<nat>, destination: Option<string>, oracle: Oracle, n: nat, i: nat, r: Regulation)
    requires
      var trace := Run(Initial(product, destination), oracle, n).trace;
      i < |trace| && trace[i].node == ComplianceAgent && trace[i].exit.Some?
    ensures
      var stored := Run(Initial(product, destination), oracle, n).trace[i].exit.value.verdicts;
      && stored.Some?
      && (r in stored.value <==> r in RegulationsFor(destination))
      && (r in stored.value ==> Decided(r, oracle(i).evidence(r)) == Some(stored.value[r]))
  {
    hide Run, RegulationsFor;
    RunIsExplained(product, destination, oracle, n);
    var trace := Run(Initial(product, destination), oracle, n).trace;
    StateKept(trace, product, destination, oracle, i);
    assert NodeAnswered(trace[i], oracle(i));
    DecidedVisit(trace[i], oracle(i), r);
  }

  lemma DecidedVisit(v: Visit, a: Answers, r: Regulation)
    requires NodeAnswered(v, a) && v.node == ComplianceAgent && v.exit.Some? && v.entry.applicable.Some?
    ensures v.exit.value.verdicts.Some?
    ensures r in v.exit.value.verdicts.value <==> r in v.entry.applicable.value
    ensures r in v.exit.value.verdicts.value ==>
              Decided(r, a.evidence(r)) == Some(v.exit.value.verdicts.value[r])
  {
    hide Judge, Decided;
    NoneIsSkipped(v.entry.applicable.value, a.evidence);
    JudgeDecides(r, a.evidence(r));
  }

  /** Some regulation of the batch ended with verdict v: one the judges decided, or a stored one when the
      destination has no regulations. */
  ghost predicate Found(
      destination: Option<string>, evidence: EvidenceMap, stored: map<Regulation, Verdict>, v: Verdict) {
    if RegulationsFor(destination) == [] then exists r :: r in stored && stored[r] == v
    else exists r :: r in RegulationsFor(destination) && Decided(r, evidence(r)) == Some(v)
  }

  ghost predicate Among(verdicts: map<Regulation, Verdict>, v: Verdict) {
    exists r :: r in verdicts && verdicts[r] == v
  }

  lemma FinalVisit(v: Visit, a: Answers)
    requires NodeAnswered(v, a) && v.node == FinalJudgment && v.entry.verdicts.Some? && v.entry.geoRisk.Some?
    ensures
      var verdicts := if v.entry.verdicts.value == map[] then a.storedVerdicts else v.entry.verdicts.value;
      && v.exit.Some? && v.exit.value.final.Some?
      && (v.exit.value.final.value.overall == Fail
          <==> a.riskScore >= 70 || Among(verdicts, Violation) || Among(verdicts, Reject))
      && (v.exit.value.final.value.overall == Conditional
          <==> && !(a.riskScore >= 70 || Among(verdicts, Violation) || Among(verdicts, Reject))
               && (a.riskScore >= 50 || v.entry.geoRisk.value || Among(verdicts, Warning)))
  {
    var verdicts := if v.entry.verdicts.value == map[] then a.storedVerdicts else v.entry.verdicts.value;
    RollUpDecides(verdicts, v.entry.geoRisk.value, a.riskScore);
  }

  lemma FoundIff(v: Visit, a: Answers, destination: Option<string>, stored: map<Regulation, Verdict>, u: Verdict)
    requires NodeAnswered(v, a) && v.node == ComplianceAgent && v.exit.Some?
    requires v.entry.applicable == Some(RegulationsFor(destination))
    ensures v.exit.value.verdicts.Some?
    ensures
      var verdicts := v.exit.value.verdicts.value;
      Among(if verdicts == map[] then stored else verdicts, u) <==> Found(destination, a.evidence, stored, u)
  {
    hide RegulationsFor, Decided, NodeAnswered;
    forall r
      ensures v.exit.value.verdicts.Some?
      ensures r in v.exit.value.verdicts.value <==> r in RegulationsFor(destination)
      ensures r in v.exit.value.verdicts.value ==>
                Decided(r, a.evidence(r)) == Some(v.exit.value.verdicts.value[r])
    {
      DecidedVisit(v, a, r);
    }
    DecidedVisit(v, a, Cbam);
    var regulations := RegulationsFor(destination);
    if regulations != [] {
      assert regulations[0] in v.exit.value.verdicts.value;
    } else {
      assert v.exit.value.verdicts.value == map[];
    }
  }

  /**
   The stored overall verdict of every run, from the answers alone: g and c are the run's only geo audit
   and compliance visits. Fail iff the risk score is 70 or more or some regulation ended in a violation or a
   rejection; conditional iff it is not fail and the score is 50 or more, a geographical risk was found, or
   some regulation ended in a warning.
   */
  lemma {:induction false} FinalFromAnswers(
      product: Option<nat>, destination: Option<string>, oracle: Oracle, n: nat, j: nat) returns (g: nat, c: nat)
    requires
      var trace := Run(Initial(product, destination), oracle, n).trace;
      j < |trace| && trace[j].node == FinalJudgment
    ensures
      var trace := Run(Initial(product, destination), oracle, n).trace;
      var found := (v: Verdict) => Found(destination, oracle(c).evidence, oracle(j).storedVerdicts, v);
      var failed := oracle(j).riskScore >= 70 || found(Violation) || found(Reject);
      && g < j && c < j
      && (forall i: nat :: i < |trace| ==> (trace[i].node == GeoAudit <==> i == g))
      && (forall i: nat :: i < |trace| ==> (trace[i].node == ComplianceAgent <==> i == c))
      && trace[j].exit.Some? && trace[j].exit.value.final.Some?
      && (trace[j].exit.value.final.value.overall == Fail <==> failed)
      && (trace[j].exit.value.final.value.overall == Conditional
          <==> !failed && (oracle(j).riskScore >= 50 || oracle(g).geoRisks > 0 || found(Warning)))
  {
    hide Run, RegulationsFor, Found, Among, NodeAnswered;
    RunIsExplained(product, destination, oracle, n);
    var trace := Run(Initial(product, destination), oracle, n).trace;
    assert VisitOk(trace[j]) && NodeAnswered(trace[j], oracle(j));
    g := StagePassed(trace, product, destination, oracle, j, 1);
    c := StagePassed(trace, product, destination, oracle, j, 2);
    ResultsKept(trace, product, destination, oracle, g, j);
    ResultsKept(trace, product, destination, oracle, c, j);
    StateKept(trace, product, destination, oracle, c);
    assert NodeAnswered(trace[c], oracle(c));
    forall i: nat | i < |trace| ensures trace[i].node == GeoAudit ==> i == g
                                ensures trace[i].node == ComplianceAgent ==> i == c
    {
      OnceOnly(trace, product, destination, oracle, i, g);
      OnceOnly(trace, product, destination, oracle, i, c);
    }
    var stored := oracle(j).storedVerdicts;
    FoundIff(trace[c], oracle(c), destination, stored, Violation);
    FoundIff(trace[c], oracle(c), destination, stored, Reject);
    FoundIff(trace[c], oracle(c), destination, stored, Warning);
    FinalVisit(trace[j], oracle(j));
  }

  // ---- Uncited judgements ----

  /** The compliance visit that rests on an uncited answer: a rejection and a pending review. */
  lemma UncitedVisit(v: Visit, a: Answers, r: Regulation)
    requires NodeAnswered(v, a) && v.node == ComplianceAgent && v.exit.Some? && v.entry.applicable.Some?
    requires r in v.entry.applicable.value && Uncited(r, a.evidence(r))
    ensures v.exit.value.errorReason == Some(LowConfidence)
    ensures v.exit.value.verdicts.Some? && r in v.exit.value.verdicts.value && v.exit.value.verdicts.value[r] == Reject
  {
    UncitedIsRejected(r, a.evidence(r));
    NoneIsSkipped(v.entry.applicable.value, a.evidence);
    assert AnyReview(v.entry.applicable.value, a.evidence);
  }

  lemma BreachFails(v: Visit, a: Answers, r: Regulation)
    requires NodeAnswered(v, a) && v.node == FinalJudgment && v.entry.verdicts.Some?
    requires r in v.entry.verdicts.value && v.entry.verdicts.value[r] == Reject
    ensures v.exit.Some? && v.exit.value.final.Some? && v.exit.value.final.value.overall == Fail
  {
    assert v.entry.verdicts.value != map[];
  }

  /**
   An answer without a cited clause can never pass: the compliance visit that used it leaves a pending
   review, the next node is the interrupt, and a final judgment, if the run gets there, is Fail whatever
   the geo audit and the risk score say.
   */
  lemma {:induction false} UncitedNeverPasses(
      product: Option<nat>, destination: Option<string>, oracle: Oracle, n: nat, i: nat, r: Regulation, j: nat)
    requires
      var trace := Run(Initial(product, destination), oracle, n).trace;
      && i < |trace| && trace[i].node == ComplianceAgent && trace[i].exit.Some?
      && r in RegulationsFor(destination) && Uncited(r, oracle(i).evidence(r))
    ensures
      var trace := Run(Initial(product, destination), oracle, n).trace;
      && trace[i].exit.value.errorReason == Some(LowConfidence)
      && (i + 1 < |trace| ==> trace[i + 1].node == HitlInterrupt)
      && (j < |trace| && trace[j].node == FinalJudgment ==>
            i < j && trace[j].exit.Some? && trace[j].exit.value.final.Some?
             && trace[j].exit.value.final.value.overall == Fail)
  {
    hide Run, NodeAnswered, RegulationsFor;
    RunIsExplained(product, destination, oracle, n);
    var trace := Run(Initial(product, destination), oracle, n).trace;
    StateKept(trace, product, destination, oracle, i);
    assert VisitOk(trace[i]) && NodeAnswered(trace[i], oracle(i));
    UncitedVisit(trace[i], oracle(i), r);
    if i + 1 < |trace| {
      assert Linked(trace[i], trace[i + 1]);
    }
    if j < |trace| && trace[j].node == FinalJudgment {
      assert VisitOk(trace[j]) && NodeAnswered(trace[j], oracle(j));
      if j <= i {
        StagesNotBefore(trace, product, destination, oracle, j, i);
      }
      ResultsKept(trace, product, destination, oracle, i, j);
      BreachFails(trace[j], oracle(j), r);
    }
  }

  lemma StagesNotBefore(
      trace: seq<Visit>, product: Option<nat>, destination: Option<string>, oracle: Oracle, i: nat, j: nat)
    requires Explained(trace, product, destination, oracle) && i <= j < |trace|
    ensures Index(trace[i].entry.stage) <= Index(trace[j].entry.stage)
  {
    if i < j {
      StagesRise(trace, product, destination, oracle, i, j);
    }
  }
}
