/** The judges of the compliance agent around an arbitrary LLM, and the roll-up of their verdicts. */
module Verdicts {
  import opened Common

  datatype Regulation =
    EuBattery | EuBatteryArt7 | EuBatteryArt47 | Eudr | Csddd | Cbam | ConflictMinerals | Crma | Uflpa

  /** REGULATION_BY_DESTINATION; a missing or unknown destination has no regulations. */
  function RegulationsFor(destination: Option<string>): seq<Regulation> {
    if destination == Some("EU") then
      [EuBattery, EuBatteryArt7, EuBatteryArt47, Eudr, Csddd, Cbam, ConflictMinerals, Crma]
    else if destination == Some("US") then [Uflpa, ConflictMinerals]
    else if destination == Some("BOTH") then
      [EuBattery, EuBatteryArt7, EuBatteryArt47, Eudr, Csddd, Cbam, ConflictMinerals, Crma, Uflpa]
    else []
  }

  /** The four verdicts of the vocabulary, or any other text an LLM may return. */
  datatype Verdict = Passed | Violation | Warning | Reject | Unlisted(text: string)

  /** A call that failed, or a JSON object with possibly missing keys. */
  datatype LlmOutcome =
    | LlmFailed
    | LlmAnswer(cited: seq<string>, verdict: Option<Verdict>, asksReview: bool)

  /** What the judges read: the LLM's answer, and the two database or extraction checks made before it. */
  datatype Evidence = Evidence(llm: LlmOutcome, carbonDeclared: bool, missingDeclarations: nat, recycledData: bool)

  /** verdict is None when the LLM's object has no such key. */
  datatype Judgement = Judgement(verdict: Option<Verdict>, needsReview: bool, cited: seq<string>)

  const REJECTED := Judgement(Some(Reject), true, [])

  /** _validate_cited_clauses. */
  function ValidateCited(cited: seq<string>, verdict: Option<Verdict>, asksReview: bool): Judgement {
    if cited == [] then Judgement(Some(Reject), true, []) else Judgement(verdict, asksReview, cited)
  }

  function JudgeByLlm(llm: LlmOutcome): Judgement {
    match llm
    case LlmFailed => REJECTED
    case LlmAnswer(cited, verdict, asksReview) => ValidateCited(cited, verdict, asksReview)
  }

  predicate IsStub(r: Regulation) {
    r.Cbam? || r.ConflictMinerals? || r.Crma?
  }

  /** REGULATION_JUDGES applied to one regulation code. */
  function Judge(r: Regulation, e: Evidence): Judgement {
    match r
    case Cbam => Judgement(Some(Passed), false, ["out of scope"])
    case ConflictMinerals => Judgement(Some(Passed), false, ["out of scope"])
    case Crma => Judgement(Some(Passed), false, ["out of scope"])
    case EuBatteryArt7 =>
      if !e.carbonDeclared then REJECTED
      else
        var j := JudgeByLlm(e.llm);
        if e.llm.LlmAnswer? && e.missingDeclarations > 0 then j.(needsReview := true) else j
    case EuBattery => if !e.recycledData then REJECTED else JudgeByLlm(e.llm)
    case EuBatteryArt47 => JudgeByLlm(e.llm)
    case Eudr => JudgeByLlm(e.llm)
    case Csddd => JudgeByLlm(e.llm)
    case Uflpa => JudgeByLlm(e.llm)
  }

  /** A regulation judged without a single clause behind it: no clause cited, or no usable answer. */
  predicate Uncited(r: Regulation, e: Evidence) {
    !IsStub(r) && (e.llm.LlmFailed? || e.llm.cited == [])
  }

  /** Whatever the LLM says, an uncited judgement is a rejection that asks for review. */
  lemma UncitedIsRejected(r: Regulation, e: Evidence)
    requires Uncited(r, e)
    ensures Judge(r, e).verdict == Some(Reject) && Judge(r, e).needsReview
  {
  }

  /** The data checks of two judges come before the LLM: no carbon declaration, no recycled content. */
  predicate LacksData(r: Regulation, e: Evidence) {
    (r.EuBatteryArt7? && !e.carbonDeclared) || (r.EuBattery? && !e.recycledData)
  }

  /** The LLM was asked, answered, and cited a clause. */
  predicate Supported(r: Regulation, e: Evidence) {
    !LacksData(r, e) && e.llm.LlmAnswer? && e.llm.cited != []
  }

  predicate OutOfScope(r: Regulation) {
    r == Cbam || r == ConflictMinerals || r == Crma
  }

  /** What calls for a human review: no support, the LLM's own wish, or a factory without declaration. */
  predicate AsksReview(r: Regulation, e: Evidence) {
    && !OutOfScope(r)
    && (!Supported(r, e) || e.llm.asksReview || (r == EuBatteryArt7 && e.missingDeclarations > 0))
  }

  /** The verdict a judgement ends with, as the regulation's judge is described. */
  function Decided(r: Regulation, e: Evidence): Option<Verdict> {
    if OutOfScope(r) then Some(Passed) else if Supported(r, e) then e.llm.verdict else Some(Reject)
  }

  /**
   What each judge decides. The three regulations out of scope pass. Any other judgement without data,
   without an answer or without a clause is a rejection; a cited answer keeps the LLM's verdict, missing
   or not.
   */
  lemma JudgeDecides(r: Regulation, e: Evidence)
    ensures Judge(r, e).verdict == Decided(r, e)
    ensures Judge(r, e).needsReview <==> AsksReview(r, e)
  {
  }

  /** A judgement passes iff its regulation is out of scope or the LLM passed it with a clause and the data
      were there; the only judgements without a clause are rejections under review. */
  lemma PassedIsCited(r: Regulation, e: Evidence)
    ensures Judge(r, e).cited == [] ==> Judge(r, e).verdict == Some(Reject) && Judge(r, e).needsReview
    ensures Judge(r, e).verdict == Some(Passed) ==> Judge(r, e).cited != []
    ensures Judge(r, e).verdict == Some(Passed)
            <==> OutOfScope(r) || (Supported(r, e) && e.llm.verdict == Some(Passed))
  {
  }

  /** No regulation is judged twice. */
  lemma RegulationsOnce(destination: Option<string>)
    ensures Distinct(RegulationsFor(destination))
  {
  }

  /** Which regulations a destination brings: all but UFLPA for EU, two for US, all of them for
      BOTH, none for any other destination, and never one twice. */
  lemma RegulationsOfDestination(destination: Option<string>, r: Regulation)
    ensures Distinct(RegulationsFor(destination))
    ensures destination == Some("EU") ==> (r in RegulationsFor(destination) <==> !r.Uflpa?)
    ensures destination == Some("US") ==> (r in RegulationsFor(destination) <==> r.Uflpa? || r.ConflictMinerals?)
    ensures destination == Some("BOTH") ==> r in RegulationsFor(destination)
    ensures destination !in {Some("EU"), Some("US"), Some("BOTH")} ==> RegulationsFor(destination) == []
  {
    hide Distinct;
    RegulationsOnce(destination);
    assert "EU"[0] != "US"[0] && |"EU"| != |"BOTH"| && |"US"| != |"BOTH"|;
    var eu := [EuBattery, EuBatteryArt7, EuBatteryArt47, Eudr, Csddd, Cbam, ConflictMinerals, Crma];
    assert eu[0] == EuBattery && eu[1] == EuBatteryArt7 && eu[2] == EuBatteryArt47 && eu[3] == Eudr;
    assert eu[4] == Csddd && eu[5] == Cbam && eu[6] == ConflictMinerals && eu[7] == Crma;
    assert RegulationsFor(Some("BOTH")) == eu + [Uflpa];
  }

  type EvidenceMap = Regulation -> Evidence

  /** The verdict dict the compliance node builds; None when some judgement lacks a verdict (KeyError). */
  function VerdictsOf(applicable: seq<Regulation>, evidence: EvidenceMap): Option<map<Regulation, Verdict>> {
    if applicable == [] then Some(map[])
    else
      var last := applicable[|applicable| - 1];
      var before := VerdictsOf(applicable[..|applicable| - 1], evidence);
      var j := Judge(last, evidence(last));
      if before.None? || j.verdict.None? then None
      else Some(before.value[last := j.verdict.value])
  }

  predicate AnyReview(applicable: seq<Regulation>, evidence: EvidenceMap) {
    exists r :: r in applicable && Judge(r, evidence(r)).needsReview
  }

  predicate LacksVerdict(applicable: seq<Regulation>, evidence: EvidenceMap) {
    exists r :: r in applicable && Judge(r, evidence(r)).verdict.None?
  }

  /** The loop of compliance_node: one judge after the other, stopping at a missing verdict. */
  method JudgeAll(applicable: seq<Regulation>, evidence: EvidenceMap)
      returns (verdicts: Option<map<Regulation, Verdict>>, review: bool)
    ensures verdicts == VerdictsOf(applicable, evidence)
    ensures verdicts.Some? ==> review == AnyReview(applicable, evidence)
  {
    var found: map<Regulation, Verdict> := map[];
    review := false;
    var i := 0;
    while i < |applicable|
      invariant i <= |applicable|
      invariant VerdictsOf(applicable[..i], evidence) == Some(found)
      invariant review == AnyReview(applicable[..i], evidence)
    {
      var r := applicable[i];
      var j := Judge(r, evidence(r));
      assert applicable[..i + 1] == applicable[..i] + [r];
      assert applicable[..i + 1][..i] == applicable[..i];
      if j.verdict.None? {
        NoneForGood(applicable, evidence, i + 1);
        return None, review;
      }
      found := found[r := j.verdict.value];
      review := review || j.needsReview;
      i := i + 1;
    }
    assert applicable[..i] == applicable;
    verdicts := Some(found);
  }

  lemma {:induction false} NoneForGood(applicable: seq<Regulation>, evidence: EvidenceMap, n: nat)
    requires n <= |applicable| && VerdictsOf(applicable[..n], evidence) == None
    ensures VerdictsOf(applicable, evidence) == None
    decreases |applicable|
  {
    if n == |applicable| {
      assert applicable[..n] == applicable;
    } else {
      var front := applicable[..|applicable| - 1];
      assert front[..n] == applicable[..n];
      NoneForGood(front, evidence, n);
    }
  }

  /** Every applicable regulation gets the verdict of its judge: none is skipped, none overwritten. */
  lemma {:induction false} NoneIsSkipped(applicable: seq<Regulation>, evidence: EvidenceMap)
    ensures VerdictsOf(applicable, evidence).None? <==> LacksVerdict(applicable, evidence)
    ensures VerdictsOf(applicable, evidence).Some? ==>
              var m := VerdictsOf(applicable, evidence).value;
              && (forall r :: r in m <==> r in applicable)
              && (forall r :: r in m ==> Judge(r, evidence(r)).verdict == Some(m[r]))
  {
    if applicable != [] {
      var front, last := applicable[..|applicable| - 1], applicable[|applicable| - 1];
      assert applicable == front + [last];
      NoneIsSkipped(front, evidence);
    }
  }

  // ---- Roll-up ----

  datatype RiskLevel = Low | Medium | High | Critical

  /** calculate_risk_level. */
  function LevelOf(score: int): RiskLevel {
    if score >= 70 then Critical else if score >= 50 then High else if score >= 30 then Medium else Low
  }

  /** The documented ranges: 70 and more, 50 to 69, 30 to 49, below 30. */
  lemma LevelRanges(score: int)
    ensures LevelOf(score) == Critical <==> 70 <= score
    ensures LevelOf(score) == High <==> 50 <= score <= 69
    ensures LevelOf(score) == Medium <==> 30 <= score <= 49
    ensures LevelOf(score) == Low <==> score <= 29
  {
  }

  datatype Overall = Fail | Conditional | Pass

  predicate IsBreach(v: Verdict) {
    v.Violation? || v.Reject?
  }

  predicate IsWarning(v: Verdict) {
    v.Warning?
  }

  predicate IsPassed(v: Verdict) {
    v.Passed?
  }

  function RollUp(verdicts: map<Regulation, Verdict>, geoRisk: bool, level: RiskLevel): Overall {
    if (exists r :: r in verdicts && IsBreach(verdicts[r])) || level == Critical then Fail
    else if (exists r :: r in verdicts && IsWarning(verdicts[r])) || geoRisk || level == High then Conditional
    else Pass
  }

  datatype Metrics = Metrics(violation: nat, warning: nat, passed: nat)

  function OfKind(verdicts: map<Regulation, Verdict>, kind: Verdict -> bool): set<Regulation> {
    set r | r in verdicts && kind(verdicts[r])
  }

  /** How many of the verdicts are of a kind. */
  function Tally(verdicts: map<Regulation, Verdict>, kind: Verdict -> bool): nat {
    |OfKind(verdicts, kind)|
  }

  function BuildMetrics(verdicts: map<Regulation, Verdict>, geoRisk: bool, level: RiskLevel): Metrics {
    Metrics(
      Tally(verdicts, IsBreach),
      Tally(verdicts, IsWarning) + (if geoRisk then 1 else 0) + (if level == High then 1 else 0),
      Tally(verdicts, IsPassed))
  }

  lemma TallyPositiveIff(verdicts: map<Regulation, Verdict>, kind: Verdict -> bool)
    ensures Tally(verdicts, kind) > 0 <==> exists r :: r in verdicts && kind(verdicts[r])
  {
    if r :| r in verdicts && kind(verdicts[r]) {
      assert r in OfKind(verdicts, kind);
    }
    if OfKind(verdicts, kind) != {} {
      var r :| r in OfKind(verdicts, kind);
    }
  }

  lemma TallyGrows(verdicts: map<Regulation, Verdict>, kind: Verdict -> bool, r: Regulation, v: Verdict)
    requires r !in verdicts
    ensures Tally(map[], kind) == 0
    ensures Tally(verdicts[r := v], kind) == Tally(verdicts, kind) + (if kind(v) then 1 else 0)
  {
    assert OfKind(map[], kind) == {};
    if kind(v) {
      assert OfKind(verdicts[r := v], kind) == OfKind(verdicts, kind) + {r};
    } else {
      assert OfKind(verdicts[r := v], kind) == OfKind(verdicts, kind);
    }
  }

  /** The overall verdict of a batch with risk score `score`: the thresholds are 70 for fail and 50 for
      conditional. */
  lemma RollUpDecides(verdicts: map<Regulation, Verdict>, geoRisk: bool, score: int)
    ensures RollUp(verdicts, geoRisk, LevelOf(score)) == Fail
            <==> score >= 70 || exists r :: r in verdicts && (verdicts[r] == Violation || verdicts[r] == Reject)
    ensures RollUp(verdicts, geoRisk, LevelOf(score)) == Conditional
            <==> && score < 70
                 && (forall r :: r in verdicts ==> verdicts[r] != Violation && verdicts[r] != Reject)
                 && (score >= 50 || geoRisk || exists r :: r in verdicts && verdicts[r] == Warning)
  {
  }

  /** Each verdict counts once in the metrics, by its kind, and one geo risk and one high level count as
      warnings. */
  lemma MetricsCount(verdicts: map<Regulation, Verdict>, geoRisk: bool, level: RiskLevel, r: Regulation, v: Verdict)
    requires r !in verdicts
    ensures BuildMetrics(map[], geoRisk, level)
            == Metrics(0, (if geoRisk then 1 else 0) + (if level == High then 1 else 0), 0)
    ensures
      var m := BuildMetrics(verdicts, geoRisk, level);
      BuildMetrics(verdicts[r := v], geoRisk, level)
      == match v
         case Violation => m.(violation := m.violation + 1)
         case Reject => m.(violation := m.violation + 1)
         case Warning => m.(warning := m.warning + 1)
         case Passed => m.(passed := m.passed + 1)
         case Unlisted(_) => m
  {
    hide Tally;
    TallyGrows(verdicts, IsBreach, r, v);
    TallyGrows(verdicts, IsWarning, r, v);
    TallyGrows(verdicts, IsPassed, r, v);
  }

  /** The verdict and the figures shown next to it are computed separately; they always agree. */
  lemma RollUpAgreesWithMetrics(verdicts: map<Regulation, Verdict>, geoRisk: bool, level: RiskLevel)
    ensures
      var m := BuildMetrics(verdicts, geoRisk, level);
      && (RollUp(verdicts, geoRisk, level) == Fail <==> m.violation > 0 || level == Critical)
      && (RollUp(verdicts, geoRisk, level) == Conditional
          <==> m.violation == 0 && level != Critical && m.warning > 0)
      && m.violation + m.passed <= |verdicts|
  {
    hide Tally;
    TallyPositiveIff(verdicts, IsBreach);
    TallyPositiveIff(verdicts, IsWarning);
    BreachesAndPasses(verdicts);
  }

  lemma BreachesAndPasses(verdicts: map<Regulation, Verdict>)
    ensures Tally(verdicts, IsBreach) + Tally(verdicts, IsPassed) <= |verdicts|
  {
    var breaches, passes := OfKind(verdicts, IsBreach), OfKind(verdicts, IsPassed);
    assert breaches !! passes;
    assert |breaches + passes| == |breaches| + |passes|;
    SubsetSize(breaches + passes, verdicts.Keys);
  }
}
