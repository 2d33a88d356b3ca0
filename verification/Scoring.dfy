/** Scoring a submission against a task: one verdict per grader, counters and a mean. */
module Scoring {
  import opened Wrappers
  import opened Submissions
  import opened Sequences

  datatype Threshold = Threshold(minScore: Option<real>, maxErrors: Option<int>)

  const NO_THRESHOLD := Threshold(None, None)

  datatype Task = Task(taskId: string, graders: seq<string>, thresholds: map<string, Threshold>)

  datatype Verdict = Skipped | Passed(score: real) | Failed

  /** One row of the report; a skipped grader counts as passed here. */
  datatype GraderResult = GraderResult(graderId: string, status: string, score: real, passed: bool)

  datatype ScoreReport = ScoreReport(
    taskId: string, toolName: string, toolVersion: string, overall: string, results: seq<GraderResult>,
    mean: real, skipped: nat, failed: nat, passed: nat, canonicalHash: string)

  function Errors(e: Evidence): int {
    if "errors" in e.details then e.details["errors"] else 0
  }

  /** Whether evidence that is neither skipped nor failed meets the threshold; a minimum score
      takes precedence over a maximum number of errors. */
  predicate MeetsThreshold(e: Evidence, t: Threshold) {
    if t.minScore.Some? then e.score >= t.minScore.value
    else if t.maxErrors.Some? then Errors(e) <= t.maxErrors.value
    else e.status == "passed"
  }

  function ScoreEvidence(e: Evidence, t: Threshold): Verdict {
    if e.status == "skipped" then Skipped
    else if e.status == "failed" || !MeetsThreshold(e, t) then Failed
    else Passed(e.score)
  }

  function ThresholdOf(task: Task, grader: string): Threshold {
    if grader in task.thresholds then task.thresholds[grader] else NO_THRESHOLD
  }

  /** Missing evidence is an implicit skip. */
  function VerdictOf(evidence: seq<Evidence>, task: Task, grader: string): Verdict {
    match Lookup(evidence, grader)
    case None => Skipped
    case Some(e) => ScoreEvidence(e, ThresholdOf(task, grader))
  }

  /** The row of a grader: what its last piece of evidence says, and whether that is a failure. */
  function ResultOf(evidence: seq<Evidence>, task: Task, grader: string): GraderResult {
    var found := Lookup(evidence, grader);
    GraderResult(grader, StatusOf(evidence, grader), if found.Some? then found.value.score else 0.0,
                 !VerdictOf(evidence, task, grader).Failed?)
  }

  // ---- Specification ----

  function CountFailed(evidence: seq<Evidence>, task: Task, graders: seq<string>): nat {
    if graders == [] then 0
    else CountFailed(evidence, task, graders[..|graders| - 1])
         + (if VerdictOf(evidence, task, graders[|graders| - 1]).Failed? then 1 else 0)
  }

  function CountSkipped(evidence: seq<Evidence>, task: Task, graders: seq<string>): nat {
    if graders == [] then 0
    else CountSkipped(evidence, task, graders[..|graders| - 1])
         + (if VerdictOf(evidence, task, graders[|graders| - 1]).Skipped? then 1 else 0)
  }

  /** The scores of the passing graders, in order. */
  function Scores(evidence: seq<Evidence>, task: Task, graders: seq<string>): seq<real> {
    if graders == [] then []
    else
      var v := VerdictOf(evidence, task, graders[|graders| - 1]);
      Scores(evidence, task, graders[..|graders| - 1]) + (if v.Passed? then [v.score] else [])
  }

  function Sum(xs: seq<real>): real {
    if xs == [] then 0.0 else Sum(xs[..|xs| - 1]) + xs[|xs| - 1]
  }

  function Mean(xs: seq<real>): real {
    if xs == [] then 0.0 else Sum(xs) / |xs| as real
  }

  lemma CountStep(evidence: seq<Evidence>, task: Task, graders: seq<string>, i: nat)
    requires i < |graders|
    ensures var v := VerdictOf(evidence, task, graders[i]);
            && CountFailed(evidence, task, graders[..i + 1])
               == CountFailed(evidence, task, graders[..i]) + (if v.Failed? then 1 else 0)
            && CountSkipped(evidence, task, graders[..i + 1])
               == CountSkipped(evidence, task, graders[..i]) + (if v.Skipped? then 1 else 0)
            && Scores(evidence, task, graders[..i + 1])
               == Scores(evidence, task, graders[..i]) + (if v.Passed? then [v.score] else [])
  {
    assert graders[..i + 1][..i] == graders[..i];
  }

  lemma SumStep(xs: seq<real>, x: real)
    ensures Sum(xs + [x]) == Sum(xs) + x
  {
  }

  lemma {:induction false} LookupId(evidence: seq<Evidence>, id: string)
    ensures Lookup(evidence, id).Some? ==> Lookup(evidence, id).value.graderId == id
  {
    if evidence != [] { LookupId(evidence[..|evidence| - 1], id); }
  }

  /** Evidence standing in for a grader that has none. */
  function Absent(grader: string): Evidence {
    Evidence(grader, "skipped", 0.0, "no evidence provided", "", 0.0, "", map[])
  }

  /** The counters and lists of the loop after the graders in `done`. */
  datatype Tally = Tally(
    results: seq<GraderResult>, scores: seq<real>, total: real, passed: nat, failed: nat, skipped: nat)
  {
    ghost predicate HasRows(evidence: seq<Evidence>, task: Task, done: seq<string>) {
      |results| == |done| && forall k | 0 <= k < |done| :: results[k] == ResultOf(evidence, task, done[k])
    }

    ghost predicate Matches(evidence: seq<Evidence>, task: Task, done: seq<string>) {
      && passed + failed + skipped == |done|
      && failed == CountFailed(evidence, task, done)
      && skipped == CountSkipped(evidence, task, done)
      && scores == Scores(evidence, task, done) && passed == |scores| && total == Sum(scores)
    }
  }

  /** One more verdict, counted. */
  function Count(t: Tally, v: Verdict): Tally {
    match v
    case Skipped => t.(skipped := t.skipped + 1)
    case Passed(score) => t.(passed := t.passed + 1, scores := t.scores + [score], total := t.total + score)
    case Failed => t.(failed := t.failed + 1)
  }

  function CountRow(t: Tally, result: GraderResult, v: Verdict): Tally {
    Count(t, v).(results := t.results + [result])
  }

  lemma CountMatches(evidence: seq<Evidence>, task: Task, graders: seq<string>, i: nat, t: Tally, result: GraderResult)
    requires i < |graders| && t.Matches(evidence, task, graders[..i])
    ensures CountRow(t, result, VerdictOf(evidence, task, graders[i])).Matches(evidence, task, graders[..i + 1])
  {
    CountStep(evidence, task, graders, i);
    var v := VerdictOf(evidence, task, graders[i]);
    if v.Passed? { SumStep(t.scores, v.score); }
  }

  lemma RowAdded(evidence: seq<Evidence>, task: Task, graders: seq<string>, i: nat, t: Tally, v: Verdict)
    requires i < |graders| && t.HasRows(evidence, task, graders[..i])
    ensures CountRow(t, ResultOf(evidence, task, graders[i]), v).HasRows(evidence, task, graders[..i + 1])
  {
    assert forall k | 0 <= k < i :: graders[..i + 1][k] == graders[..i][k];
  }

  method CountGraders(evidence: seq<Evidence>, task: Task) returns (t: Tally)
    ensures t.Matches(evidence, task, task.graders) && t.HasRows(evidence, task, task.graders)
  {
    t := Tally([], [], 0.0, 0, 0, 0);
    var graders := task.graders;
    for i := 0 to |graders|
      invariant t.Matches(evidence, task, graders[..i])
      invariant t.HasRows(evidence, task, graders[..i])
    {
      CountMatches(evidence, task, graders, i, t, ResultOf(evidence, task, graders[i]));
      RowAdded(evidence, task, graders, i, t, VerdictOf(evidence, task, graders[i]));
      t := CountGrader(evidence, task, graders[i], t);
    }
    assert graders[..|graders|] == graders;
  }

  method CountGrader(evidence: seq<Evidence>, task: Task, grader: string, t: Tally) returns (u: Tally)
    ensures u == CountRow(t, ResultOf(evidence, task, grader), VerdictOf(evidence, task, grader))
  {
    var result, e := ScoreGrader(evidence, task, grader);
    u := t.(results := t.results + [result]);
    if result.status == "skipped" {
      u := u.(skipped := t.skipped + 1);
    } else if result.passed {
      u := u.(passed := t.passed + 1, scores := t.scores + [e.score], total := t.total + e.score);
    } else {
      u := u.(failed := t.failed + 1);
    }
  }

  method ScoreSubmission(s: Submission, task: Task, round6: real -> real, hash: CanonicalForm -> string)
    returns (r: ScoreReport)
    ensures r.passed + r.failed + r.skipped == |r.results| == |task.graders|
    ensures forall i | 0 <= i < |r.results| :: r.results[i] == ResultOf(s.evidence, task, task.graders[i])
    ensures r.failed == CountFailed(s.evidence, task, task.graders)
    ensures r.skipped == CountSkipped(s.evidence, task, task.graders)
    ensures r.passed == |Scores(s.evidence, task, task.graders)|
    ensures r.mean == Mean(Scores(s.evidence, task, task.graders))
    ensures r.overall
            == if r.failed > 0 then "failed" else if r.skipped > 0 && r.passed == 0 then "partial" else "passed"
    ensures (r.taskId, r.toolName, r.toolVersion) == (task.taskId, s.toolName, s.toolVersion)
    ensures r.canonicalHash == if s.canonicalHash != "" then s.canonicalHash else hash(Canonical(round6, s))
  {
    var t := CountGraders(s.evidence, task);
    var mean := if t.scores == [] then 0.0 else t.total / |t.scores| as real;
    var overall := if t.failed > 0 then "failed" else if t.skipped > 0 && t.passed == 0 then "partial" else "passed";
    var canonicalHash := if s.canonicalHash != "" then s.canonicalHash else hash(Canonical(round6, s));
    r := ScoreReport(
      task.taskId, s.toolName, s.toolVersion, overall, t.results, mean, t.skipped, t.failed, t.passed, canonicalHash);
  }

  /** One pass of the loop up to the counters: the evidence used, and its row. */
  method ScoreGrader(evidence: seq<Evidence>, task: Task, grader: string) returns (result: GraderResult, e: Evidence)
    ensures result == ResultOf(evidence, task, grader)
    ensures var v := VerdictOf(evidence, task, grader);
            && (v.Skipped? <==> result.status == "skipped")
            && (v.Failed? <==> !result.passed)
            && (v.Passed? ==> v.score == e.score)
  {
    LookupId(evidence, grader);
    var found := Lookup(evidence, grader);
    e := if found.Some? then found.value else Absent(grader);
    var threshold := ThresholdOf(task, grader);
    var passed;
    if e.status == "skipped" {
      passed := true;
    } else if e.status == "failed" {
      passed := false;
    } else if threshold.minScore.Some? {
      passed := e.score >= threshold.minScore.value;
    } else if threshold.maxErrors.Some? {
      passed := Errors(e) <= threshold.maxErrors.value;
    } else {
      passed := e.status == "passed";
    }
    result := GraderResult(e.graderId, e.status, e.score, passed);
  }

  // ---- Verdicts, spelled out ----

  /** A passing status meets the minimum score if there is one, else the error limit if there is one, where
      no error count means none; without a threshold the status itself must be "passed". */
  ghost predicate Met(e: Evidence, t: Threshold) {
    && (t.minScore.Some? ==> e.score >= t.minScore.value)
    && (t.minScore.None? && t.maxErrors.Some? && "errors" in e.details ==> e.details["errors"] <= t.maxErrors.value)
    && (t.minScore.None? && t.maxErrors.Some? && "errors" !in e.details ==> 0 <= t.maxErrors.value)
    && (t.minScore.None? && t.maxErrors.None? ==> e.status == "passed")
  }

  /** The verdict on the last piece of evidence of a grader; without any it is a skip. */
  lemma VerdictExactly(evidence: seq<Evidence>, task: Task, g: string, i: int)
    ensures (forall k | 0 <= k < |evidence| :: evidence[k].graderId != g) ==> VerdictOf(evidence, task, g) == Skipped
    ensures LastAt(evidence, g, i) ==>
              var e, t := evidence[i], if g in task.thresholds then task.thresholds[g] else Threshold(None, None);
              && (VerdictOf(evidence, task, g) == Skipped <==> e.status == "skipped")
              && (VerdictOf(evidence, task, g) == Failed
                  <==> e.status == "failed" || (e.status != "skipped" && !Met(e, t)))
              && (VerdictOf(evidence, task, g).Passed?
                  ==> VerdictOf(evidence, task, g) == Passed(e.score))
  {
    LookupExactly(evidence, g);
    StatusesDiffer();
  }

  lemma StatusesDiffer()
    ensures "skipped" != "failed"
  {
    assert "skipped"[0] != "failed"[0];
  }

  /** What a row of the report says. */
  lemma RowExactly(evidence: seq<Evidence>, task: Task, g: string, i: int)
    ensures var r := ResultOf(evidence, task, g);
            && r.graderId == g && (r.passed <==> VerdictOf(evidence, task, g) != Failed)
            && (LastAt(evidence, g, i) ==> r.status == evidence[i].status && r.score == evidence[i].score)
            && ((forall k | 0 <= k < |evidence| :: evidence[k].graderId != g)
               ==> r.status == "skipped" && r.score == 0.0)
  {
    LookupExactly(evidence, g);
  }

  // ---- Counts, spelled out ----

  lemma {:induction false} FailedExactly(evidence: seq<Evidence>, task: Task, graders: seq<string>, n: nat)
    requires n <= |graders|
    ensures CountFailed(evidence, task, graders[..n])
            == |Where(g => VerdictOf(evidence, task, g) == Failed, graders, n)|
  {
    if n > 0 {
      FailedExactly(evidence, task, graders, n - 1);
      CountStep(evidence, task, graders, n - 1);
      WhereStep(g => VerdictOf(evidence, task, g) == Failed, graders, n - 1);
    }
  }

  lemma {:induction false} SkippedExactly(evidence: seq<Evidence>, task: Task, graders: seq<string>, n: nat)
    requires n <= |graders|
    ensures CountSkipped(evidence, task, graders[..n])
            == |Where(g => VerdictOf(evidence, task, g) == Skipped, graders, n)|
  {
    if n > 0 {
      SkippedExactly(evidence, task, graders, n - 1);
      CountStep(evidence, task, graders, n - 1);
      WhereStep(g => VerdictOf(evidence, task, g) == Skipped, graders, n - 1);
    }
  }

  /** Each count is the number of graders with that verdict. */
  lemma CountsExactly(evidence: seq<Evidence>, task: Task, graders: seq<string>)
    ensures CountFailed(evidence, task, graders)
            == |Where(g => VerdictOf(evidence, task, g) == Failed, graders, |graders|)|
    ensures CountSkipped(evidence, task, graders)
            == |Where(g => VerdictOf(evidence, task, g) == Skipped, graders, |graders|)|
  {
    FailedExactly(evidence, task, graders, |graders|);
    SkippedExactly(evidence, task, graders, |graders|);
    assert graders[..|graders|] == graders;
  }

  function ScoreOf(v: Verdict): seq<real> {
    if v.Passed? then [v.score] else []
  }

  lemma ScoresAppend(evidence: seq<Evidence>, task: Task, init: seq<string>, g: string)
    ensures Scores(evidence, task, init + [g]) == Scores(evidence, task, init) + ScoreOf(VerdictOf(evidence, task, g))
  {
    assert (init + [g])[..|init|] == init;
  }

  /** The scores are those of the passing graders, in the order of the graders. */
  lemma {:induction false} ScoresExactly(evidence: seq<Evidence>, task: Task, a: seq<string>, b: seq<string>)
    ensures Scores(evidence, task, a + b) == Scores(evidence, task, a) + Scores(evidence, task, b)
    ensures forall g: string :: Scores(evidence, task, [g]) == ScoreOf(VerdictOf(evidence, task, g))
  {
    forall g: string ensures Scores(evidence, task, [g]) == ScoreOf(VerdictOf(evidence, task, g)) {
      ScoresAppend(evidence, task, [], g);
      assert [] + [g] == [g];
    }
    if b == [] {
      assert a + b == a;
      assert Scores(evidence, task, a) + [] == Scores(evidence, task, a);
    } else {
      var init, g := b[..|b| - 1], b[|b| - 1];
      assert b == init + [g];
      Associative(a, init, [g]);
      ScoresExactly(evidence, task, a, init);
      ScoresAppend(evidence, task, a + init, g);
      ScoresAppend(evidence, task, init, g);
      Associative(Scores(evidence, task, a), Scores(evidence, task, init), ScoreOf(VerdictOf(evidence, task, g)));
    }
  }

  // ---- The mean ----

  /** Sums add up, and the sum of one number is that number. */
  lemma {:induction false} SumExactly(a: seq<real>, b: seq<real>)
    ensures Sum(a + b) == Sum(a) + Sum(b) && forall x: real :: Sum([x]) == x
  {
    forall x: real ensures Sum([x]) == x {
      assert [x][..0] == [];
    }
    if b == [] {
      assert a + b == a;
    } else {
      var init := b[..|b| - 1];
      SumExactly(a, init);
      assert (a + b)[..|a + b| - 1] == a + init && (a + b)[|a + b| - 1] == b[|b| - 1];
    }
  }

  /** The mean times their number is the sum of the numbers. */
  lemma MeanExactly(xs: seq<real>)
    requires xs != []
    ensures Mean(xs) * |xs| as real == Sum(xs)
  {
  }

  lemma {:induction false} SumBounds(xs: seq<real>, lo: real, hi: real)
    requires forall x <- xs :: lo <= x <= hi
    ensures lo * |xs| as real <= Sum(xs) <= hi * |xs| as real
  {
    if xs != [] {
      var init := xs[..|xs| - 1];
      assert xs[|xs| - 1] in xs && forall x <- init :: x in xs;
      SumBounds(init, lo, hi);
      var n := |init| as real;
      OneMore(lo, n, Sum(init), hi, xs[|xs| - 1]);
      assert |xs| as real == n + 1.0;
    }
  }

  lemma OneMore(lo: real, n: real, total: real, hi: real, x: real)
    requires lo * n <= total <= hi * n && lo <= x <= hi
    ensures lo * (n + 1.0) <= total + x <= hi * (n + 1.0)
  {
    assert lo * (n + 1.0) == lo * n + lo;
    assert hi * (n + 1.0) == hi * n + hi;
  }

  lemma DivideBounds(total: real, n: real, lo: real, hi: real)
    requires n > 0.0 && lo * n <= total <= hi * n
    ensures lo <= total / n <= hi
  {
  }

  /** The mean lies between any bounds of the passing scores; with nothing passing it is 0. */
  lemma MeanBounds(xs: seq<real>, lo: real, hi: real)
    requires forall x <- xs :: lo <= x <= hi
    ensures xs != [] ==> lo <= Mean(xs) <= hi
    ensures xs == [] ==> Mean(xs) == 0.0
  {
    SumBounds(xs, lo, hi);
    if xs != [] { DivideBounds(Sum(xs), |xs| as real, lo, hi); }
  }

  lemma {:induction false} PassingScores(evidence: seq<Evidence>, task: Task, graders: seq<string>, x: real)
    requires x in Scores(evidence, task, graders)
    ensures exists g <- graders :: VerdictOf(evidence, task, g) == Passed(x)
  {
    var g := graders[|graders| - 1];
    var v := VerdictOf(evidence, task, g);
    if v == Passed(x) {
      assert g in graders;
    } else {
      PassingScores(evidence, task, graders[..|graders| - 1], x);
      var h :| h in graders[..|graders| - 1] && VerdictOf(evidence, task, h) == Passed(x);
      assert h in graders;
    }
  }

  lemma {:induction false} UpperBound(xs: seq<real>) returns (hi: real)
    ensures forall x <- xs :: x <= hi
  {
    hi := 0.0;
    if xs != [] {
      var bound := UpperBound(xs[1..]);
      hi := if xs[0] > bound then xs[0] else bound;
      assert forall x <- xs :: x == xs[0] || x in xs[1..];
    }
  }

  /** If every passing grader had to reach at least `t`, the mean reaches `t` exactly when some
      grader passed or `t` is not positive. */
  lemma MeanReaches(evidence: seq<Evidence>, task: Task, t: real)
    requires forall g <- task.graders | VerdictOf(evidence, task, g).Passed? ::
               ThresholdOf(task, g).minScore.Some? && ThresholdOf(task, g).minScore.value >= t
    ensures var scores := Scores(evidence, task, task.graders);
            Mean(scores) >= t <==> scores != [] || t <= 0.0
  {
    var scores := Scores(evidence, task, task.graders);
    forall x <- scores ensures t <= x {
      PassingScores(evidence, task, task.graders, x);
      var g :| g in task.graders && VerdictOf(evidence, task, g) == Passed(x);
    }
    var hi := UpperBound(scores);
    MeanBounds(scores, t, hi);
  }

  // ---- Monotonicity ----

  /** The same kind of threshold, no stricter. */
  predicate Looser(t: Threshold, u: Threshold) {
    && t.minScore.Some? == u.minScore.Some? && (t.minScore.Some? ==> u.minScore.value <= t.minScore.value)
    && t.maxErrors.Some? == u.maxErrors.Some? && (t.maxErrors.Some? ==> u.maxErrors.value >= t.maxErrors.value)
  }

  lemma {:induction false} FewerFailures(
    evidence: seq<Evidence>, task: Task, other: seq<Evidence>, changed: Task, graders: seq<string>)
    requires forall g <- graders :: VerdictOf(other, changed, g).Failed? ==> VerdictOf(evidence, task, g).Failed?
    ensures CountFailed(other, changed, graders) <= CountFailed(evidence, task, graders)
  {
    if graders != [] {
      var init := graders[..|graders| - 1];
      assert graders[|graders| - 1] in graders && forall g <- init :: g in graders;
      FewerFailures(evidence, task, other, changed, init);
    }
  }

  lemma LooserNeverFailsMore(evidence: seq<Evidence>, task: Task, changed: Task)
    requires forall g <- task.graders :: Looser(ThresholdOf(task, g), ThresholdOf(changed, g))
    ensures CountFailed(evidence, changed, task.graders) <= CountFailed(evidence, task, task.graders)
  {
    FewerFailures(evidence, task, evidence, changed, task.graders);
  }

  function Withhold(evidence: seq<Evidence>, id: string): seq<Evidence> {
    if evidence == [] then []
    else
      var e := evidence[|evidence| - 1];
      Withhold(evidence[..|evidence| - 1], id) + (if e.graderId == id then [] else [e])
  }

  lemma {:induction false} LookupWithheld(evidence: seq<Evidence>, id: string, g: string)
    ensures Lookup(Withhold(evidence, id), g) == if g == id then None else Lookup(evidence, g)
  {
    if evidence != [] {
      var init, e := evidence[..|evidence| - 1], evidence[|evidence| - 1];
      LookupWithheld(init, id, g);
      var w := Withhold(init, id);
      assert (w + [e])[..|w|] == w && w + [] == w;
    }
  }

  lemma WithholdingNeverFailsMore(evidence: seq<Evidence>, task: Task, id: string)
    ensures CountFailed(Withhold(evidence, id), task, task.graders) <= CountFailed(evidence, task, task.graders)
  {
    forall g | g in task.graders && VerdictOf(Withhold(evidence, id), task, g).Failed?
      ensures VerdictOf(evidence, task, g).Failed?
    {
      LookupWithheld(evidence, id, g);
    }
    FewerFailures(evidence, task, Withhold(evidence, id), task, task.graders);
  }

  // ---- What the canonical form decides ----

  lemma {:induction false} SkippedFromStatus(a: seq<Evidence>, b: seq<Evidence>, task: Task, graders: seq<string>)
    requires forall g <- graders :: StatusOf(a, g) == StatusOf(b, g)
    ensures CountSkipped(a, task, graders) == CountSkipped(b, task, graders)
  {
    if graders != [] {
      var init, g := graders[..|graders| - 1], graders[|graders| - 1];
      assert g in graders && forall h <- init :: h in graders;
      SkippedFromStatus(a, b, task, init);
    }
  }

  /** Submissions with equal canonical forms skip equally on every task. */
  lemma CanonicalFixesSkipped(round6: real -> real, a: Submission, b: Submission, task: Task)
    requires Canonical(round6, a) == Canonical(round6, b)
    ensures CountSkipped(a.evidence, task, task.graders) == CountSkipped(b.evidence, task, task.graders)
  {
    forall g <- task.graders ensures StatusOf(a.evidence, g) == StatusOf(b.evidence, g) {
      CanonicalFixesStatus(round6, a, b, g);
    }
    SkippedFromStatus(a.evidence, b.evidence, task, task.graders);
  }

  // ---- When the canonical form decides failures ----

  /** The form keeps rounded scores and no error counts.  It decides a grader's verdict when a minimum
      score does not separate two scores that round alike, or when there is no threshold at all. */
  ghost predicate FixedByForm(round6: real -> real, t: Threshold) {
    if t.minScore.Some? then forall a, b | round6(a) == round6(b) :: a >= t.minScore.value ==> b >= t.minScore.value
    else t.maxErrors.None?
  }

  lemma VerdictFixed(round6: real -> real, a: Submission, b: Submission, task: Task, g: string)
    requires Canonical(round6, a) == Canonical(round6, b) && FixedByForm(round6, ThresholdOf(task, g))
    ensures VerdictOf(a.evidence, task, g).Failed? <==> VerdictOf(b.evidence, task, g).Failed?
  {
    SortKeepsLookup(round6, a, g);
    SortKeepsLookup(round6, b, g);
    LookupIsLastEntry(round6, a.evidence, g);
    LookupIsLastEntry(round6, b.evidence, g);
  }

  /** A submission with one piece of passing evidence. */
  function OneGrader(g: string, score: real, errors: int): Submission {
    var e := Evidence(g, "passed", score, "", "", 0.0, "", map["errors" := errors]);
    Submission("task", "tool", "", "", [e], "", "", map[])
  }

  lemma OneGraderLookup(g: string, score: real, errors: int, h: string)
    ensures Lookup(OneGrader(g, score, errors).evidence, h)
            == if h == g then Some(OneGrader(g, score, errors).evidence[0]) else None
  {
  }

  lemma {:induction false} NoFailures(evidence: seq<Evidence>, task: Task, graders: seq<string>)
    requires forall g <- graders :: !VerdictOf(evidence, task, g).Failed?
    ensures CountFailed(evidence, task, graders) == 0
  {
    if graders != [] { NoFailures(evidence, task, graders[..|graders| - 1]); }
  }

  lemma {:induction false} SomeFailure(evidence: seq<Evidence>, task: Task, graders: seq<string>, g: string)
    requires g in graders && VerdictOf(evidence, task, g).Failed?
    ensures CountFailed(evidence, task, graders) > 0
  {
    if graders[|graders| - 1] != g { SomeFailure(evidence, task, graders[..|graders| - 1], g); }
  }

  /** Evidence that meets the threshold of its grader, and evidence that does not. */
  lemma CountsDiffer(task: Task, g: string, x: real, m: int, y: real, n: int)
    requires g in task.graders
    requires MeetsThreshold(OneGrader(g, x, m).evidence[0], ThresholdOf(task, g))
    requires !MeetsThreshold(OneGrader(g, y, n).evidence[0], ThresholdOf(task, g))
    ensures CountFailed(OneGrader(g, x, m).evidence, task, task.graders) == 0
    ensures CountFailed(OneGrader(g, y, n).evidence, task, task.graders) > 0
  {
    forall h <- task.graders ensures !VerdictOf(OneGrader(g, x, m).evidence, task, h).Failed? {
      OneGraderLookup(g, x, m, h);
    }
    NoFailures(OneGrader(g, x, m).evidence, task, task.graders);
    OneGraderLookup(g, y, n, g);
    SomeFailure(OneGrader(g, y, n).evidence, task, task.graders, g);
  }

  /** A grader the form leaves open: two submissions with one form and different failed counts. */
  lemma OpenGrader(round6: real -> real, task: Task, g: string) returns (a: Submission, b: Submission)
    requires g in task.graders && !FixedByForm(round6, ThresholdOf(task, g))
    ensures Canonical(round6, a) == Canonical(round6, b)
    ensures CountFailed(a.evidence, task, task.graders) != CountFailed(b.evidence, task, task.graders)
  {
    var t := ThresholdOf(task, g);
    var x, y, m, n := 0.0, 0.0, 0, 0;
    if t.minScore.Some? {
      x, y :| round6(x) == round6(y) && x >= t.minScore.value && y < t.minScore.value;
    } else {
      m, n := t.maxErrors.value, t.maxErrors.value + 1;
    }
    CountsDiffer(task, g, x, m, y, n);
    a, b := OneGrader(g, x, m), OneGrader(g, y, n);
  }

  /** For example, an error limit of 0 tells apart what one form stands for. */
  lemma CanonicalLeavesFailuresOpen(round6: real -> real)
    ensures var task := Task("task", ["erc"], map["erc" := Threshold(None, Some(0))]);
            && Canonical(round6, OneGrader("erc", 1.0, 0)) == Canonical(round6, OneGrader("erc", 1.0, 1))
            && CountFailed(OneGrader("erc", 1.0, 0).evidence, task, task.graders) == 0
            && CountFailed(OneGrader("erc", 1.0, 1).evidence, task, task.graders) > 0
  {
  }

  /** Equal canonical forms have equal failed counts on a task exactly when the form decides the
      verdict of every grader of the task. */
  lemma CanonicalFixesFailedExactly(round6: real -> real, task: Task)
    ensures (forall a, b | Canonical(round6, a) == Canonical(round6, b) ::
               CountFailed(a.evidence, task, task.graders) == CountFailed(b.evidence, task, task.graders))
            <==> forall g <- task.graders :: FixedByForm(round6, ThresholdOf(task, g))
  {
    if forall g <- task.graders :: FixedByForm(round6, ThresholdOf(task, g)) {
      forall a, b | Canonical(round6, a) == Canonical(round6, b)
        ensures CountFailed(a.evidence, task, task.graders) == CountFailed(b.evidence, task, task.graders)
      {
        forall g <- task.graders
          ensures VerdictOf(a.evidence, task, g).Failed? <==> VerdictOf(b.evidence, task, g).Failed?
        {
          VerdictFixed(round6, a, b, task, g);
        }
        FewerFailures(a.evidence, task, b.evidence, task, task.graders);
        FewerFailures(b.evidence, task, a.evidence, task, task.graders);
      }
    } else {
      var g :| g in task.graders && !FixedByForm(round6, ThresholdOf(task, g));
      var a, b := OpenGrader(round6, task, g);
    }
  }
}
