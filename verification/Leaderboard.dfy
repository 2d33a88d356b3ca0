/** The leaderboard: score reports are filtered, reduced to the best one per tool, sorted and
    ranked. */
module Leaderboard {
  import opened Wrappers
  import opened StableSort
  import opened TextOrder
  import opened Sequences

  datatype Report = Report(
    taskId: string, toolName: string, toolVersion: string, status: string, mean: real,
    passed: int, failed: int, skipped: int, canonicalHash: string, generatedAt: string)

  datatype Key = Key(taskId: string, toolName: string, toolVersion: string)

  datatype Row = Row(rank: nat, report: Report)

  function KeyOf(r: Report): Key {
    Key(r.taskId, r.toolName, r.toolVersion)
  }

  // ---- The order of rows ----

  /** Fewer failures first, then the higher mean, then the name. */
  predicate RowLe(r: Report, s: Report) {
    || r.failed < s.failed
    || (r.failed == s.failed && (r.mean > s.mean || (r.mean == s.mean && TextLe(r.toolName, s.toolName))))
  }

  predicate Tied(r: Report, s: Report) {
    RowLe(r, s) && RowLe(s, r)
  }

  lemma RowLeIsTotalPreorder()
    ensures TotalPreorder(RowLe)
  {
    forall r, s ensures RowLe(r, s) || RowLe(s, r) {
      TextLeTotal(r.toolName, s.toolName);
    }
    forall r, s, t | RowLe(r, s) && RowLe(s, t) ensures RowLe(r, t) {
      if TextLe(r.toolName, s.toolName) && TextLe(s.toolName, t.toolName) {
        TextLeTransitive(r.toolName, s.toolName, t.toolName);
      }
    }
  }

  // ---- What is computed ----

  /** The readable reports of the requested task; an empty task id asks for all. */
  function Relevant(files: seq<Option<Report>>, taskId: string): seq<Report> {
    if files == [] then []
    else
      (if files[0].Some? && (taskId == "" || files[0].value.taskId == taskId) then [files[0].value] else [])
      + Relevant(files[1..], taskId)
  }

  /** The keys in the order of their first report. */
  function KeyOrder(reports: seq<Report>): seq<Key> {
    if reports == [] then []
    else
      var keys := KeyOrder(reports[..|reports| - 1]);
      var key := KeyOf(reports[|reports| - 1]);
      if key in keys then keys else keys + [key]
  }

  /** The report kept for a key: a later one replaces it only with a higher mean. */
  function BestOf(reports: seq<Report>, key: Key): Option<Report> {
    if reports == [] then None
    else
      var best, r := BestOf(reports[..|reports| - 1], key), reports[|reports| - 1];
      if KeyOf(r) == key && (best.None? || r.mean > best.value.mean) then Some(r) else best
  }

  lemma {:induction false} BestExists(reports: seq<Report>, key: Key)
    ensures BestOf(reports, key).Some? <==> key in KeyOrder(reports)
    ensures BestOf(reports, key).Some? ==> KeyOf(BestOf(reports, key).value) == key
  {
    if reports != [] { BestExists(reports[..|reports| - 1], key); }
  }

  function Values(reports: seq<Report>): (values: seq<Report>)
    ensures |values| == |KeyOrder(reports)|
    ensures forall i | 0 <= i < |values| :: values[i] == BestReport(reports, KeyOrder(reports)[i])
  {
    var keys := KeyOrder(reports);
    seq(|keys|, i requires 0 <= i < |keys| => BestReport(reports, keys[i]))
  }

  function BestReport(reports: seq<Report>, key: Key): Report
    requires key in KeyOrder(reports)
  {
    BestExists(reports, key);
    BestOf(reports, key).value
  }

  function Ranking(reports: seq<Report>): seq<Report> {
    Sort(RowLe, Values(reports))
  }

  lemma RelevantStep(files: seq<Option<Report>>, taskId: string, i: nat)
    requires i < |files|
    ensures var f, rest := files[i], Relevant(files[i + 1..], taskId);
            Relevant(files[i..], taskId)
            == if f.Some? && (taskId == "" || f.value.taskId == taskId) then [f.value] + rest else rest
  {
    assert files[i..][1..] == files[i + 1..];
  }

  method FilterReports(files: seq<Option<Report>>, taskId: string) returns (reports: seq<Report>)
    ensures reports == Relevant(files, taskId)
  {
    reports := [];
    for i := 0 to |files|
      invariant reports + Relevant(files[i..], taskId) == Relevant(files, taskId)
    {
      RelevantStep(files, taskId, i);
      if files[i].None? || (taskId != "" && files[i].value.taskId != taskId) {
        continue;
      }
      Associative(reports, [files[i].value], Relevant(files[i + 1..], taskId));
      reports := reports + [files[i].value];
    }
  }

  method GenerateLeaderboard(files: seq<Option<Report>>, taskId: string) returns (boardTask: string, rows: seq<Row>)
    ensures rows == Ranked(Ranking(Relevant(files, taskId)))
    ensures boardTask == BoardTask(taskId, Ranking(Relevant(files, taskId)))
  {
    var reports := FilterReports(files, taskId);
    var keys, best := KeepBest(reports);
    var values := InOrder(keys, best);
    ValuesAre(reports, keys, best, values);
    var sorted := Sort(RowLe, values);
    boardTask := BoardTask(taskId, sorted);
    rows := Ranked(sorted);
  }

  /** The rows, ranked from 1. */
  function Ranked(reports: seq<Report>): seq<Row> {
    seq(|reports|, i requires 0 <= i < |reports| => Row(i + 1, reports[i]))
  }

  function BoardTask(taskId: string, sorted: seq<Report>): string {
    if taskId != "" then taskId else if sorted != [] then sorted[0].taskId else "unknown"
  }

  /** The dictionary's values in insertion order. */
  function InOrder(keys: seq<Key>, best: map<Key, Report>): seq<Report>
    requires forall k <- keys :: k in best
  {
    seq(|keys|, i requires 0 <= i < |keys| => best[keys[i]])
  }

  lemma ValuesAre(reports: seq<Report>, keys: seq<Key>, best: map<Key, Report>, values: seq<Report>)
    requires keys == KeyOrder(reports)
    requires forall k <- keys :: k in best && best[k] == BestReport(reports, k)
    requires values == InOrder(keys, best)
    ensures values == Values(reports)
  {
  }

  /** A dictionary with its keys in insertion order; overwriting a value keeps the key's place. */
  method KeepBest(reports: seq<Report>) returns (keys: seq<Key>, best: map<Key, Report>)
    ensures keys == KeyOrder(reports)
    ensures forall k :: k in best <==> k in keys
    ensures forall k | k in keys :: best[k] == BestReport(reports, k)
  {
    keys, best := [], map[];
    for i := 0 to |reports|
      invariant keys == KeyOrder(reports[..i])
      invariant forall k :: k in best <==> k in keys
      invariant forall k | k in keys :: Some(best[k]) == BestOf(reports[..i], k)
    {
      var r := reports[i];
      var key := KeyOf(r);
      assert reports[..i + 1][..i] == reports[..i] && reports[..i + 1][i] == r;
      BestExists(reports[..i], key);
      if key !in best || r.mean > best[key].mean {
        if key !in best {
          keys := keys + [key];
        }
        best := best[key := r];
      }
    }
    assert reports[..|reports|] == reports;
  }

  // ---- One row per key, and it is the first of the best ----

  /** `i` is the first report with the highest mean for its key. */
  ghost predicate FirstBest(reports: seq<Report>, key: Key, i: int) {
    && 0 <= i < |reports| && KeyOf(reports[i]) == key
    && (forall j | 0 <= j < |reports| && KeyOf(reports[j]) == key :: reports[j].mean <= reports[i].mean)
    && (forall j | 0 <= j < i && KeyOf(reports[j]) == key :: reports[j].mean < reports[i].mean)
  }

  lemma {:induction false} BestIsFirstBest(reports: seq<Report>, key: Key) returns (i: int)
    requires BestOf(reports, key).Some?
    ensures FirstBest(reports, key, i) && reports[i] == BestOf(reports, key).value
  {
    var init, r := reports[..|reports| - 1], reports[|reports| - 1];
    var best := BestOf(init, key);
    if best.Some? {
      i := BestIsFirstBest(init, key);
      assert forall j | 0 <= j < |init| :: init[j] == reports[j];
      if KeyOf(r) == key && r.mean > best.value.mean { i := |reports| - 1; }
    } else {
      NoBestNoReport(init, key);
      i := |reports| - 1;
    }
  }

  lemma {:induction false} NoBestNoReport(reports: seq<Report>, key: Key)
    requires BestOf(reports, key).None?
    ensures forall j | 0 <= j < |reports| :: KeyOf(reports[j]) != key
  {
    if reports != [] { NoBestNoReport(reports[..|reports| - 1], key); }
  }

  lemma KeyOrderMembers(reports: seq<Report>, key: Key)
    ensures key in KeyOrder(reports) <==> exists i :: 0 <= i < |reports| && KeyOf(reports[i]) == key
  {
    BestExists(reports, key);
    if key in KeyOrder(reports) {
      var i := BestIsFirstBest(reports, key);
    } else {
      NoBestNoReport(reports, key);
    }
  }

  lemma {:induction false} KeyOrderDistinct(reports: seq<Report>)
    ensures forall i, j | 0 <= i < j < |KeyOrder(reports)| :: KeyOrder(reports)[i] != KeyOrder(reports)[j]
  {
    if reports != [] { KeyOrderDistinct(reports[..|reports| - 1]); }
  }

  ghost predicate HasKey(reports: seq<Report>, key: Key) {
    exists r <- reports :: KeyOf(r) == key
  }

  ghost predicate DistinctKeys(rows: seq<Report>) {
    forall i, j | 0 <= i < j < |rows| :: KeyOf(rows[i]) != KeyOf(rows[j])
  }

  lemma ValuesHaveKeys(reports: seq<Report>)
    ensures forall i | 0 <= i < |Values(reports)| :: KeyOf(Values(reports)[i]) == KeyOrder(reports)[i]
    ensures DistinctKeys(Values(reports))
  {
    forall i | 0 <= i < |Values(reports)| ensures KeyOf(Values(reports)[i]) == KeyOrder(reports)[i] {
      BestExists(reports, KeyOrder(reports)[i]);
    }
    KeyOrderDistinct(reports);
  }

  /** Distinct keys survive any reordering. */
  lemma DistinctKeysPermute(xs: seq<Report>, ys: seq<Report>)
    requires DistinctKeys(xs) && multiset(xs) == multiset(ys)
    ensures DistinctKeys(ys)
  {
    forall i, j | 0 <= i < j < |ys| ensures KeyOf(ys[i]) != KeyOf(ys[j]) {
      assert ys[i] in multiset(xs) && ys[j] in multiset(xs);
      var a :| 0 <= a < |xs| && xs[a] == ys[i];
      var b :| 0 <= b < |xs| && xs[b] == ys[j];
      if a == b {
        CountDistinct(xs, ys[i]);
        TwiceInMultiset(ys, i, j);
      }
    }
  }

  lemma TwiceInMultiset(ys: seq<Report>, i: nat, j: nat)
    requires i < j < |ys| && ys[i] == ys[j]
    ensures multiset(ys)[ys[i]] >= 2
  {
    assert ys == ys[..j] + [ys[j]] + ys[j + 1..];
    assert ys[i] in ys[..j];
  }

  /** The leaderboard has exactly one row per key of the reports, that row is the first report of
      the highest mean, and the rows are in order. */
  lemma RankingIsExact(reports: seq<Report>)
    ensures DistinctKeys(Ranking(reports)) && Sorted(RowLe, Ranking(reports))
    ensures forall key :: HasKey(Ranking(reports), key) <==> HasKey(reports, key)
    ensures forall row <- Ranking(reports) :: exists i :: FirstBest(reports, KeyOf(row), i) && reports[i] == row
  {
    var rows, values := Ranking(reports), Values(reports);
    ValuesHaveKeys(reports);
    SortKeepsElements(RowLe, values);
    DistinctKeysPermute(values, rows);
    RowLeIsTotalPreorder();
    SortSorts(RowLe, values);
    forall row <- rows ensures exists i :: FirstBest(reports, KeyOf(row), i) && reports[i] == row {
      var i := RowSource(reports, row);
    }
    forall key ensures HasKey(rows, key) <==> HasKey(reports, key) {
      RowPerKey(reports, key);
    }
  }

  lemma RowSource(reports: seq<Report>, row: Report) returns (i: int)
    requires row in Ranking(reports)
    ensures FirstBest(reports, KeyOf(row), i) && reports[i] == row
  {
    SortMember(RowLe, Values(reports), row);
    ValuesHaveKeys(reports);
    var k :| 0 <= k < |Values(reports)| && Values(reports)[k] == row;
    BestExists(reports, KeyOrder(reports)[k]);
    i := BestIsFirstBest(reports, KeyOrder(reports)[k]);
  }

  lemma RowPerKey(reports: seq<Report>, key: Key)
    ensures HasKey(Ranking(reports), key) <==> HasKey(reports, key)
  {
    KeyOrderMembers(reports, key);
    if HasKey(Ranking(reports), key) {
      var row :| row in Ranking(reports) && KeyOf(row) == key;
      var i := RowSource(reports, row);
      assert reports[i] in reports;
    }
    if HasKey(reports, key) {
      var r :| r in reports && KeyOf(r) == key;
      var i :| 0 <= i < |reports| && reports[i] == r;
      var k :| 0 <= k < |KeyOrder(reports)| && KeyOrder(reports)[k] == key;
      ValuesHaveKeys(reports);
      SortMember(RowLe, Values(reports), Values(reports)[k]);
    }
  }

  // ---- Ties keep the order of first reports ----

  ghost predicate FirstAt(reports: seq<Report>, key: Key, i: int) {
    0 <= i < |reports| && KeyOf(reports[i]) == key && forall j | 0 <= j < i :: KeyOf(reports[j]) != key
  }

  lemma {:induction false} KeyOrderIsFirstOrder(reports: seq<Report>, a: nat, b: nat, i: int, j: int)
    requires a < b < |KeyOrder(reports)|
    requires FirstAt(reports, KeyOrder(reports)[a], i) && FirstAt(reports, KeyOrder(reports)[b], j)
    ensures i < j
  {
    var n := |reports| - 1;
    var init := reports[..n];
    var keys := KeyOrder(init);
    assert forall k | 0 <= k < n :: init[k] == reports[k];
    assert a < |keys|;
    KeyOrderMembers(init, keys[a]);
    KeyOrderMembers(init, KeyOrder(reports)[b]);
    if b < |keys| {
      KeyOrderIsFirstOrder(init, a, b, i, j);
    }
  }

  lemma TiesKeepFirstOrder(reports: seq<Report>, a: nat, b: nat, i: int, j: int)
    requires a < b < |Ranking(reports)| && Tied(Ranking(reports)[a], Ranking(reports)[b])
    requires FirstAt(reports, KeyOf(Ranking(reports)[a]), i) && FirstAt(reports, KeyOf(Ranking(reports)[b]), j)
    ensures i < j
  {
    var rows, values := Ranking(reports), Values(reports);
    var x, y := rows[a], rows[b];
    var p := (r: Report) => Tied(r, x);
    RowLeIsTotalPreorder();
    SortIsStable(RowLe, p, values);
    assert Before(rows, x, y);
    KeepBefore(p, rows, x, y);
    KeepBefore(p, values, x, y);
    ValuesHaveKeys(reports);
    var m, n :| 0 <= m < n < |values| && values[m] == x && values[n] == y;
    KeyOrderIsFirstOrder(reports, m, n, i, j);
  }

  // ---- Without ties the order of the reports does not matter ----

  /** No report of the same key has a higher mean. */
  ghost predicate IsBest(reports: seq<Report>, r: Report) {
    r in reports && forall s <- reports :: KeyOf(s) == KeyOf(r) ==> s.mean <= r.mean
  }

  ghost predicate NoBestTies(reports: seq<Report>) {
    forall r, s | IsBest(reports, r) && IsBest(reports, s) :: KeyOf(r) == KeyOf(s) ==> r == s
  }

  ghost predicate NoRowTies(reports: seq<Report>) {
    forall r, s | r in Values(reports) && s in Values(reports) :: Tied(r, s) ==> r == s
  }

  /** The best reports of each key are one report, and no two rows compare equal. */
  ghost predicate NoTies(reports: seq<Report>) {
    NoBestTies(reports) && NoRowTies(reports)
  }

  lemma BestReportIsBest(reports: seq<Report>, key: Key)
    requires key in KeyOrder(reports)
    ensures IsBest(reports, BestReport(reports, key)) && KeyOf(BestReport(reports, key)) == key
  {
    BestExists(reports, key);
    var i := BestIsFirstBest(reports, key);
  }

  lemma ValueIsBest(reports: seq<Report>, r: Report)
    requires r in Values(reports)
    ensures IsBest(reports, r)
  {
    var k :| 0 <= k < |Values(reports)| && Values(reports)[k] == r;
    BestReportIsBest(reports, KeyOrder(reports)[k]);
  }

  lemma MembersPermute(xs: seq<Report>, ys: seq<Report>)
    requires multiset(xs) == multiset(ys)
    ensures forall r :: r in xs <==> r in ys
    ensures forall r :: IsBest(xs, r) <==> IsBest(ys, r)
  {
    forall r ensures r in xs <==> r in ys {
      assert r in multiset(xs) <==> r in multiset(ys);
    }
  }

  lemma ReportHasKey(reports: seq<Report>, r: Report)
    requires r in reports
    ensures KeyOf(r) in KeyOrder(reports)
  {
  }

  lemma BestIsSame(xs: seq<Report>, ys: seq<Report>, key: Key)
    requires multiset(xs) == multiset(ys) && key in KeyOrder(xs) && NoBestTies(xs)
    ensures key in KeyOrder(ys) && BestReport(xs, key) == BestReport(ys, key)
  {
    MembersPermute(xs, ys);
    BestReportIsBest(xs, key);
    ReportHasKey(ys, BestReport(xs, key));
    BestReportIsBest(ys, key);
  }

  lemma ValuesPermute(xs: seq<Report>, ys: seq<Report>, r: Report)
    requires multiset(xs) == multiset(ys) && r in Values(xs) && NoBestTies(xs)
    ensures r in Values(ys)
  {
    var k :| 0 <= k < |Values(xs)| && Values(xs)[k] == r;
    var key := KeyOrder(xs)[k];
    BestIsSame(xs, ys, key);
    var m :| 0 <= m < |KeyOrder(ys)| && KeyOrder(ys)[m] == key;
    assert Values(ys)[m] == r;
  }

  lemma ValuesSameElements(xs: seq<Report>, ys: seq<Report>)
    requires multiset(xs) == multiset(ys) && NoBestTies(xs)
    ensures multiset(Values(xs)) == multiset(Values(ys))
  {
    MembersPermute(xs, ys);
    forall r ensures r in Values(xs) <==> r in Values(ys) {
      if r in Values(xs) { ValuesPermute(xs, ys, r); }
      if r in Values(ys) { ValuesPermute(ys, xs, r); }
    }
    ValuesHaveKeys(xs);
    ValuesHaveKeys(ys);
    DistinctElements(Values(xs), Values(ys));
  }

  lemma NoTiesIgnoresOrder(xs: seq<Report>, ys: seq<Report>)
    requires multiset(xs) == multiset(ys) && NoTies(xs)
    ensures Ranking(xs) == Ranking(ys)
  {
    var a, b := Ranking(xs), Ranking(ys);
    ValuesSameElements(xs, ys);
    SortKeepsElements(RowLe, Values(xs));
    SortKeepsElements(RowLe, Values(ys));
    RowLeIsTotalPreorder();
    SortSorts(RowLe, Values(xs));
    SortSorts(RowLe, Values(ys));
    forall r, s | r in a && s in a && RowLe(r, s) && RowLe(s, r) ensures r == s {
      SortMember(RowLe, Values(xs), r);
      SortMember(RowLe, Values(xs), s);
      assert Tied(r, s);
    }
    SortedIsUnique(RowLe, a, b);
  }

  // ---- With a tie it does ----

  lemma TakeOut(xs: seq<Report>, r: Report) returns (rest: seq<Report>)
    requires r in xs
    ensures multiset(xs) == multiset{r} + multiset(rest)
  {
    var i :| 0 <= i < |xs| && xs[i] == r;
    WithoutElements(xs, i);
    rest := Without(xs, i);
  }

  /** Any two reports can be moved to the front. */
  lemma MoveToFront(xs: seq<Report>, r: Report, s: Report) returns (rest: seq<Report>)
    requires r in xs && s in xs && r != s
    ensures multiset([r, s] + rest) == multiset(xs) == multiset([s, r] + rest)
  {
    var most := TakeOut(xs, r);
    assert s in most by { assert s in multiset(xs) && multiset(xs)[s] == multiset(most)[s]; }
    rest := TakeOut(most, s);
  }

  /** A best report at the front of its key's reports is the one that is kept. */
  lemma FrontIsKept(ys: seq<Report>, r: Report, i: int)
    requires IsBest(ys, r) && FirstAt(ys, KeyOf(r), i) && ys[i] == r
    ensures r in Ranking(ys)
  {
    var key := KeyOf(r);
    ReportHasKey(ys, r);
    BestExists(ys, key);
    var j := BestIsFirstBest(ys, key);
    assert BestReport(ys, key) == r;
    var k :| 0 <= k < |KeyOrder(ys)| && KeyOrder(ys)[k] == key;
    assert Values(ys)[k] == r;
    SortMember(RowLe, Values(ys), r);
  }

  lemma BestTieShows(rest: seq<Report>, r: Report, s: Report)
    requires r != s && KeyOf(r) == KeyOf(s) && IsBest([r, s] + rest, r) && IsBest([s, r] + rest, s)
    ensures Ranking([r, s] + rest) != Ranking([s, r] + rest)
  {
    var ys, zs := [r, s] + rest, [s, r] + rest;
    FrontIsKept(ys, r, 0);
    FrontIsKept(zs, s, 0);
    RankingIsExact(ys);
    assert s !in Ranking(ys);
  }

  lemma RowTieShows(rest: seq<Report>, r: Report, s: Report)
    requires r != s && KeyOf(r) != KeyOf(s) && Tied(r, s)
    requires IsBest([r, s] + rest, r) && IsBest([r, s] + rest, s)
    requires IsBest([s, r] + rest, r) && IsBest([s, r] + rest, s)
    ensures Ranking([r, s] + rest) != Ranking([s, r] + rest)
  {
    var ys, zs := [r, s] + rest, [s, r] + rest;
    FrontIsKept(ys, r, 0);
    FrontIsKept(ys, s, 1);
    FrontIsKept(zs, s, 0);
    FrontIsKept(zs, r, 1);
    if Ranking(ys) == Ranking(zs) {
      var a :| 0 <= a < |Ranking(ys)| && Ranking(ys)[a] == r;
      var b :| 0 <= b < |Ranking(ys)| && Ranking(ys)[b] == s;
      if a < b {
        TiesKeepFirstOrder(zs, a, b, 1, 0);
      } else {
        TiesKeepFirstOrder(ys, b, a, 1, 0);
      }
    }
  }

  /** Every order of the reports gives the same leaderboard rows. */
  ghost predicate OrderIrrelevant(xs: seq<Report>) {
    forall ys | multiset(ys) == multiset(xs) :: Ranking(ys) == Ranking(xs)
  }

  lemma BestTieMatters(xs: seq<Report>, r: Report, s: Report)
    requires IsBest(xs, r) && IsBest(xs, s) && KeyOf(r) == KeyOf(s) && r != s
    ensures !OrderIrrelevant(xs)
  {
    var rest := MoveToFront(xs, r, s);
    MembersPermute(xs, [r, s] + rest);
    MembersPermute(xs, [s, r] + rest);
    BestTieShows(rest, r, s);
  }

  lemma RowTieMatters(xs: seq<Report>, r: Report, s: Report)
    requires r in Values(xs) && s in Values(xs) && Tied(r, s) && r != s
    ensures !OrderIrrelevant(xs)
  {
    ValueIsBest(xs, r);
    ValueIsBest(xs, s);
    ValuesHaveKeys(xs);
    var rest := MoveToFront(xs, r, s);
    MembersPermute(xs, [r, s] + rest);
    MembersPermute(xs, [s, r] + rest);
    RowTieShows(rest, r, s);
  }

  /** The order of the reports does not matter exactly when there are no ties. */
  lemma OrderIrrelevantExactly(xs: seq<Report>)
    ensures OrderIrrelevant(xs) <==> NoTies(xs)
  {
    if NoTies(xs) {
      forall ys | multiset(ys) == multiset(xs) ensures Ranking(ys) == Ranking(xs) {
        NoTiesIgnoresOrder(xs, ys);
      }
    } else if !NoBestTies(xs) {
      var r, s :| IsBest(xs, r) && IsBest(xs, s) && KeyOf(r) == KeyOf(s) && r != s;
      BestTieMatters(xs, r, s);
    } else {
      var r, s :| r in Values(xs) && s in Values(xs) && Tied(r, s) && r != s;
      RowTieMatters(xs, r, s);
    }
  }

  // ---- The board, spelled out over the files ----

  /** File `k` is readable and of the requested task. */
  ghost predicate Wanted(files: seq<Option<Report>>, taskId: string, k: int) {
    0 <= k < |files| && files[k].Some? && (taskId == "" || files[k].value.taskId == taskId)
  }

  ghost predicate SameTool(r: Report, s: Report) {
    r.taskId == s.taskId && r.toolName == s.toolName && r.toolVersion == s.toolVersion
  }

  /** No wanted file of the same tool has a higher mean, and no earlier one an equal one. */
  ghost predicate Leads(files: seq<Option<Report>>, taskId: string, k: int) {
    && Wanted(files, taskId, k)
    && forall j | Wanted(files, taskId, j) && SameTool(files[j].value, files[k].value) ::
         files[j].value.mean <= files[k].value.mean && (j < k ==> files[j].value.mean < files[k].value.mean)
  }

  /** Fewer failures; or as many and a higher mean; or both equal, and the name is not behind. */
  ghost predicate NotBehind(r: Report, s: Report) {
    && r.failed <= s.failed
    && (r.failed == s.failed ==> r.mean >= s.mean && (r.mean == s.mean ==> TextLe(r.toolName, s.toolName)))
  }

  /** Which files the relevant reports are. */
  ghost predicate Picks(files: seq<Option<Report>>, taskId: string, reports: seq<Report>, at: seq<nat>) {
    && |at| == |reports| && (forall i, j | 0 <= i < j < |at| :: at[i] < at[j])
    && (forall i | 0 <= i < |at| :: Wanted(files, taskId, at[i]) && files[at[i]].value == reports[i])
    && forall k | Wanted(files, taskId, k) :: k in at
  }

  lemma PickFirst(files: seq<Option<Report>>, taskId: string, reports: seq<Report>, shifted: seq<nat>)
    requires Wanted(files, taskId, 0) && |shifted| == |reports|
    requires forall i, j | 0 <= i < j < |shifted| :: shifted[i] < shifted[j]
    requires forall i | 0 <= i < |shifted| ::
               shifted[i] > 0 && Wanted(files, taskId, shifted[i]) && files[shifted[i]].value == reports[i]
    requires forall k | Wanted(files, taskId, k) && k > 0 :: k in shifted
    ensures Picks(files, taskId, [files[0].value] + reports, [0] + shifted)
  {
    var all, more := [0] + shifted, [files[0].value] + reports;
    assert all[0] == 0 && forall i | 0 < i < |all| :: all[i] == shifted[i - 1] && more[i] == reports[i - 1];
  }

  lemma PickLater(files: seq<Option<Report>>, taskId: string, rest: seq<nat>, shifted: seq<nat>)
    requires files != [] && !Wanted(files, taskId, 0) && Picks(files[1..], taskId, Relevant(files[1..], taskId), rest)
    requires |shifted| == |rest| && forall i | 0 <= i < |rest| :: shifted[i] == rest[i] + 1
    ensures Picks(files, taskId, Relevant(files[1..], taskId), shifted)
  {
    ShiftPicks(files, taskId, rest, shifted);
  }

  lemma {:induction false} RelevantExactly(files: seq<Option<Report>>, taskId: string) returns (at: seq<nat>)
    ensures Picks(files, taskId, Relevant(files, taskId), at)
  {
    if files == [] {
      at := [];
    } else {
      var rest := RelevantExactly(files[1..], taskId);
      var shifted := seq(|rest|, i requires 0 <= i < |rest| => rest[i] + 1);
      if Wanted(files, taskId, 0) {
        ShiftPicks(files, taskId, rest, shifted);
        PickFirst(files, taskId, Relevant(files[1..], taskId), shifted);
        at := [0] + shifted;
      } else {
        PickLater(files, taskId, rest, shifted);
        at := shifted;
        assert Relevant(files, taskId) == [] + Relevant(files[1..], taskId);
      }
    }
  }

  lemma ShiftPicks(files: seq<Option<Report>>, taskId: string, rest: seq<nat>, shifted: seq<nat>)
    requires files != [] && Picks(files[1..], taskId, Relevant(files[1..], taskId), rest)
    requires |shifted| == |rest| && forall i | 0 <= i < |rest| :: shifted[i] == rest[i] + 1
    ensures forall i, j | 0 <= i < j < |shifted| :: shifted[i] < shifted[j]
    ensures forall i | 0 <= i < |shifted| ::
              Wanted(files, taskId, shifted[i]) && files[shifted[i]].value == Relevant(files[1..], taskId)[i]
    ensures forall k | Wanted(files, taskId, k) && k > 0 :: k in shifted
  {
    forall k | Wanted(files, taskId, k) && k > 0 ensures k in shifted {
      assert Wanted(files[1..], taskId, k - 1);
      var i :| 0 <= i < |rest| && rest[i] == k - 1;
      assert shifted[i] == k;
    }
  }

  lemma SameToolIsKey(r: Report, s: Report)
    ensures SameTool(r, s) <==> KeyOf(r) == KeyOf(s)
  {
  }

  lemma FirstBestLeads(files: seq<Option<Report>>, taskId: string, reports: seq<Report>, at: seq<nat>, i: int)
    requires Picks(files, taskId, reports, at) && 0 <= i < |reports| && FirstBest(reports, KeyOf(reports[i]), i)
    ensures Leads(files, taskId, at[i]) && files[at[i]].value == reports[i]
  {
    forall j | Wanted(files, taskId, j) && SameTool(files[j].value, files[at[i]].value)
      ensures files[j].value.mean <= reports[i].mean && (j < at[i] ==> files[j].value.mean < reports[i].mean)
    {
      var m :| 0 <= m < |at| && at[m] == j;
      SameToolIsKey(reports[m], reports[i]);
    }
  }

  /** Every row is the report of a leading file. */
  lemma RowLeads(files: seq<Option<Report>>, taskId: string, row: Report) returns (k: int)
    requires row in Ranking(Relevant(files, taskId))
    ensures Leads(files, taskId, k) && files[k].value == row
  {
    var reports := Relevant(files, taskId);
    var at := RelevantExactly(files, taskId);
    var i := RowSource(reports, row);
    FirstBestLeads(files, taskId, reports, at, i);
    k := at[i];
  }

  /** Every wanted file has a row for its tool. */
  lemma ToolHasRow(files: seq<Option<Report>>, taskId: string, k: int) returns (row: Report)
    requires Wanted(files, taskId, k)
    ensures row in Ranking(Relevant(files, taskId)) && SameTool(row, files[k].value)
  {
    var reports := Relevant(files, taskId);
    var at := RelevantExactly(files, taskId);
    var m :| 0 <= m < |at| && at[m] == k;
    assert reports[m] in reports;
    RowPerKey(reports, KeyOf(files[k].value));
    row :| row in Ranking(reports) && KeyOf(row) == KeyOf(files[k].value);
    SameToolIsKey(row, files[k].value);
  }

  lemma OrderExactly(r: Report, s: Report)
    ensures RowLe(r, s) <==> NotBehind(r, s)
  {
  }

  ghost predicate Ordered(rows: seq<Row>) {
    forall i, j | 0 <= i < j < |rows| ::
      NotBehind(rows[i].report, rows[j].report) && !SameTool(rows[i].report, rows[j].report)
  }

  lemma BoardIsOrdered(reports: seq<Report>, rows: seq<Row>)
    requires rows == Ranked(Ranking(reports))
    ensures Ordered(rows) && forall i | 0 <= i < |rows| :: rows[i].rank == i + 1
  {
    var ranking := Ranking(reports);
    RankingIsExact(reports);
    forall i, j | 0 <= i < j < |rows|
      ensures NotBehind(rows[i].report, rows[j].report) && !SameTool(rows[i].report, rows[j].report)
    {
      OrderExactly(ranking[i], ranking[j]);
      SameToolIsKey(ranking[i], ranking[j]);
    }
  }

  ghost predicate Sourced(files: seq<Option<Report>>, taskId: string, rows: seq<Row>) {
    && (forall i | 0 <= i < |rows| :: exists k :: Leads(files, taskId, k) && files[k].value == rows[i].report)
    && forall k | Wanted(files, taskId, k) :: exists i :: 0 <= i < |rows| && SameTool(rows[i].report, files[k].value)
  }

  lemma BoardIsSourced(files: seq<Option<Report>>, taskId: string, rows: seq<Row>)
    requires rows == Ranked(Ranking(Relevant(files, taskId)))
    ensures Sourced(files, taskId, rows)
  {
    var ranking := Ranking(Relevant(files, taskId));
    forall i | 0 <= i < |rows| ensures exists k :: Leads(files, taskId, k) && files[k].value == rows[i].report {
      var k := RowLeads(files, taskId, ranking[i]);
    }
    forall k | Wanted(files, taskId, k) ensures exists i ::
      0 <= i < |rows| && SameTool(rows[i].report, files[k].value) {
      var row := ToolHasRow(files, taskId, k);
      var i :| 0 <= i < |ranking| && ranking[i] == row;
      assert rows[i].report == row;
    }
  }

  /** The board over the files: ranks from 1, fewer failures and then higher means and then names first,
      one row per task, tool and version, and each row the first of the highest mean. */
  lemma BoardExactly(files: seq<Option<Report>>, taskId: string, rows: seq<Row>)
    requires rows == Ranked(Ranking(Relevant(files, taskId)))
    ensures forall i | 0 <= i < |rows| :: rows[i].rank == i + 1
    ensures Ordered(rows) && Sourced(files, taskId, rows)
  {
    BoardIsOrdered(Relevant(files, taskId), rows);
    BoardIsSourced(files, taskId, rows);
  }

  /** The board is that of the requested task, or of its first row, or of none. */
  lemma BoardTaskExactly(taskId: string, sorted: seq<Report>)
    ensures taskId != "" ==> BoardTask(taskId, sorted) == taskId
    ensures taskId == "" && sorted != [] ==> BoardTask(taskId, sorted) == sorted[0].taskId
    ensures taskId == "" && sorted == [] ==> BoardTask(taskId, sorted) == "unknown"
  {
  }
}
