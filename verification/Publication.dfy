/** Publishing the KiCad review tree and report: families are exported into a private staging
    directory, the finished tree is renamed to its target, and any handled failure removes it. */
module Publication {
  import opened Wrappers

  /** A review tree by relative path. */
  type Tree = map<string, string>

  const INDEX := "review-index.json"

  datatype Job = Job(families: seq<string>, exports: string -> Tree, index: string, report: string)

  /** Which steps raise a handled exception.  `leftover` is what a failing family leaves staged,
      `reportOpen` is the opening of the report and `written` how much of it a failing write gets out,
      `kept` what removal cannot delete. */
  datatype Faults = Faults(
    outputPath: bool, reviewPath: bool, cli: bool, version: bool, staging: bool, family: nat -> bool,
    leftover: Tree, index: bool, rename: bool, commit: bool, reportOpen: bool, report: bool, written: nat,
    kept: set<string>)

  function Exported(job: Job, n: nat): Tree
    requires n <= |job.families|
  {
    if n == 0 then map[] else Exported(job, n - 1) + job.exports(job.families[n - 1])
  }

  /** The whole review tree. */
  function Complete(job: Job): Tree {
    Exported(job, |job.families|)[INDEX := job.index]
  }

  /** The export, the staging and the rename all succeed. */
  ghost predicate Exports(job: Job, f: Faults) {
    !f.staging && !f.index && !f.rename && forall i | 0 <= i < |job.families| :: !f.family(i)
  }

  ghost predicate PathsResolve(f: Faults) {
    !f.outputPath && !f.reviewPath
  }

  /** The tree reaches the target: nothing fails up to the rename, and nothing was there. */
  ghost predicate Publishes(job: Job, f: Faults, before: Option<Tree>) {
    PathsResolve(f) && !f.cli && !f.version && before.None? && Exports(job, f)
  }

  // ---- What a complete tree holds, spelled out ----

  /** Family `i` is the last of the first `n` that exports `path`. */
  ghost predicate LastExport(job: Job, n: nat, path: string, i: int)
    requires n <= |job.families|
  {
    && 0 <= i < n && path in job.exports(job.families[i])
    && forall k | i < k < n :: path !in job.exports(job.families[k])
  }

  lemma SameLast(job: Job, m: nat, n: nat, path: string)
    requires n == m + 1 <= |job.families| && path !in job.exports(job.families[m])
    ensures forall i :: LastExport(job, n, path, i) <==> LastExport(job, m, path, i)
    ensures (exists i :: LastExport(job, n, path, i)) <==> exists i :: LastExport(job, m, path, i)
  {
    forall i ensures LastExport(job, n, path, i) <==> LastExport(job, m, path, i) {
    }
    if i :| LastExport(job, n, path, i) { assert LastExport(job, m, path, i); }
    if i :| LastExport(job, m, path, i) { assert LastExport(job, n, path, i); }
  }

  lemma {:induction false} ExportedExactly(job: Job, n: nat, path: string)
    requires n <= |job.families|
    ensures path in Exported(job, n) <==> exists i :: LastExport(job, n, path, i)
    ensures forall i | LastExport(job, n, path, i) ::
              path in Exported(job, n) && Exported(job, n)[path] == job.exports(job.families[i])[path]
  {
    if n > 0 {
      var last := job.exports(job.families[n - 1]);
      ExportedExactly(job, n - 1, path);
      assert Exported(job, n) == Exported(job, n - 1) + last;
      if path in last {
        assert LastExport(job, n, path, n - 1);
        forall i | LastExport(job, n, path, i) ensures i == n - 1 {
        }
      } else {
        SameLast(job, n - 1, n, path);
      }
    }
  }

  /** The complete tree holds the index, and every file of every family, the last one winning. */
  lemma CompleteExactly(job: Job, path: string)
    ensures "review-index.json" in Complete(job) && Complete(job)["review-index.json"] == job.index
    ensures path != "review-index.json" ==>
              && (path in Complete(job) <==> exists i :: LastExport(job, |job.families|, path, i))
              && forall i | LastExport(job, |job.families|, path, i) ::
                   path in Complete(job) && Complete(job)[path] == job.exports(job.families[i])[path]
  {
    ExportedExactly(job, |job.families|, path);
  }

  // ---- Removal ----

  /** The files that resist removal. */
  function Restrict(tree: Tree, kept: set<string>): Tree {
    map path | path in tree && path in kept :: tree[path]
  }

  /** What removal leaves: the directory goes with its last file. */
  function Removed(before: Option<Tree>, kept: set<string>): Option<Tree> {
    if before.None? || Restrict(before.value, kept) == map[] then None else Some(Restrict(before.value, kept))
  }

  lemma RestrictAll(tree: Tree, left: set<string>)
    requires tree.Keys <= left
    ensures Restrict(tree, left) == tree
  {
  }

  lemma RestrictLess(tree: Tree, left: set<string>, path: string)
    ensures Restrict(tree, left) - {path} == Restrict(tree, left - {path})
  {
  }

  lemma RemovedExactly(tree: Tree, kept: set<string>)
    ensures Removed(Some(tree), kept).Some? ==>
              forall path :: (path in Removed(Some(tree), kept).value <==> path in tree && path in kept)
                             && (path in tree && path in kept ==> Removed(Some(tree), kept).value[path] == tree[path])
    ensures Removed(Some(tree), kept) == None <==> kept !! tree.Keys
    ensures Removed(Some(tree), kept) == Some(tree) <==> tree != map[] && tree.Keys <= kept
  {
    assert forall path | path in tree && path in kept :: path in Restrict(tree, kept);
    if tree.Keys <= kept { assert Restrict(tree, kept) == tree; }
  }

  /** Files were only removed. */
  ghost predicate Shrinks(before: Option<Tree>, after: Option<Tree>) {
    after.Some? ==> before.Some? && after.value.Keys <= before.value.Keys
                    && forall k | k in after.value :: after.value[k] == before.value[k]
  }

  ghost function Previous(before: Option<Tree>, states: seq<Option<Tree>>, k: nat): Option<Tree>
    requires k <= |states|
  {
    if k == 0 then before else states[k - 1]
  }

  /** The target went from `before` through `states`, and every change only removed files. */
  ghost predicate OnlyRemoved(before: Option<Tree>, states: seq<Option<Tree>>) {
    forall k | 0 <= k < |states| :: Shrinks(Previous(before, states, k), states[k])
  }

  ghost function Last(before: Option<Tree>, states: seq<Option<Tree>>): Option<Tree> {
    Previous(before, states, |states|)
  }

  lemma ShrinksTransitive(a: Option<Tree>, b: Option<Tree>, c: Option<Tree>)
    requires Shrinks(a, b) && Shrinks(b, c)
    ensures Shrinks(a, c)
  {
  }

  /** During removal the target holds old files only, and once it is gone it stays gone. */
  lemma {:induction false} RemovalIsFinal(before: Option<Tree>, states: seq<Option<Tree>>, j: nat, k: nat)
    requires OnlyRemoved(before, states) && j <= k < |states|
    ensures Shrinks(before, states[k]) && Shrinks(states[j], states[k])
  {
    assert Shrinks(Previous(before, states, k), states[k]);
    if j < k {
      RemovalIsFinal(before, states, j, k - 1);
      ShrinksTransitive(states[j], states[k - 1], states[k]);
    } else if k > 0 {
      RemovalIsFinal(before, states, k - 1, k - 1);
    }
    if k > 0 { ShrinksTransitive(before, states[k - 1], states[k]); }
  }

  class Workspace {
    var review: Option<Tree>  // at the target path
    var staged: Option<Tree>  // inside the private temporary directory
    var report: Option<string>
    ghost var seen: seq<Option<Tree>>  // every state of the target path

    /** One change of the target during removal. */
    method SetReview(after: Option<Tree>, ghost start: Option<Tree>, ghost from: nat)
      requires from <= |seen| && Shrinks(review, after)
      requires OnlyRemoved(start, seen[from..]) && Last(start, seen[from..]) == review
      modifies this`review, this`seen
      ensures review == after && seen == old(seen) + [after]
      ensures OnlyRemoved(start, seen[from..]) && Last(start, seen[from..]) == review
    {
      assert (seen + [after])[from..] == seen[from..] + [after];
      review := after;
      seen := seen + [after];
    }

    /** `shutil.rmtree(review, ignore_errors=True)`, file by file: what resists removal stays, and
        every state on the way only lacks more files. */
    method RemoveReview(kept: set<string>)
      requires review.Some?
      modifies this`review, this`seen
      ensures review == Removed(old(review), kept)
      ensures |old(seen)| <= |seen| && seen[..|old(seen)|] == old(seen)
      ensures OnlyRemoved(old(review), seen[|old(seen)|..]) && Last(old(review), seen[|old(seen)|..]) == review
    {
      ghost var from := |seen|;
      var tree := review.value;
      var left := tree.Keys + kept;
      RestrictAll(tree, left);
      while left != kept
        invariant from <= |seen| && seen[..from] == old(seen)
        invariant kept <= left && review == Some(Restrict(tree, left))
        invariant OnlyRemoved(Some(tree), seen[from..]) && Last(Some(tree), seen[from..]) == review
        decreases left
      {
        var path :| path in left && path !in kept;
        RestrictLess(tree, left, path);
        SetReview(Some(review.value - {path}), Some(tree), from);
        left := left - {path};
      }
      if review.value == map[] {
        SetReview(None, Some(tree), from);
      }
    }

    /** `_run_report_families`: true when the tree was published.  The target is only ever absent or
        complete, and nothing stays staged. */
    method RunReportFamilies(job: Job, f: Faults) returns (ok: bool)
      modifies this`review, this`staged, this`seen
      ensures ok <==> old(review).None? && Exports(job, f)
      ensures review == if ok then Some(Complete(job)) else old(review)
      ensures old(staged).None? ==> staged.None?
      ensures seen == old(seen) + (if ok then [review] else [])
    {
      if review.Some? || f.staging {
        return false;
      }
      staged := Some(map[]);
      for i := 0 to |job.families|
        invariant forall k | 0 <= k < i :: !f.family(k)
        invariant staged == Some(Exported(job, i)) && review == old(review) && seen == old(seen)
      {
        if f.family(i) {
          staged := Some(staged.value + f.leftover);
          staged := None;
          return false;
        }
        staged := Some(staged.value + job.exports(job.families[i]));
      }
      if f.index {
        staged := None;
        return false;
      }
      staged := Some(staged.value[INDEX := job.index]);
      if f.rename {
        staged := None;
        return false;
      }
      review, staged := staged, None;
      seen := seen + [review];
      return true;
    }

    /** Exit 0 happens exactly when nothing fails and no tree was there; then the complete tree and the
        report are published.  After a failure the target holds what could not be removed of the tree
        that was published or there before, and the report is untouched or cut short.  The only state
        that is no removal is the complete tree appearing at once. */
    method Run(job: Job, f: Faults) returns (exit: nat)
      requires staged.None?
      modifies this
      ensures exit <= 1 && staged.None?
      ensures exit == 0 <==> Publishes(job, f, old(review)) && !f.commit && !f.reportOpen && !f.report
      ensures exit == 0 ==> review == Some(Complete(job)) && report == Some(job.report)
      ensures exit == 1 ==>
                review == (if !PathsResolve(f) then old(review)
                           else Removed(Published(job, f, old(review)), f.kept))
      ensures exit == 1 ==>
                report == (if Publishes(job, f, old(review)) && !f.commit && !f.reportOpen
                           then Some(CutShort(job.report, f.written))
                           else old(report))
      ensures old(review).Some? ==> exit == 1
      ensures old(review).Some? ==> (review == None <==> PathsResolve(f) && f.kept !! old(review).value.Keys)
      ensures var appeared := if Publishes(job, f, old(review)) then [Some(Complete(job))] else [];
              var n := |old(seen)| + |appeared|;
              && n <= |seen| && seen[..n] == old(seen) + appeared
              && OnlyRemoved(Published(job, f, old(review)), seen[n..])
    {
      if f.outputPath || f.reviewPath {
        assert seen[..|seen|] == seen + [];
        return 1;
      }
      var ok := !f.cli && !f.version;
      if ok {
        ok := RunReportFamilies(job, f);
      }
      ghost var n := |seen|;
      assert seen[..n] == seen;
      if ok && !f.commit && !f.reportOpen {
        if f.report {
          report := Some(CutShort(job.report, f.written));
        } else {
          report := Some(job.report);
          return 0;
        }
      }
      if review.Some? {
        if old(review).Some? { RemovedExactly(old(review).value, f.kept); }
        RemoveReview(f.kept);
      }
      return 1;
    }
  }

  /** The tree at the target when removal may start. */
  ghost function Published(job: Job, f: Faults, before: Option<Tree>): Option<Tree> {
    if Publishes(job, f, before) then Some(Complete(job)) else before
  }

  /** What a failing write gets out. */
  function CutShort(text: string, written: nat): (cut: string)
    ensures cut <= text && (|cut| == written || (cut == text && |text| <= written))
  {
    text[..if written < |text| then written else |text|]
  }
}
