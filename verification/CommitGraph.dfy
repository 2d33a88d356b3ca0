/** A commit graph, ancestry, and what comparing a merge base with a commit decides. */
module CommitGraph {
  import opened Wrappers

  type Commit = string

  /** The parents of every commit. */
  type Graph = map<Commit, set<Commit>>

  /** Parents exist and rank lower than their children; all ranks are below the bound. */
  ghost predicate Ranked(g: Graph, rank: map<Commit, nat>, bound: nat) {
    && rank.Keys == g.Keys
    && (forall c | c in g :: rank[c] < bound)
    && (forall c, p | c in g && p in g[c] :: p in g && rank[p] < rank[c])
  }

  /** `a` is reached from `b` by following `n` parent links. */
  ghost predicate Reaches(g: Graph, a: Commit, b: Commit, n: nat)
    decreases n
  {
    b in g && if n == 0 then a == b else exists p | p in g[b] :: Reaches(g, a, p, n - 1)
  }

  ghost predicate Ancestor(g: Graph, a: Commit, b: Commit) {
    exists n :: Reaches(g, a, b, n)
  }

  /** Parents exist and no commit is its own ancestor by way of a parent. */
  ghost predicate Acyclic(g: Graph) {
    && (forall c, p | c in g && p in g[c] :: p in g)
    && (forall c, p | c in g && p in g[c] :: !Ancestor(g, c, p))
  }

  lemma {:induction false} ReachesChain(g: Graph, a: Commit, b: Commit, c: Commit, n: nat, m: nat)
    requires Reaches(g, a, b, n) && Reaches(g, b, c, m)
    ensures Reaches(g, a, c, n + m)
    decreases m
  {
    if m > 0 {
      var p :| p in g[c] && Reaches(g, b, p, m - 1);
      ReachesChain(g, a, b, p, n, m - 1);
    }
  }

  lemma AncestorTransitive(g: Graph, a: Commit, b: Commit, c: Commit)
    requires Ancestor(g, a, b) && Ancestor(g, b, c)
    ensures Ancestor(g, a, c)
  {
    var n :| Reaches(g, a, b, n);
    var m :| Reaches(g, b, c, m);
    ReachesChain(g, a, b, c, n, m);
  }

  lemma {:induction false} ReachesLowersRank(g: Graph, rank: map<Commit, nat>, bound: nat, a: Commit, b: Commit, n: nat)
    requires Ranked(g, rank, bound) && Reaches(g, a, b, n)
    ensures a in g && rank[a] + n <= rank[b]
    decreases n
  {
    if n > 0 {
      var p :| p in g[b] && Reaches(g, a, p, n - 1);
      ReachesLowersRank(g, rank, bound, a, p, n - 1);
    }
  }

  // ---- Acyclic graphs are the ranked ones ----

  ghost function Ancestors(g: Graph, c: Commit): set<Commit> {
    set a | a in g && Ancestor(g, a, c)
  }

  lemma {:induction false} SmallerSet<T>(a: set<T>, b: set<T>)
    requires a < b
    ensures |a| < |b|
  {
    var x :| x in b && x !in a;
    assert a <= b - {x};
    if a == {} {
      assert |b| == |b - {x}| + 1;
    } else {
      var y :| y in a;
      SmallerSet(a - {y}, b - {y});
    }
  }

  lemma ParentIsAncestor(g: Graph, p: Commit, c: Commit)
    requires c in g && p in g[c] && p in g
    ensures Ancestor(g, p, c)
  {
    assert Reaches(g, p, p, 0);
    assert Reaches(g, p, c, 1);
  }

  /** The number of ancestors ranks an acyclic graph. */
  lemma ParentHasFewerAncestors(g: Graph, p: Commit, c: Commit)
    requires Acyclic(g) && c in g && p in g[c]
    ensures |Ancestors(g, p)| < |Ancestors(g, c)| <= |g|
  {
    ParentIsAncestor(g, p, c);
    assert Reaches(g, c, c, 0);
    forall a | a in Ancestors(g, p) ensures a in Ancestors(g, c) {
      AncestorTransitive(g, a, p, c);
    }
    assert c in Ancestors(g, c) && c !in Ancestors(g, p);
    SmallerSet(Ancestors(g, p), Ancestors(g, c));
    SubsetSize(Ancestors(g, c), g.Keys);
  }

  lemma {:induction false} SubsetSize<T>(a: set<T>, b: set<T>)
    requires a <= b
    ensures |a| <= |b|
  {
    if a != b { SmallerSet(a, b); }
  }

  /** On finite graphs, no cycles and a ranking are the same thing. */
  lemma AcyclicExactly(g: Graph)
    ensures Acyclic(g) <==> exists rank, bound :: Ranked(g, rank, bound)
  {
    if Acyclic(g) {
      var rank: map<Commit, nat> := map c | c in g :: |Ancestors(g, c)|;
      forall c | c in g ensures |Ancestors(g, c)| < |g| + 1 {
        SubsetSize(Ancestors(g, c), g.Keys);
      }
      forall c, p | c in g && p in g[c] ensures p in g && rank[p] < rank[c] {
        ParentHasFewerAncestors(g, p, c);
      }
      assert Ranked(g, rank, |g| + 1);
    }
    forall rank: map<Commit, nat>, bound: nat | Ranked(g, rank, bound) ensures Acyclic(g) {
      RankedIsAcyclic(g, rank, bound);
    }
  }

  lemma RankedIsAcyclic(g: Graph, rank: map<Commit, nat>, bound: nat)
    requires Ranked(g, rank, bound)
    ensures Acyclic(g)
  {
    forall c, p | c in g && p in g[c] ensures !Ancestor(g, c, p) {
      forall n | Reaches(g, c, p, n) ensures false {
        ReachesLowersRank(g, rank, bound, c, p, n);
      }
    }
  }

  lemma AncestorAntisymmetric(g: Graph, a: Commit, b: Commit)
    requires Acyclic(g) && Ancestor(g, a, b) && Ancestor(g, b, a)
    ensures a == b
  {
    AcyclicExactly(g);
    var rank: map<Commit, nat>, bound: nat :| Ranked(g, rank, bound);
    var n :| Reaches(g, a, b, n);
    var m :| Reaches(g, b, a, m);
    ReachesLowersRank(g, rank, bound, a, b, n);
    ReachesLowersRank(g, rank, bound, b, a, m);
  }

  // ---- Merge bases ----

  ghost predicate CommonAncestor(g: Graph, a: Commit, b: Commit, c: Commit) {
    Ancestor(g, c, a) && Ancestor(g, c, b)
  }

  /** A common ancestor that is not an ancestor of another one. */
  ghost predicate BestCommonAncestor(g: Graph, a: Commit, b: Commit, c: Commit) {
    && CommonAncestor(g, a, b, c)
    && forall d | CommonAncestor(g, a, b, d) && Ancestor(g, c, d) :: d == c
  }

  /** What `git merge-base a b` may answer: one of the best common ancestors, nothing if none. */
  ghost predicate MergeBaseAnswer(g: Graph, a: Commit, b: Commit, answer: Option<Commit>) {
    match answer
    case Some(c) => BestCommonAncestor(g, a, b, c)
    case None => forall c :: !BestCommonAncestor(g, a, b, c)
  }

  /** In an acyclic graph the source is a best common ancestor of itself and main exactly when it
      is an ancestor of main, and it is then the only one. */
  lemma MergeBaseTheorem(g: Graph, source: Commit, main: Commit)
    requires Acyclic(g) && source in g
    ensures BestCommonAncestor(g, source, main, source) <==> Ancestor(g, source, main)
    ensures Ancestor(g, source, main) ==> forall c | BestCommonAncestor(g, source, main, c) :: c == source
  {
    assert Reaches(g, source, source, 0);
    if Ancestor(g, source, main) {
      forall d | CommonAncestor(g, source, main, d) && Ancestor(g, source, d) ensures d == source {
        AncestorAntisymmetric(g, source, d);
      }
      assert CommonAncestor(g, source, main, source);
    }
  }

  /** So comparing git's answer with the source decides ancestry, whichever answer git gives. */
  lemma MergeBaseDecidesAncestry(g: Graph, source: Commit, main: Commit, answer: Option<Commit>)
    requires Acyclic(g) && MergeBaseAnswer(g, source, main, answer)
    ensures answer == Some(source) <==> Ancestor(g, source, main)
  {
    if Ancestor(g, source, main) {
      AncestorExists(g, source, main);
      MergeBaseTheorem(g, source, main);
    }
  }

  lemma AncestorExists(g: Graph, a: Commit, b: Commit)
    requires Acyclic(g) && Ancestor(g, a, b)
    ensures a in g
  {
    AcyclicExactly(g);
    var rank: map<Commit, nat>, bound: nat :| Ranked(g, rank, bound);
    var n :| Reaches(g, a, b, n);
    ReachesLowersRank(g, rank, bound, a, b, n);
  }

  /** Above every common ancestor there is a best one. */
  lemma {:induction false} BestExists(
    g: Graph, rank: map<Commit, nat>, bound: nat, a: Commit, b: Commit, c: Commit) returns (best: Commit)
    requires Ranked(g, rank, bound) && CommonAncestor(g, a, b, c) && c in g
    ensures BestCommonAncestor(g, a, b, best) && Ancestor(g, c, best)
    decreases bound - rank[c]
  {
    if d :| CommonAncestor(g, a, b, d) && Ancestor(g, c, d) && d != c {
      var n :| Reaches(g, c, d, n);
      var m :| Reaches(g, d, a, m);
      ReachesLowersRank(g, rank, bound, c, d, n);
      ReachesLowersRank(g, rank, bound, d, a, m);
      best := BestExists(g, rank, bound, a, b, d);
      AncestorTransitive(g, c, d, best);
    } else {
      best := c;
      assert Reaches(g, c, c, 0);
    }
  }

  /** So git answers nothing exactly when the two histories are unrelated. */
  lemma NoAnswerExactly(g: Graph, a: Commit, b: Commit, answer: Option<Commit>)
    requires Acyclic(g) && MergeBaseAnswer(g, a, b, answer)
    ensures answer.None? <==> forall c :: !CommonAncestor(g, a, b, c)
  {
    if c :| CommonAncestor(g, a, b, c) {
      AncestorExists(g, c, a);
      AcyclicExactly(g);
      var rank: map<Commit, nat>, bound: nat :| Ranked(g, rank, bound);
      var best := BestExists(g, rank, bound, a, b, c);
    }
  }

  // ---- Growth ----

  /** `h` has every commit of `g`, with the same parents. */
  ghost predicate Grows(g: Graph, h: Graph) {
    g.Keys <= h.Keys && forall c | c in g :: h[c] == g[c]
  }

  lemma {:induction false} ReachesGrows(g: Graph, h: Graph, a: Commit, b: Commit, n: nat)
    requires Grows(g, h) && Reaches(g, a, b, n)
    ensures Reaches(h, a, b, n)
    decreases n
  {
    if n > 0 {
      var p :| p in g[b] && Reaches(g, a, p, n - 1);
      ReachesGrows(g, h, a, p, n - 1);
    }
  }

  lemma AncestorGrows(g: Graph, h: Graph, a: Commit, b: Commit)
    requires Grows(g, h) && Ancestor(g, a, b)
    ensures Ancestor(h, a, b)
  {
    var n :| Reaches(g, a, b, n);
    ReachesGrows(g, h, a, b, n);
  }

  /** A new commit on top of existing ones keeps the graph acyclic. */
  lemma CommitKeepsAcyclic(g: Graph, id: Commit, parents: set<Commit>)
    requires Acyclic(g) && id !in g && parents <= g.Keys
    ensures Acyclic(g[id := parents]) && Grows(g, g[id := parents])
  {
    AcyclicExactly(g);
    var rank: map<Commit, nat>, bound: nat :| Ranked(g, rank, bound);
    RankedIsAcyclic(g[id := parents], rank[id := bound], bound + 1);
  }
}
