/** Version texts spelled out, and the precedence of Semantic Versioning (section 11 of version 2.0.0):
    a reader and an order that know nothing of how the Cargo version is made. */
module SemVer {
  import opened Wrappers
  import opened Sequences
  import opened TextOrder
  import V = Versions

  // ---- Decimal numbers ----

  const DIGITS := "0123456789"

  ghost predicate AllDigits(s: string) {
    s != "" && forall c <- s :: c in DIGITS
  }

  /** The number a text of digits stands for, read from the left. */
  function Read(s: string, acc: int): int {
    if s == "" then acc else Read(s[1..], 10 * acc + (s[0] as int - '0' as int))
  }

  /** `s` is the decimal text of `n`, without leading zeros. */
  ghost predicate Decimal(s: string, n: nat) {
    AllDigits(s) && (s[0] == '0' ==> |s| == 1) && Read(s, 0) == n
  }

  lemma DigitIsDigit(c: char)
    ensures c in DIGITS <==> V.IsDigit(c)
  {
    if V.IsDigit(c) { assert DIGITS[c as int - '0' as int] == c; }
  }

  lemma {:induction false} ReadAppend(s: string, c: char, acc: int)
    ensures Read(s + [c], acc) == 10 * Read(s, acc) + (c as int - '0' as int)
  {
    if s == "" {
      assert s + [c] == [c] && [c][1..] == "";
      assert Read([c], acc) == Read("", 10 * acc + (c as int - '0' as int));
    } else {
      TailOfConcat(s, [c]);
      ReadAppend(s[1..], c, 10 * acc + (s[0] as int - '0' as int));
    }
  }

  lemma {:induction false} ReadIsValue(s: string)
    requires forall i | 0 <= i < |s| :: V.IsDigit(s[i])
    ensures Read(s, 0) == V.Value(s)
  {
    if s != "" {
      var init, c := s[..|s| - 1], s[|s| - 1];
      ReadIsValue(init);
      ReadAppend(init, c, 0);
      assert s == init + [c];
    }
  }

  lemma DigitsAreAll(s: string)
    ensures AllDigits(s) <==> s != "" && forall i | 0 <= i < |s| :: V.IsDigit(s[i])
  {
    forall c ensures c in DIGITS <==> V.IsDigit(c) { DigitIsDigit(c); }
  }

  /** There is one such text for every number. */
  lemma DecimalExactly(s: string, n: nat)
    ensures Decimal(s, n) <==> s == V.Digits(n)
  {
    DigitsAreAll(s);
    V.DigitsAreCanonical(n);
    ReadIsValue(V.Digits(n));
    DigitsAreAll(V.Digits(n));
    if Decimal(s, n) {
      ReadIsValue(s);
      V.CanonicalIsDigits(s);
    }
  }

  // ---- The two spellings ----

  function Core(a: string, b: string, c: string): string {
    a + ("." + (b + ("." + c)))
  }

  /** MAJOR.MINOR.PATCH with `.devN` or `rcN` behind it. */
  function PythonText(core: string, stage: V.Stage, n: string): string {
    match stage
    case Development(_) => core + (".dev" + n)
    case ReleaseCandidate(_) => core + ("rc" + n)
    case Final => core
  }

  /** MAJOR.MINOR.PATCH with `-dev.N` or `-rc.N` behind it. */
  function RustText(core: string, stage: V.Stage, n: string): string {
    match stage
    case Development(_) => core + ("-dev." + n)
    case ReleaseCandidate(_) => core + ("-rc." + n)
    case Final => core
  }

  function StageNumber(stage: V.Stage): nat {
    match stage
    case Development(n) => n
    case ReleaseCandidate(n) => n
    case Final => 0
  }

  /** The texts of the numbers of a version. */
  ghost predicate Numbers(v: V.Version, a: string, b: string, c: string, n: string) {
    && Decimal(a, v.major) && Decimal(b, v.minor) && Decimal(c, v.patch) && Decimal(n, StageNumber(v.stage))
  }

  lemma NumbersExist(v: V.Version) returns (a: string, b: string, c: string, n: string)
    ensures Numbers(v, a, b, c, n)
  {
    a, b, c, n := V.Digits(v.major), V.Digits(v.minor), V.Digits(v.patch), V.Digits(StageNumber(v.stage));
    DecimalExactly(a, v.major);
    DecimalExactly(b, v.minor);
    DecimalExactly(c, v.patch);
    DecimalExactly(n, StageNumber(v.stage));
  }

  lemma NumbersAre(v: V.Version, a: string, b: string, c: string, n: string)
    requires Numbers(v, a, b, c, n)
    ensures a == V.Digits(v.major) && b == V.Digits(v.minor) && c == V.Digits(v.patch)
    ensures n == V.Digits(StageNumber(v.stage))
  {
    DecimalExactly(a, v.major);
    DecimalExactly(b, v.minor);
    DecimalExactly(c, v.patch);
    DecimalExactly(n, StageNumber(v.stage));
  }

  /** The grammar accepts exactly the Python spellings, and gives the numbers they show. */
  lemma PythonSpelling(v: V.Version, a: string, b: string, c: string, n: string, s: string)
    requires Numbers(v, a, b, c, n)
    ensures V.Parse(s) == Some(v) <==> s == PythonText(Core(a, b, c), v.stage, n)
  {
    NumbersAre(v, a, b, c, n);
    ShowIs(v, a, b, c, n);
    V.ParseInvertsShow(v);
    if V.Parse(s).Some? { V.ParsedIsShown(s); }
  }

  lemma ShowIs(v: V.Version, a: string, b: string, c: string, n: string)
    requires a == V.Digits(v.major) && b == V.Digits(v.minor) && c == V.Digits(v.patch)
    requires n == V.Digits(StageNumber(v.stage))
    ensures V.Show(v) == PythonText(Core(a, b, c), v.stage, n)
  {
    var suffix := V.Suffix(v.stage);
    CoreAppend(a, b, c, suffix);
    assert c + "" == c;
  }

  lemma CoreAppend(a: string, b: string, c: string, suffix: string)
    ensures Core(a, b, c) + suffix == a + ("." + (b + ("." + (c + suffix))))
  {
    Associative(".", c, suffix);
    Associative(b, "." + c, suffix);
    Associative(".", b + ("." + c), suffix);
    Associative(a, "." + (b + ("." + c)), suffix);
  }

  /** The mapping to Cargo gives exactly the Rust spelling. */
  lemma RustSpelling(v: V.Version, a: string, b: string, c: string, n: string)
    requires Numbers(v, a, b, c, n)
    ensures V.CargoVersion(v) == RustText(Core(a, b, c), v.stage, n) && V.Base(v) == Core(a, b, c)
  {
    NumbersAre(v, a, b, c, n);
    assert V.Base(v) + "" == V.Base(v);
  }

  // ---- Reading a Semantic Version ----

  datatype Identifier = Numeric(n: int) | Alpha(text: string)

  datatype SemanticVersion = SemanticVersion(major: int, minor: int, patch: int, pre: seq<Identifier>)

  /** The pieces of `s` between the separators. */
  function Pieces(s: string, sep: char): (ps: seq<string>)
    ensures |ps| > 0
  {
    if s == "" then [""]
    else
      var rest := Pieces(s[1..], sep);
      if s[0] == sep then [""] + rest else [[s[0]] + rest[0]] + rest[1..]
  }

  function DashAt(s: string): (k: nat)
    ensures k <= |s|
  {
    if s == "" || s[0] == '-' then 0 else 1 + DashAt(s[1..])
  }

  ghost function IdentifierOf(s: string): Identifier {
    if AllDigits(s) then Numeric(Read(s, 0)) else Alpha(s)
  }

  ghost function Identifiers(ps: seq<string>): seq<Identifier> {
    if ps == [] then [] else [IdentifierOf(ps[0])] + Identifiers(ps[1..])
  }

  /** Three numbers, and the identifiers behind the first dash. */
  ghost function Parse(s: string): Option<SemanticVersion> {
    var k := DashAt(s);
    var core := Pieces(s[..k], '.');
    if |core| != 3 || !AllDigits(core[0]) || !AllDigits(core[1]) || !AllDigits(core[2]) then None
    else
      Some(SemanticVersion(Read(core[0], 0), Read(core[1], 0), Read(core[2], 0),
                           if k == |s| then [] else Identifiers(Pieces(s[k + 1..], '.'))))
  }

  // ---- The two orders ----

  predicate CoreBefore(a: int, b: int, c: int, x: int, y: int, z: int) {
    a < x || (a == x && (b < y || (b == y && c < z)))
  }

  /** Numeric identifiers compare as numbers and come before texts; texts compare by character. */
  predicate IdentifierBefore(x: Identifier, y: Identifier) {
    match (x, y)
    case (Numeric(m), Numeric(n)) => m < n
    case (Numeric(_), Alpha(_)) => true
    case (Alpha(_), Numeric(_)) => false
    case (Alpha(s), Alpha(t)) => s != t && TextLe(s, t)
  }

  predicate IdentifiersBefore(xs: seq<Identifier>, ys: seq<Identifier>) {
    if ys == [] then false
    else if xs == [] then true
    else IdentifierBefore(xs[0], ys[0]) || (xs[0] == ys[0] && IdentifiersBefore(xs[1..], ys[1..]))
  }

  /** A version with identifiers comes before the same version without. */
  predicate PreBefore(xs: seq<Identifier>, ys: seq<Identifier>) {
    if xs == [] then false else ys == [] || IdentifiersBefore(xs, ys)
  }

  predicate Before(s: SemanticVersion, t: SemanticVersion) {
    || CoreBefore(s.major, s.minor, s.patch, t.major, t.minor, t.patch)
    || (s.major == t.major && s.minor == t.minor && s.patch == t.patch && PreBefore(s.pre, t.pre))
  }

  /** Development comes before candidates, and candidates before the final version. */
  predicate StageBefore(s: V.Stage, t: V.Stage) {
    match (s, t)
    case (Development(m), Development(n)) => m < n
    case (Development(_), _) => true
    case (ReleaseCandidate(m), ReleaseCandidate(n)) => m < n
    case (ReleaseCandidate(_), Final) => true
    case _ => false
  }

  predicate PythonBefore(v: V.Version, w: V.Version) {
    || CoreBefore(v.major, v.minor, v.patch, w.major, w.minor, w.patch)
    || (v.major == w.major && v.minor == w.minor && v.patch == w.patch && StageBefore(v.stage, w.stage))
  }

  // ---- The mapping preserves precedence ----

  lemma {:induction false} PiecesNone(s: string, sep: char)
    requires sep !in s
    ensures Pieces(s, sep) == [s]
  {
    if s != "" {
      assert forall c <- s[1..] :: c in s;
      PiecesNone(s[1..], sep);
      assert s[0] in s && [s[0]] + s[1..] == s;
    }
  }

  lemma {:induction false} PiecesFirst(p: string, rest: string, sep: char)
    requires sep !in p
    ensures Pieces(p + ([sep] + rest), sep) == [p] + Pieces(rest, sep)
  {
    if p == "" {
      assert p + ([sep] + rest) == [sep] + rest && ([sep] + rest)[1..] == rest;
    } else {
      assert p[0] in p && forall c <- p[1..] :: c in p;
      TailOfConcat(p, [sep] + rest);
      PiecesFirst(p[1..], rest, sep);
      assert [p[0]] + p[1..] == p;
      assert ([p[1..]] + Pieces(rest, sep))[1..] == Pieces(rest, sep);
    }
  }

  lemma {:induction false} DashBehind(s: string, rest: string)
    requires '-' !in s && (rest != "" ==> rest[0] == '-')
    ensures DashAt(s + rest) == |s|
  {
    if s == "" {
      assert s + rest == rest;
    } else {
      assert s[0] in s && forall c <- s[1..] :: c in s;
      TailOfConcat(s, rest);
      DashBehind(s[1..], rest);
    }
  }

  lemma DecimalHasNo(s: string, n: nat, c: char)
    requires Decimal(s, n) && c !in DIGITS
    ensures c !in s
  {
  }

  lemma CorePieces(v: V.Version, a: string, b: string, c: string, n: string)
    requires Numbers(v, a, b, c, n)
    ensures Pieces(Core(a, b, c), '.') == [a, b, c] && '-' !in Core(a, b, c)
  {
    DecimalHasNo(a, v.major, '.');
    DecimalHasNo(b, v.minor, '.');
    DecimalHasNo(c, v.patch, '.');
    DecimalHasNo(a, v.major, '-');
    DecimalHasNo(b, v.minor, '-');
    DecimalHasNo(c, v.patch, '-');
    PiecesFirst(a, b + ("." + c), '.');
    PiecesFirst(b, c, '.');
    PiecesNone(c, '.');
    assert [a] + ([b] + [c]) == [a, b, c];
  }

  /** What the identifiers of a stage are. */
  function PreOf(stage: V.Stage): seq<Identifier> {
    match stage
    case Development(n) => [Alpha("dev"), Numeric(n)]
    case ReleaseCandidate(n) => [Alpha("rc"), Numeric(n)]
    case Final => []
  }

  lemma TwoIdentifiers(word: string, n: string, k: nat)
    requires word != "" && word[0] !in DIGITS && '.' !in word && Decimal(n, k)
    ensures Identifiers(Pieces(word + ("." + n), '.')) == [Alpha(word), Numeric(k)]
  {
    DecimalHasNo(n, k, '.');
    PiecesFirst(word, n, '.');
    PiecesNone(n, '.');
    assert word[0] in word && !AllDigits(word);
    assert Pieces(word + ("." + n), '.') == [word, n] && [word, n][1..] == [n] && [n][1..] == [];
    assert Identifiers([n]) == [Numeric(k)];
  }

  /** Behind the dash. */
  lemma PreRead(core: string, word: string, n: string, k: nat)
    requires '-' !in core && word != "" && word[0] !in DIGITS && '.' !in word && Decimal(n, k)
    ensures var s := core + ("-" + (word + ("." + n)));
            && DashAt(s) == |core| < |s| && s[..|core|] == core
            && Identifiers(Pieces(s[|core| + 1..], '.')) == [Alpha(word), Numeric(k)]
  {
    var rest := word + ("." + n);
    var s := core + ("-" + rest);
    DashBehind(core, "-" + rest);
    assert s[..|core|] == core && s[|core| + 1..] == rest;
    TwoIdentifiers(word, n, k);
  }

  lemma FinalRead(core: string)
    requires '-' !in core
    ensures DashAt(core) == |core| && core[..|core|] == core
  {
    DashBehind(core, "");
    assert core + "" == core;
  }

  lemma SuffixSplits(n: string)
    ensures "-dev." + n == "-" + ("dev" + ("." + n)) && "-rc." + n == "-" + ("rc" + ("." + n))
  {
  }

  lemma ParsePre(v: V.Version, a: string, b: string, c: string, n: string, word: string, k: nat)
    requires Numbers(v, a, b, c, n) && Decimal(n, k)
    requires word != "" && word[0] !in DIGITS && '.' !in word
    ensures Parse(Core(a, b, c) + ("-" + (word + ("." + n))))
            == Some(SemanticVersion(v.major, v.minor, v.patch, [Alpha(word), Numeric(k)]))
  {
    CorePieces(v, a, b, c, n);
    PreRead(Core(a, b, c), word, n, k);
  }

  lemma ParseFinal(v: V.Version, a: string, b: string, c: string, n: string)
    requires Numbers(v, a, b, c, n)
    ensures Parse(Core(a, b, c)) == Some(SemanticVersion(v.major, v.minor, v.patch, []))
  {
    CorePieces(v, a, b, c, n);
    FinalRead(Core(a, b, c));
  }

  lemma RustTextRead(v: V.Version, a: string, b: string, c: string, n: string)
    requires Numbers(v, a, b, c, n)
    ensures Parse(RustText(Core(a, b, c), v.stage, n))
            == Some(SemanticVersion(v.major, v.minor, v.patch, PreOf(v.stage)))
  {
    SuffixSplits(n);
    match v.stage
    case Development(k) => ParsePre(v, a, b, c, n, "dev", k);
    case ReleaseCandidate(k) => ParsePre(v, a, b, c, n, "rc", k);
    case Final => ParseFinal(v, a, b, c, n);
  }

  /** Every Cargo version is a Semantic Version that shows the numbers and the stage. */
  lemma CargoRead(v: V.Version)
    ensures Parse(V.CargoVersion(v)) == Some(SemanticVersion(v.major, v.minor, v.patch, PreOf(v.stage)))
  {
    var a, b, c, n := NumbersExist(v);
    RustSpelling(v, a, b, c, n);
    RustTextRead(v, a, b, c, n);
  }

  lemma NumericOrder(m: int, n: int)
    ensures IdentifiersBefore([Numeric(m)], [Numeric(n)]) <==> m < n
  {
    assert [Numeric(m)][1..] == [] && [Numeric(n)][1..] == [];
    assert !IdentifiersBefore([], []);
  }

  lemma TwoIdentifiersOrder(s: string, m: int, t: string, n: int)
    ensures IdentifiersBefore([Alpha(s), Numeric(m)], [Alpha(t), Numeric(n)])
            <==> (s != t && TextLe(s, t)) || (s == t && m < n)
  {
    var x, y := [Alpha(s), Numeric(m)], [Alpha(t), Numeric(n)];
    assert x[1..] == [Numeric(m)] && y[1..] == [Numeric(n)];
    NumericOrder(m, n);
  }

  lemma DevBeforeRc()
    ensures "dev" != "rc" && TextLe("dev", "rc") && !TextLe("rc", "dev")
  {
    assert "dev"[0] < "rc"[0];
  }

  lemma StageOrder(s: V.Stage, t: V.Stage)
    ensures StageBefore(s, t) <==> PreBefore(PreOf(s), PreOf(t))
  {
    DevBeforeRc();
    match (s, t)
    case (Development(m), Development(n)) => TwoIdentifiersOrder("dev", m, "dev", n);
    case (Development(m), ReleaseCandidate(n)) => TwoIdentifiersOrder("dev", m, "rc", n);
    case (ReleaseCandidate(m), Development(n)) => TwoIdentifiersOrder("rc", m, "dev", n);
    case (ReleaseCandidate(m), ReleaseCandidate(n)) => TwoIdentifiersOrder("rc", m, "rc", n);
    case (Final, _) =>
    case (_, Final) =>
  }

  /** The Cargo versions stand in the order of the Python versions. */
  lemma PrecedencePreserved(v: V.Version, w: V.Version)
    ensures Parse(V.CargoVersion(v)).Some? && Parse(V.CargoVersion(w)).Some?
    ensures PythonBefore(v, w) <==> Before(Parse(V.CargoVersion(v)).value, Parse(V.CargoVersion(w)).value)
  {
    CargoRead(v);
    CargoRead(w);
    StageOrder(v.stage, w.stage);
  }
}
