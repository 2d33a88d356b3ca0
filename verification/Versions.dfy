/** The supported version grammar: MAJOR.MINOR.PATCH with an optional `.devN` or `rcN`. */
module Versions {
  import opened Wrappers
  import opened Sequences

  datatype Stage = Development(dev: nat) | ReleaseCandidate(rc: nat) | Final

  datatype Version = Version(major: nat, minor: nat, patch: nat, stage: Stage)

  // ---- Numbers without leading zeros ----

  predicate IsDigit(c: char) {
    '0' <= c <= '9'
  }

  function Digit(n: nat): char
    requires n < 10
  {
    ('0' as int + n) as char
  }

  function Digits(n: nat): string {
    if n < 10 then [Digit(n)] else Digits(n / 10) + [Digit(n % 10)]
  }

  function Value(digits: string): nat
    requires forall i | 0 <= i < |digits| :: IsDigit(digits[i])
  {
    if digits == "" then 0
    else
      var last := digits[|digits| - 1];
      assert IsDigit(last);
      Value(digits[..|digits| - 1]) * 10 + (last as int - '0' as int)
  }

  predicate Canonical(digits: string) {
    && digits != "" && (forall i | 0 <= i < |digits| :: IsDigit(digits[i]))
    && (digits[0] == '0' ==> |digits| == 1)
  }

  lemma {:induction false} DigitsAreCanonical(n: nat)
    ensures Canonical(Digits(n)) && Value(Digits(n)) == n
    ensures n > 0 ==> Digits(n)[0] != '0'
  {
    if n >= 10 {
      DigitsAreCanonical(n / 10);
      var d := Digits(n);
      assert d[..|d| - 1] == Digits(n / 10);
    }
  }

  lemma {:induction false} CanonicalIsDigits(s: string)
    requires Canonical(s)
    ensures Digits(Value(s)) == s && (s[0] != '0' ==> Value(s) > 0)
  {
    if |s| > 1 {
      var init, last := s[..|s| - 1], s[|s| - 1];
      CanonicalIsDigits(init);
      assert Value(s) / 10 == Value(init) && Value(s) % 10 == last as int - '0' as int;
      assert s == init + [last];
    }
  }

  function DigitRun(s: string): (k: nat)
    ensures k <= |s| && (k < |s| ==> !IsDigit(s[k]))
    ensures forall i | 0 <= i < k :: IsDigit(s[i])
  {
    if s == "" || !IsDigit(s[0]) then 0 else 1 + DigitRun(s[1..])
  }

  /** `(0|[1-9]\d*)` at the start of `s`, and what follows. */
  function Number(s: string): Option<(nat, string)> {
    var k := DigitRun(s);
    if Canonical(s[..k]) then Some((Value(s[..k]), s[k..])) else None
  }

  predicate NumberEnds(rest: string) {
    rest != "" ==> !IsDigit(rest[0])
  }

  lemma NumberReads(n: nat, rest: string)
    requires NumberEnds(rest)
    ensures Number(Digits(n) + rest) == Some((n, rest))
  {
    DigitsAreCanonical(n);
    var d, s := Digits(n), Digits(n) + rest;
    assert forall i | 0 <= i < |d| :: s[i] == d[i];
    assert rest != "" ==> s[|d|] == rest[0];
    assert DigitRun(s) == |d| && s[..|d|] == d && s[|d|..] == rest;
  }

  lemma NumberWasRead(s: string)
    requires Number(s).Some?
    ensures var (n, rest) := Number(s).value; s == Digits(n) + rest && NumberEnds(rest)
  {
    CanonicalIsDigits(s[..DigitRun(s)]);
  }

  // ---- Versions ----

  function Base(v: Version): string {
    Digits(v.major) + ("." + (Digits(v.minor) + ("." + Digits(v.patch))))
  }

  function Suffix(stage: Stage): string {
    match stage
    case Development(n) => ".dev" + Digits(n)
    case ReleaseCandidate(n) => "rc" + Digits(n)
    case Final => ""
  }

  function Show(v: Version): string {
    Digits(v.major) + ("." + (Digits(v.minor) + ("." + (Digits(v.patch) + Suffix(v.stage)))))
  }

  function ParseStage(s: string): Option<Stage> {
    if s == "" then Some(Final)
    else if ".dev" <= s then
      match Number(s[4..]) case Some((n, "")) => Some(Development(n)) case _ => None
    else if "rc" <= s then
      match Number(s[2..]) case Some((n, "")) => Some(ReleaseCandidate(n)) case _ => None
    else None
  }

  /** A number and the text after the dot that must follow it. */
  function NumberDot(s: string): Option<(nat, string)> {
    match Number(s)
    case Some((n, rest)) => if rest != "" && rest[0] == '.' then Some((n, rest[1..])) else None
    case None => None
  }

  function Parse(s: string): Option<Version> {
    match NumberDot(s)
    case None => None
    case Some((major, s1)) =>
      match NumberDot(s1)
      case None => None
      case Some((minor, s2)) =>
        match Number(s2)
        case None => None
        case Some((patch, s3)) =>
          match ParseStage(s3)
          case None => None
          case Some(stage) => Some(Version(major, minor, patch, stage))
  }

  lemma NumberDotReads(n: nat, rest: string)
    ensures NumberDot(Digits(n) + ("." + rest)) == Some((n, rest))
  {
    NumberReads(n, "." + rest);
    assert ("." + rest)[1..] == rest;
  }

  lemma NumberDotWasRead(s: string)
    requires NumberDot(s).Some?
    ensures var (n, rest) := NumberDot(s).value; s == Digits(n) + ("." + rest)
  {
    NumberWasRead(s);
    var (n, dotted) := Number(s).value;
    assert dotted == "." + dotted[1..];
  }

  lemma StageReads(stage: Stage)
    ensures ParseStage(Suffix(stage)) == Some(stage) && NumberEnds(Suffix(stage))
  {
    match stage
    case Development(n) =>
      NumberReads(n, "");
      assert Digits(n) + "" == Digits(n) && (".dev" + Digits(n))[4..] == Digits(n);
      assert (".dev" + Digits(n))[..4] == ".dev";
    case ReleaseCandidate(n) =>
      NumberReads(n, "");
      assert Digits(n) + "" == Digits(n) && ("rc" + Digits(n))[2..] == Digits(n);
      assert ("rc" + Digits(n))[..2] == "rc" && ("rc" + Digits(n))[0] == 'r';
    case Final =>
  }

  lemma StageWasRead(s: string)
    requires ParseStage(s).Some?
    ensures s == Suffix(ParseStage(s).value)
  {
    if s == "" {
    } else if ".dev" <= s {
      NumberWasRead(s[4..]);
      assert s == ".dev" + s[4..];
    } else {
      NumberWasRead(s[2..]);
      assert s == "rc" + s[2..];
    }
  }

  /** The grammar is exactly the set of shown versions, read back unambiguously. */
  lemma ParseInvertsShow(v: Version)
    ensures Parse(Show(v)) == Some(v)
  {
    NumberDotReads(v.major, Digits(v.minor) + ("." + (Digits(v.patch) + Suffix(v.stage))));
    NumberDotReads(v.minor, Digits(v.patch) + Suffix(v.stage));
    StageReads(v.stage);
    NumberReads(v.patch, Suffix(v.stage));
  }

  lemma ParsedIsShown(s: string)
    requires Parse(s).Some?
    ensures Show(Parse(s).value) == s
  {
    NumberDotWasRead(s);
    var (_, s1) := NumberDot(s).value;
    NumberDotWasRead(s1);
    var (_, s2) := NumberDot(s1).value;
    NumberWasRead(s2);
    StageWasRead(Number(s2).value.1);
  }

  /** A final version is its own base. */
  lemma FinalIsBase(v: Version)
    requires v.stage.Final?
    ensures Show(v) == Base(v)
  {
  }

  /** `python_to_cargo_version`. */
  function CargoVersion(v: Version): string {
    Base(v) + CargoSuffix(v.stage)
  }

  function CargoSuffix(stage: Stage): string {
    match stage
    case Development(n) => "-dev." + Digits(n)
    case ReleaseCandidate(n) => "-rc." + Digits(n)
    case Final => ""
  }

  lemma CargoIsNested(v: Version)
    ensures CargoVersion(v)
            == Digits(v.major) + ("." + (Digits(v.minor) + ("." + (Digits(v.patch) + CargoSuffix(v.stage)))))
  {
    var suffix, patch := CargoSuffix(v.stage), Digits(v.patch);
    var minor := Digits(v.minor) + ("." + patch);
    Associative(".", patch, suffix);
    Associative(Digits(v.minor), "." + patch, suffix);
    Associative(".", minor, suffix);
    Associative(Digits(v.major), "." + minor, suffix);
  }

  lemma CargoReads(v: Version)
    ensures var s := CargoVersion(v);
            && NumberDot(s) == Some((v.major, Digits(v.minor) + ("." + (Digits(v.patch) + CargoSuffix(v.stage)))))
            && NumberDot(NumberDot(s).value.1) == Some((v.minor, Digits(v.patch) + CargoSuffix(v.stage)))
            && Number(NumberDot(NumberDot(s).value.1).value.1) == Some((v.patch, CargoSuffix(v.stage)))
  {
    var suffix := CargoSuffix(v.stage);
    CargoIsNested(v);
    NumberDotReads(v.major, Digits(v.minor) + ("." + (Digits(v.patch) + suffix)));
    NumberDotReads(v.minor, Digits(v.patch) + suffix);
    assert suffix != "" ==> suffix[0] == '-';
    NumberReads(v.patch, suffix);
  }

  lemma CargoSuffixIsInjective(a: Stage, b: Stage)
    requires CargoSuffix(a) == CargoSuffix(b)
    ensures a == b
  {
    assert !a.Final? ==> CargoSuffix(a)[1] == if a.Development? then 'd' else 'r';
    assert !b.Final? ==> CargoSuffix(b)[1] == if b.Development? then 'd' else 'r';
    if a.Development? {
      assert CargoSuffix(a)[5..] == Digits(a.dev) && CargoSuffix(b)[5..] == Digits(b.dev);
      DigitsAreCanonical(a.dev);
      DigitsAreCanonical(b.dev);
    } else if a.ReleaseCandidate? {
      assert CargoSuffix(a)[4..] == Digits(a.rc) && CargoSuffix(b)[4..] == Digits(b.rc);
      DigitsAreCanonical(a.rc);
      DigitsAreCanonical(b.rc);
    }
  }

  /** The Cargo version determines the Python version it was mapped from. */
  lemma CargoIsInjective(v: Version, w: Version)
    requires CargoVersion(v) == CargoVersion(w)
    ensures v == w
  {
    CargoReads(v);
    CargoReads(w);
    CargoSuffixIsInjective(v.stage, w.stage);
  }
}
