/** The lines of a hash-locked requirement manifest: continuation folding, and extraction of the
    hash options from a folded line. */
module Manifest {
  import opened Wrappers
  import opened Text
  import opened Sequences

  datatype ManifestError =
    | IncompleteContinuation
    | LocalRequirement
    | DirectUrl
    | NotPinned
    | EmptyMarker
    | MissingHashes
    | EmptyManifest
    | DuplicateRequirements

  // ---- Logical lines ----

  predicate Skipped(stripped: string) {
    stripped == "" || stripped[0] == '#'
  }

  predicate Continues(s: string) {
    s != "" && s[|s| - 1] == '\\'
  }

  function Extend(current: string, stripped: string): string {
    if current != "" then current + " " + stripped else stripped
  }

  function DropBackslash(s: string): string
    requires Continues(s)
  {
    RStrip(s[..|s| - 1])
  }

  function Prepend<T>(xs: seq<T>, r: Result<seq<T>, ManifestError>): Result<seq<T>, ManifestError> {
    match r
    case Ok(ys) => Ok(xs + ys)
    case Err(e) => Err(e)
  }

  /** Folds `raw` lines into logical lines, starting with the pending text `current`. */
  function Fold(raw: seq<string>, current: string): Result<seq<string>, ManifestError>
    decreases raw
  {
    if raw == [] then
      if current != "" then Err(IncompleteContinuation) else Ok([])
    else
      var stripped := Strip(raw[0]);
      if Skipped(stripped) then Fold(raw[1..], current)
      else
        var joined := Extend(current, stripped);
        if Continues(joined) then Fold(raw[1..], DropBackslash(joined))
        else Prepend([joined], Fold(raw[1..], ""))
  }

  method LogicalLines(text: string) returns (r: Result<seq<string>, ManifestError>)
    ensures r == Fold(SplitLines(text), "")
  {
    var raw := SplitLines(text);
    var lines: seq<string> := [];
    var current := "";
    PrependTwice(lines, lines, Fold(raw, ""));
    assert raw[0..] == raw;
    for i := 0 to |raw|
      invariant Prepend(lines, Fold(raw[i..], current)) == Fold(raw, "")
    {
      assert raw[i..][1..] == raw[i + 1..];
      var stripped := Strip(raw[i]);
      if stripped == "" || stripped[0] == '#' {
        continue;
      }
      current := if current != "" then current + " " + stripped else stripped;
      if Continues(current) {
        current := RStrip(current[..|current| - 1]);
        continue;
      }
      PrependTwice(lines, [current], Fold(raw[i + 1..], ""));
      lines := lines + [current];
      current := "";
    }
    if current != "" {
      return Err(IncompleteContinuation);
    }
    assert lines + [] == lines;
    return Ok(lines);
  }

  lemma PrependTwice<T>(xs: seq<T>, ys: seq<T>, r: Result<seq<T>, ManifestError>)
    ensures Prepend(xs, Prepend(ys, r)) == Prepend(xs + ys, r)
    ensures Prepend([], r) == r
  {
    if r.Ok? { assert xs + (ys + r.value) == xs + ys + r.value && [] + r.value == r.value; }
  }

  /** Blank and comment lines may be inserted anywhere, also inside a continuation, without any
      effect on the lines or on the error. */
  lemma {:induction false} FoldIgnoresSkippedLine(
    before: seq<string>, line: string, after: seq<string>, current: string)
    requires Strip(line) == "" || Strip(line)[0] == '#'
    ensures Fold(before + [line] + after, current) == Fold(before + after, current)
    decreases before
  {
    var with, without := before + [line] + after, before + after;
    if before == [] {
      assert with[1..] == after && without == after;
    } else {
      assert with[1..] == before[1..] + [line] + after && without[1..] == before[1..] + after;
      var stripped := Strip(before[0]);
      var joined := Extend(current, stripped);
      if Skipped(stripped) {
        FoldIgnoresSkippedLine(before[1..], line, after, current);
      } else if Continues(joined) {
        FoldIgnoresSkippedLine(before[1..], line, after, DropBackslash(joined));
      } else {
        FoldIgnoresSkippedLine(before[1..], line, after, "");
      }
    }
  }

  // ---- Which lines are joined, spelled out ----

  /** The line is not blank and no comment. */
  ghost predicate Significant(line: string) {
    Strip(line) != "" && Strip(line)[0] != '#'
  }

  /** The line is `core`, maybe white space, and a backslash. */
  ghost predicate Continued(line: string, core: string) {
    var t := Strip(line);
    && t != "" && t[0] != '#' && t[|t| - 1] == '\\' && |core| < |t| && core == t[..|core|]
    && (forall i | |core| <= i < |t| - 1 :: IsSpace(t[i])) && (core != "" ==> !IsSpace(core[|core| - 1]))
  }

  /** The line ends a logical line. */
  ghost predicate Complete(line: string) {
    Significant(line) && Strip(line)[|Strip(line)| - 1] != '\\'
  }

  function NonEmpty(cores: seq<string>): seq<string> {
    if cores == [] then [] else (if cores[0] == "" then [] else [cores[0]]) + NonEmpty(cores[1..])
  }

  ghost predicate AllContinued(lines: seq<string>, cores: seq<string>) {
    |lines| == |cores| && forall i | 0 <= i < |lines| :: Continued(lines[i], cores[i])
  }

  /** Texts that can be joined: none is empty or ends in white space. */
  ghost predicate Solid(parts: seq<string>) {
    forall p <- parts :: p != "" && !IsSpace(p[|p| - 1])
  }

  lemma {:induction false} RStripTo(s: string, k: nat)
    requires k <= |s| && (forall i | k <= i < |s| :: IsSpace(s[i])) && (k > 0 ==> !IsSpace(s[k - 1]))
    ensures RStrip(s) == s[..k]
  {
    if k < |s| {
      RStripTo(s[..|s| - 1], k);
      assert s[..|s| - 1][..k] == s[..k];
    } else {
      assert s[..k] == s;
    }
  }

  lemma {:induction false} SolidJoin(parts: seq<string>)
    requires Solid(parts)
    ensures Join(parts) == "" <==> parts == []
    ensures parts != [] ==> !IsSpace(Join(parts)[|Join(parts)| - 1])
  {
    if parts != [] { assert parts[0] in parts; }
    if |parts| > 1 { SolidJoin(parts[1..]); }
  }

  lemma CoreKept(lead: string, t: string, core: string)
    requires core != "" && |core| < |t| && core == t[..|core|] && !IsSpace(core[|core| - 1])
    requires forall i | |core| <= i < |t| - 1 :: IsSpace(t[i])
    ensures RStrip(lead + t[..|t| - 1]) == lead + core
  {
    var kept, k := lead + t[..|t| - 1], |lead| + |core|;
    assert forall i | |lead| <= i < |kept| :: kept[i] == t[i - |lead|];
    RStripTo(kept, k);
    assert kept[..k] == lead + core;
  }

  lemma NothingKept(current: string, blanks: string)
    requires (current != "" ==> !IsSpace(current[|current| - 1])) && forall i | 0 <= i < |blanks| :: IsSpace(blanks[i])
    ensures RStrip(current + blanks) == current
  {
    var kept := current + blanks;
    assert forall i | |current| <= i < |kept| :: kept[i] == blanks[i - |current|];
    RStripTo(kept, |current|);
    assert kept[..|current|] == current;
  }

  function Lead(current: string): string {
    if current != "" then current + " " else ""
  }

  lemma DropLast(lead: string, t: string)
    requires t != ""
    ensures (lead + t)[|lead + t| - 1] == t[|t| - 1] && (lead + t)[..|lead + t| - 1] == lead + t[..|t| - 1]
  {
  }

  /** One continued line adds its core to what is pending. */
  lemma ContinuedStep(line: string, core: string, current: string)
    requires Continued(line, core) && (current != "" ==> !IsSpace(current[|current| - 1]))
    ensures !Skipped(Strip(line)) && Continues(Extend(current, Strip(line)))
    ensures DropBackslash(Extend(current, Strip(line))) == if core == "" then current else Extend(current, core)
  {
    var t := Strip(line);
    var lead := Lead(current);
    DropLast(lead, t);
    assert Extend(current, t) == lead + t && Extend(current, core) == lead + core;
    if core != "" {
      CoreKept(lead, t, core);
    } else {
      BlankLead(current, t);
      NothingKept(current, (if current != "" then " " else "") + t[..|t| - 1]);
    }
  }

  lemma BlankLead(current: string, t: string)
    requires t != "" && forall i | 0 <= i < |t| - 1 :: IsSpace(t[i])
    ensures var blanks := (if current != "" then " " else "") + t[..|t| - 1];
            Lead(current) + t[..|t| - 1] == current + blanks && forall i | 0 <= i < |blanks| :: IsSpace(blanks[i])
  {
    assert IsSpace(' ');
  }

  lemma JoinMore(done: seq<string>, core: string)
    requires Solid(done)
    ensures Extend(Join(done), core) == Join(done + [core])
  {
    SolidJoin(done);
    if done == [] {
      assert done + [core] == [core];
    } else {
      JoinExactly(done, [core]);
    }
  }

  lemma FoldContinuedOne(line: string, core: string, rest: seq<string>, current: string)
    requires Continued(line, core) && (current != "" ==> !IsSpace(current[|current| - 1]))
    ensures Fold([line] + rest, current) == Fold(rest, if core == "" then current else Extend(current, core))
  {
    ContinuedStep(line, core, current);
    FoldHead(line, rest, current);
  }

  lemma FoldHead(line: string, rest: seq<string>, current: string)
    requires !Skipped(Strip(line)) && Continues(Extend(current, Strip(line)))
    ensures Fold([line] + rest, current) == Fold(rest, DropBackslash(Extend(current, Strip(line))))
  {
    assert ([line] + rest)[1..] == rest;
  }

  lemma FoldCompleteOne(line: string, rest: seq<string>, current: string)
    requires Complete(line)
    ensures Fold([line] + rest, current) == Prepend([Extend(current, Strip(line))], Fold(rest, ""))
  {
    var j := Extend(current, Strip(line));
    assert ([line] + rest)[1..] == rest && j[|j| - 1] == Strip(line)[|Strip(line)| - 1];
  }

  function WithCore(done: seq<string>, core: string): seq<string> {
    if core == "" then done else done + [core]
  }

  lemma CoresStep(done: seq<string>, cores: seq<string>)
    requires cores != []
    ensures WithCore(done, cores[0]) + NonEmpty(cores[1..]) == done + NonEmpty(cores)
  {
    if cores[0] == "" {
      NothingLeft([], NonEmpty(cores[1..]));
    } else {
      Associative(done, [cores[0]], NonEmpty(cores[1..]));
    }
  }

  ghost predicate Pairs(c: (string, string) -> bool, lines: seq<string>, cores: seq<string>) {
    |lines| == |cores| && forall i | 0 <= i < |lines| :: c(lines[i], cores[i])
  }

  lemma PairsTail(c: (string, string) -> bool, lines: seq<string>, cores: seq<string>)
    requires Pairs(c, lines, cores) && lines != []
    ensures c(lines[0], cores[0]) && Pairs(c, lines[1..], cores[1..])
  {
  }

  lemma HeadAndRest(lines: seq<string>, rest: seq<string>)
    requires lines != []
    ensures lines + rest == [lines[0]] + (lines[1..] + rest)
  {
  }

  /** `f` takes in one line of kind `c`, as long as what is done meets `inv`. */
  ghost predicate TakesInOne<R(!new)>(
    f: (seq<string>, seq<string>) -> R, c: (string, string) -> bool, inv: seq<string> -> bool, line: string,
    core: string, rest: seq<string>, done: seq<string>)
  {
    c(line, core) && inv(done) ==>
      inv(WithCore(done, core)) && f([line] + rest, done) == f(rest, WithCore(done, core))
  }

  ghost predicate TakesIn<R(!new)>(
    f: (seq<string>, seq<string>) -> R, c: (string, string) -> bool, inv: seq<string> -> bool)
  {
    forall line, core, rest, done :: TakesInOne(f, c, inv, line, core, rest, done)
  }

  lemma {:induction false} TakesInAll<R(!new)>(
    f: (seq<string>, seq<string>) -> R, c: (string, string) -> bool, inv: seq<string> -> bool, lines: seq<string>,
    cores: seq<string>, rest: seq<string>, done: seq<string>)
    requires TakesIn(f, c, inv) && Pairs(c, lines, cores) && inv(done)
    ensures inv(done + NonEmpty(cores)) && f(lines + rest, done) == f(rest, done + NonEmpty(cores))
    decreases lines
  {
    if lines == [] {
      NothingLeft(lines, rest);
      NothingLeft(NonEmpty(cores), done);
    } else {
      var next, tail := WithCore(done, cores[0]), lines[1..];
      PairsTail(c, lines, cores);
      assert TakesInOne(f, c, inv, lines[0], cores[0], tail + rest, done);
      TakesInAll(f, c, inv, tail, cores[1..], rest, next);
      CoresStep(done, cores);
      HeadAndRest(lines, rest);
    }
  }

  lemma SolidMore(line: string, core: string, done: seq<string>)
    requires Continued(line, core) && Solid(done)
    ensures Solid(WithCore(done, core))
  {
  }

  lemma FoldContinuedHead(line: string, core: string, rest: seq<string>, done: seq<string>)
    requires Continued(line, core) && Solid(done)
    ensures Solid(WithCore(done, core)) && Fold([line] + rest, Join(done)) == Fold(rest, Join(WithCore(done, core)))
  {
    SolidJoin(done);
    SolidMore(line, core, done);
    JoinMore(done, core);
    FoldContinuedOne(line, core, rest, Join(done));
  }

  lemma FoldContinuedFrom(lines: seq<string>, cores: seq<string>, rest: seq<string>)
    requires AllContinued(lines, cores)
    ensures Solid(NonEmpty(cores)) && Fold(lines + rest, "") == Fold(rest, Join(NonEmpty(cores)))
  {
    var f := (raw: seq<string>, done: seq<string>) => Fold(raw, Join(done));
    var c := (line: string, core: string) => Continued(line, core);
    var inv := (done: seq<string>) => Solid(done);
    forall line, core, rest', done ensures TakesInOne(f, c, inv, line, core, rest', done) {
      if Continued(line, core) && Solid(done) { FoldContinuedHead(line, core, rest', done); }
    }
    assert Pairs(c, lines, cores);
    TakesInAll(f, c, inv, lines, cores, rest, []);
    NothingLeft([], NonEmpty(cores));
  }

  lemma NothingLeft(a: seq<string>, b: seq<string>)
    requires a == []
    ensures a + b == b && b + a == b
  {
  }

  /** Continued lines and the line that completes them are joined by single blanks into one. */
  lemma FoldJoins(lines: seq<string>, cores: seq<string>, last: string, rest: seq<string>)
    requires AllContinued(lines, cores) && Complete(last)
    ensures Fold(lines + ([last] + rest), "") == Prepend([Join(NonEmpty(cores) + [Strip(last)])], Fold(rest, ""))
  {
    var done := NonEmpty(cores);
    FoldContinuedFrom(lines, cores, [last] + rest);
    JoinMore(done, Strip(last));
    FoldCompleteOne(last, rest, Join(done));
  }

  /** Continued lines that nothing completes are an error, unless nothing is pending. */
  lemma FoldDangles(lines: seq<string>, cores: seq<string>)
    requires AllContinued(lines, cores)
    ensures Fold(lines, "") == if NonEmpty(cores) == [] then Ok([]) else Err(IncompleteContinuation)
  {
    FoldContinuedFrom(lines, cores, []);
    NothingLeft([], lines);
    SolidJoin(NonEmpty(cores));
  }

  /** What every logical line looks like: trimmed, complete, not a comment, on one line. */
  predicate LogicalLine(l: string) {
    l != "" && l[0] != '#' && Trimmed(l) && !Continues(l) && !HasLineBreak(l)
  }

  /** What the text pending after a continuation looks like. */
  predicate Pending(s: string) {
    s != "" ==> s[0] != '#' && !IsSpace(s[0]) && !IsSpace(s[|s| - 1]) && !HasLineBreak(s)
  }

  lemma ExtendPending(current: string, stripped: string)
    requires Pending(current) && Trimmed(stripped) && !Skipped(stripped) && !HasLineBreak(stripped)
    ensures var j := Extend(current, stripped);
            && Pending(j) && (Continues(j) <==> Continues(stripped))
            && (Continues(j) ==> Pending(DropBackslash(j)))
  {
    var j := Extend(current, stripped);
    assert !IsLineBreak(' ');
    assert j[|j| - 1] == stripped[|stripped| - 1];
    if Continues(j) {
      RStripResult(j[..|j| - 1]);
      var d := DropBackslash(j);
      assert forall i | 0 <= i < |d| :: d[i] == j[i];
    }
  }

  lemma {:induction false} FoldedLinesAreLogical(raw: seq<string>, current: string)
    requires Pending(current) && forall l <- raw :: !HasLineBreak(l)
    ensures Fold(raw, current).Ok? ==> forall l <- Fold(raw, current).value :: LogicalLine(l)
    decreases raw
  {
    if raw != [] {
      var stripped := Strip(raw[0]);
      StripResult(raw[0]);
      if Skipped(stripped) {
        FoldedLinesAreLogical(raw[1..], current);
      } else {
        ExtendPending(current, stripped);
        var joined := Extend(current, stripped);
        if Continues(joined) {
          FoldedLinesAreLogical(raw[1..], DropBackslash(joined));
        } else {
          FoldedLinesAreLogical(raw[1..], "");
        }
      }
    }
  }

  lemma {:induction false} FoldKeepsLogicalLines(lines: seq<string>)
    requires forall l <- lines :: LogicalLine(l)
    ensures Fold(lines, "") == Ok(lines)
  {
    if lines != [] {
      assert LogicalLine(lines[0]) by { assert lines[0] in lines; }
      FoldKeepsLogicalLines(lines[1..]);
      assert [lines[0]] + lines[1..] == lines;
    }
  }

  /** Folding the folded text again changes nothing. */
  lemma FoldIsIdempotent(text: string)
    requires Fold(SplitLines(text), "").Ok?
    ensures var lines := Fold(SplitLines(text), "").value;
            Fold(SplitLines(Lines(lines)), "") == Ok(lines)
  {
    var lines := Fold(SplitLines(text), "").value;
    SplitLinesHaveNoBreak(text);
    FoldedLinesAreLogical(SplitLines(text), "");
    SplitLinesInvertsLines(lines);
    FoldKeepsLogicalLines(lines);
  }

  // ---- Hash options ----

  const HASH_PREFIX := "--hash=sha256:"

  predicate IsHex(c: char) {
    '0' <= c <= '9' || 'a' <= c <= 'f' || 'A' <= c <= 'F'
  }

  predicate IsHash(s: string) {
    |s| == 64 && forall i | 0 <= i < 64 :: IsHex(s[i])
  }

  predicate IsHashToken(w: string) {
    |w| == 78 && HASH_PREFIX <= w && IsHash(w[14..])
  }

  /** `--hash=sha256:([0-9a-fA-F]{64})(?=\s|$)` matches at the start of `s`. */
  predicate HashOptionAt(s: string) {
    |s| >= 78 && IsHashToken(s[..78]) && AtBoundary(s[78..])
  }

  /** The length of the match of `(?:^|\s)--hash=sha256:...` at the start of `s`; 0 if none. */
  function MatchLength(s: string, atStart: bool): (n: nat)
    ensures n <= |s|
  {
    if atStart && HashOptionAt(s) then 78
    else if s != "" && IsSpace(s[0]) && HashOptionAt(s[1..]) then 79
    else 0
  }

  /** `_HASH_OPTION_RE.sub("", s)`. */
  function RemoveHashes(s: string, atStart: bool): string
    decreases |s|
  {
    if s == "" then ""
    else
      var n := MatchLength(s, atStart);
      if n > 0 then RemoveHashes(s[n..], false) else [s[0]] + RemoveHashes(s[1..], false)
  }

  /** `_HASH_OPTION_RE.findall(s)`. */
  function FindHashes(s: string, atStart: bool): seq<string>
    decreases |s|
  {
    if s == "" then []
    else
      var n := MatchLength(s, atStart);
      if n > 0 then [s[n - 64..n]] + FindHashes(s[n..], false) else FindHashes(s[1..], false)
  }

  function OtherTokens(tokens: seq<string>): seq<string> {
    if tokens == [] then []
    else (if IsHashToken(tokens[0]) then [] else [tokens[0]]) + OtherTokens(tokens[1..])
  }

  function HashesOf(tokens: seq<string>): seq<string> {
    if tokens == [] then []
    else (if IsHashToken(tokens[0]) then [tokens[0][14..]] else []) + HashesOf(tokens[1..])
  }

  lemma HashTokenIsToken(w: string)
    requires IsHashToken(w)
    ensures IsToken(w)
  {
  }

  /** A hash option at a token's start is exactly a token that is a hash option. */
  lemma HashOptionIsToken(s: string)
    requires s != "" && !IsSpace(s[0])
    ensures HashOptionAt(s) <==> IsHashToken(s[..TokenEnd(s)])
    ensures HashOptionAt(s) ==> TokenEnd(s) == 78
  {
    var k := TokenEnd(s);
    if HashOptionAt(s) {
      HashTokenIsToken(s[..78]);
      assert forall i | 0 <= i < 78 :: s[i] == s[..78][i];
      assert k == 78;
    }
  }

  /** Inside a token nothing is removed. */
  lemma {:induction false} TokenIsCopied(w: string, rest: string)
    requires !HasSpace(w)
    ensures RemoveHashes(w + rest, false) == w + RemoveHashes(rest, false)
    ensures FindHashes(w + rest, false) == FindHashes(rest, false)
  {
    if w == "" {
      assert w + rest == rest;
    } else {
      assert (w + rest)[1..] == w[1..] + rest && (w + rest)[0] == w[0];
      TokenIsCopied(w[1..], rest);
    }
  }

  /** A blank in front of a token. */
  lemma ScanBlankToken(s: string)
    requires s != "" && IsSpace(s[0]) && !AtBoundary(s[1..]) && TokenScanned(s[1..])
    ensures ScanAgrees(s)
  {
    var t := s[1..];
    HashOptionIsToken(t);
    if HashOptionAt(t) {
      assert s[79..] == t[78..] && s[15..79] == t[..78][14..];
    } else {
      assert RemoveHashes(s, false) == [s[0]] + RemoveHashes(t, false);
      assert ([s[0]] + RemoveHashes(t, false))[1..] == RemoveHashes(t, false);
    }
  }

  ghost predicate TokenScanned(t: string) {
    var k := TokenEnd(t);
    var rest := t[k..];
    && Split(t) == [t[..k]] + Split(rest)
    && Split(RemoveHashes(t, false)) == [t[..k]] + OtherTokens(Split(rest))
    && FindHashes(t, false) == HashesOf(Split(rest))
    && ScanAgrees(rest)
  }

  /** From a token boundary on, the regular expression does what filtering tokens does. */
  lemma {:induction false} ScanFromBoundary(s: string)
    requires AtBoundary(s)
    ensures ScanAgrees(s)
    decreases |s|
  {
    if s != "" {
      var t := s[1..];
      if AtBoundary(t) {
        ScanFromBoundary(t);
      } else {
        ScanToken(t);
        ScanBlankToken(s);
      }
    }
  }

  ghost predicate ScanAgrees(s: string) {
    && AtBoundary(RemoveHashes(s, false))
    && Split(RemoveHashes(s, false)) == OtherTokens(Split(s))
    && FindHashes(s, false) == HashesOf(Split(s))
  }

  /** The token `t` begins with, and what follows it. */
  lemma {:induction false} ScanToken(t: string)
    requires !AtBoundary(t)
    ensures TokenScanned(t)
    decreases |t|
  {
    var k := TokenEnd(t);
    var w, rest := t[..k], t[k..];
    assert t == w + rest && IsToken(w);
    ScanFromBoundary(rest);
    TokenIsCopied(w, rest);
    SplitToken(w, RemoveHashes(rest, false));
  }

  /** Substituting the hash options away and splitting is filtering the tokens. */
  lemma RemoveHashesFilters(line: string)
    ensures Split(RemoveHashes(line, true)) == OtherTokens(Split(line))
    ensures FindHashes(line, true) == HashesOf(Split(line))
  {
    if AtBoundary(line) {
      ScanFromBoundary(line);
    } else {
      ScanToken(line);
      HashOptionIsToken(line);
      if HashOptionAt(line) {
        assert line[14..78] == line[..78][14..];
      }
    }
  }
}
