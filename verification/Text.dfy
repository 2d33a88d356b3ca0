/** The Python string operations the manifest parser is built from: `strip`, `splitlines`,
    `split`, `" ".join`, all over Python's notion of white space. */
module Text {
  import opened Sequences

  /** `str.isspace`, which is also what `\s` matches. */
  predicate IsSpace(c: char) {
    var n := c as int;
    || 0x09 <= n <= 0x0D || 0x1C <= n <= 0x20 || n == 0x85 || n == 0xA0 || n == 0x1680
    || 0x2000 <= n <= 0x200A || n == 0x2028 || n == 0x2029 || n == 0x202F || n == 0x205F || n == 0x3000
  }

  /** The characters `str.splitlines` breaks at. */
  predicate IsLineBreak(c: char) {
    var n := c as int;
    0x0A <= n <= 0x0D || 0x1C <= n <= 0x1E || n == 0x85 || n == 0x2028 || n == 0x2029
  }

  function LStrip(s: string): string {
    if s != "" && IsSpace(s[0]) then LStrip(s[1..]) else s
  }

  function RStrip(s: string): string {
    if s != "" && IsSpace(s[|s| - 1]) then RStrip(s[..|s| - 1]) else s
  }

  function Strip(s: string): string {
    RStrip(LStrip(s))
  }

  /** `lower` on the ASCII letters; no other character lowers to one the scripts compare with. */
  function Lower(c: char): char {
    if 'A' <= c <= 'Z' then (c as int + 32) as char else c
  }

  function LowerText(s: string): string {
    seq(|s|, i requires 0 <= i < |s| => Lower(s[i]))
  }

  /** No white space at either end. */
  predicate Trimmed(s: string) {
    s != "" ==> !IsSpace(s[0]) && !IsSpace(s[|s| - 1])
  }

  predicate HasSpace(s: string) {
    exists i | 0 <= i < |s| :: IsSpace(s[i])
  }

  predicate HasLineBreak(s: string) {
    exists i | 0 <= i < |s| :: IsLineBreak(s[i])
  }

  // ---- The classes of characters, spelled out ----

  const SPACES :=
    "\t\n\U{0B}\U{0C}\r\U{1C}\U{1D}\U{1E}\U{1F} \U{85}\U{A0}\U{1680}\U{2000}\U{2001}\U{2002}\U{2003}\U{2004}\U{2005}" +
    "\U{2006}\U{2007}\U{2008}\U{2009}\U{200A}\U{2028}\U{2029}\U{202F}\U{205F}\U{3000}"

  const BREAKS := "\n\U{0B}\U{0C}\r\U{1C}\U{1D}\U{1E}\U{85}\U{2028}\U{2029}"

  const UPPER := "ABCDEFGHIJKLMNOPQRSTUVWXYZ"
  const LOWER := "abcdefghijklmnopqrstuvwxyz"

  lemma SpaceExactly(c: char)
    ensures IsSpace(c) <==> c in SPACES
  {
  }

  lemma LineBreakExactly(c: char)
    ensures IsLineBreak(c) <==> c in BREAKS
  {
  }

  lemma UpperExactly(c: char)
    ensures c in UPPER <==> 'A' <= c <= 'Z'
  {
    if 'A' <= c <= 'Z' { assert UPPER[c as int - 'A' as int] == c; }
  }

  lemma LowerExactly(c: char)
    ensures if 'A' <= c <= 'Z' then Lower(c) as int - 'a' as int == c as int - 'A' as int else Lower(c) == c
  {
  }

  lemma {:induction false} RStripResult(s: string)
    ensures RStrip(s) <= s
    ensures forall i | |RStrip(s)| <= i < |s| :: IsSpace(s[i])
    ensures RStrip(s) != "" ==> !IsSpace(RStrip(s)[|RStrip(s)| - 1])
  {
    if s != "" && IsSpace(s[|s| - 1]) { RStripResult(s[..|s| - 1]); }
  }

  lemma {:induction false} LStripExactly(s: string) returns (i: nat)
    ensures i <= |s| && LStrip(s) == s[i..] && forall k | 0 <= k < i :: IsSpace(s[k])
    ensures i < |s| ==> !IsSpace(s[i])
  {
    if s != "" && IsSpace(s[0]) {
      i := LStripExactly(s[1..]);
      i := i + 1;
    } else {
      i := 0;
    }
  }

  /** Stripping takes away the white space at both ends and nothing else. */
  lemma StripExactly(s: string) returns (i: nat, j: nat)
    ensures i <= j <= |s| && Strip(s) == s[i..j]
    ensures (forall k | 0 <= k < i :: IsSpace(s[k])) && forall k | j <= k < |s| :: IsSpace(s[k])
    ensures i < j ==> !IsSpace(s[i]) && !IsSpace(s[j - 1])
  {
    i := LStripExactly(s);
    var t := LStrip(s);
    RStripResult(t);
    j := i + |RStrip(t)|;
    assert RStrip(t) == t[..|RStrip(t)|] == s[i..j];
    forall k | j <= k < |s| ensures IsSpace(s[k]) { assert s[k] == t[k - i]; }
  }

  lemma {:induction false} LStripResult(s: string)
    ensures LStrip(s) != "" ==> !IsSpace(LStrip(s)[0])
    ensures forall c <- LStrip(s) :: c in s
  {
    if s != "" && IsSpace(s[0]) { LStripResult(s[1..]); }
  }

  lemma StripResult(s: string)
    ensures Trimmed(Strip(s))
    ensures forall c <- Strip(s) :: c in s
    ensures !HasLineBreak(s) ==> !HasLineBreak(Strip(s))
  {
    var t := LStrip(s);
    LStripResult(s);
    RStripResult(t);
    assert forall i | 0 <= i < |Strip(s)| :: Strip(s)[i] == t[i] && t[i] in s;
  }

  lemma StripPadded(s: string)
    requires Trimmed(s)
    ensures Strip(" " + s) == s
    ensures s != "" ==> Strip(s + " ") == s
  {
    assert IsSpace(' ');
    assert (" " + s)[1..] == s && LStrip(" " + s) == LStrip(s) == s;
    assert (s + " ")[..|s|] == s;
    assert s != "" ==> (s + " ")[0] == s[0] && LStrip(s + " ") == s + " ";
  }

  // ---- splitlines ----

  /** The index of the first line break, or the length of `s`. */
  function LineEnd(s: string): (k: nat)
    ensures k <= |s|
    ensures k < |s| ==> IsLineBreak(s[k])
    ensures forall i | 0 <= i < k :: !IsLineBreak(s[i])
  {
    if s == "" || IsLineBreak(s[0]) then 0 else 1 + LineEnd(s[1..])
  }

  /** A carriage return and the line feed behind it are one line break. */
  function BreakSize(s: string, k: nat): (n: nat)
    requires k < |s|
    ensures 1 <= n && k + n <= |s|
  {
    if s[k] == '\r' && k + 1 < |s| && s[k + 1] == '\n' then 2 else 1
  }

  function SplitLines(s: string): seq<string>
    decreases |s|
  {
    if s == "" then []
    else if LineEnd(s) == |s| then [s]
    else [s[..LineEnd(s)]] + SplitLines(s[LineEnd(s) + BreakSize(s, LineEnd(s))..])
  }

  /** Every line followed by a newline. */
  function Lines(lines: seq<string>): string {
    if lines == [] then "" else lines[0] + "\n" + Lines(lines[1..])
  }

  lemma {:induction false} SplitLinesHaveNoBreak(s: string)
    ensures forall l <- SplitLines(s) :: !HasLineBreak(l)
    decreases |s|
  {
    if s != "" {
      var k := LineEnd(s);
      assert !HasLineBreak(s[..k]);
      if k == |s| {
        assert s[..k] == s;
      } else {
        SplitLinesHaveNoBreak(s[k + BreakSize(s, k)..]);
      }
    }
  }

  lemma {:induction false} LineEndAt(l: string, rest: string)
    requires !HasLineBreak(l)
    ensures LineEnd(l + "\n" + rest) == |l|
  {
    var s := l + "\n" + rest;
    assert s[|l|] == '\n' && IsLineBreak('\n');
    assert forall i | 0 <= i < |l| :: s[i] == l[i];
  }

  lemma {:induction false} SplitLinesInvertsLines(lines: seq<string>)
    requires forall l <- lines :: !HasLineBreak(l)
    ensures SplitLines(Lines(lines)) == lines
  {
    if lines != [] {
      var l, rest := lines[0], Lines(lines[1..]);
      var s := l + "\n" + rest;
      LineEndAt(l, rest);
      assert s[..|l|] == l && s[|l| + 1..] == rest && s[|l|] == '\n';
      SplitLinesInvertsLines(lines[1..]);
    }
  }

  // ---- split and join ----

  /** The length of the token `s` begins with. */
  function TokenEnd(s: string): (k: nat)
    ensures k <= |s|
    ensures k < |s| ==> IsSpace(s[k])
    ensures forall i | 0 <= i < k :: !IsSpace(s[i])
  {
    if s == "" || IsSpace(s[0]) then 0 else 1 + TokenEnd(s[1..])
  }

  function Split(s: string): seq<string>
    decreases |s|
  {
    if s == "" then []
    else if IsSpace(s[0]) then Split(s[1..])
    else [s[..TokenEnd(s)]] + Split(s[TokenEnd(s)..])
  }

  function Join(tokens: seq<string>): string {
    if |tokens| == 0 then ""
    else if |tokens| == 1 then tokens[0]
    else tokens[0] + " " + Join(tokens[1..])
  }

  predicate IsToken(s: string) {
    s != "" && !HasSpace(s)
  }

  /** The text ends, or a token does. */
  predicate AtBoundary(s: string) {
    s == "" || IsSpace(s[0])
  }

  lemma SplitToken(w: string, rest: string)
    requires IsToken(w) && AtBoundary(rest)
    ensures Split(w + rest) == [w] + Split(rest)
  {
    var s := w + rest;
    assert forall i | 0 <= i < |w| :: s[i] == w[i];
    assert rest != "" ==> s[|w|] == rest[0];
    assert TokenEnd(s) == |w|;
    assert s[..|w|] == w && s[|w|..] == rest;
  }

  lemma SplitSingle(w: string)
    requires IsToken(w)
    ensures Split(w) == [w]
  {
    SplitToken(w, "");
    assert w + "" == w;
  }

  lemma SplitConcatToken(a: string, b: string)
    requires !AtBoundary(a) && AtBoundary(b) && Split(a[TokenEnd(a)..] + b) == Split(a[TokenEnd(a)..]) + Split(b)
    ensures Split(a + b) == Split(a) + Split(b)
  {
    var w, rest := a[..TokenEnd(a)], a[TokenEnd(a)..];
    SplitAt(a, TokenEnd(a));
    Associative(w, rest, b);
    SplitToken(w, rest + b);
    SplitToken(w, rest);
    Associative([w], Split(rest), Split(b));
  }

  lemma {:induction false} SplitConcat(a: string, b: string)
    requires AtBoundary(b)
    ensures Split(a + b) == Split(a) + Split(b)
    decreases |a|
  {
    if a == "" {
      assert a + b == b;
    } else if IsSpace(a[0]) {
      TailOfConcat(a, b);
      SplitConcat(a[1..], b);
    } else {
      SplitConcat(a[TokenEnd(a)..], b);
      SplitConcatToken(a, b);
    }
  }

  lemma {:induction false} SplitTokens(s: string)
    ensures forall w <- Split(s) :: IsToken(w)
    decreases |s|
  {
    if s != "" {
      if IsSpace(s[0]) { SplitTokens(s[1..]); } else { SplitTokens(s[TokenEnd(s)..]); }
    }
  }

  lemma {:induction false} SplitInvertsJoin(tokens: seq<string>)
    requires forall w <- tokens :: IsToken(w)
    ensures Split(Join(tokens)) == tokens
  {
    if |tokens| == 1 {
      SplitSingle(tokens[0]);
    } else if |tokens| > 1 {
      var w, rest := tokens[0], Join(tokens[1..]);
      assert Join(tokens) == w + (" " + rest);
      SplitToken(w, " " + rest);
      assert (" " + rest)[1..] == rest;
      SplitInvertsJoin(tokens[1..]);
    }
  }

  lemma TokenText(w: string)
    requires IsToken(w)
    ensures Trimmed(w) && !HasLineBreak(w)
  {
  }

  lemma {:induction false} JoinTrimmed(tokens: seq<string>)
    requires forall w <- tokens :: IsToken(w)
    ensures Trimmed(Join(tokens)) && !HasLineBreak(Join(tokens))
    ensures tokens != [] ==> Join(tokens) != ""
  {
    if tokens != [] {
      TokenText(tokens[0]);
    }
    if |tokens| > 1 {
      var w, rest := tokens[0], Join(tokens[1..]);
      JoinTrimmed(tokens[1..]);
      var s := Join(tokens);
      assert s == w + " " + rest;
      assert s[0] == w[0] && s[|s| - 1] == rest[|rest| - 1];
      assert !IsLineBreak(' ');
    }
  }

  /** Tokens separated by single blanks, with none at the ends. */
  predicate WhitespaceNormal(s: string) {
    Join(Split(s)) == s
  }

  lemma NormalText(s: string)
    requires WhitespaceNormal(s)
    ensures Trimmed(s) && !HasLineBreak(s)
  {
    SplitTokens(s);
    JoinTrimmed(Split(s));
  }

  // ---- Splitting and joining, spelled out ----

  /** The pieces with the gaps around and between them. */
  function Interleave(gaps: seq<string>, pieces: seq<string>): string
    requires |gaps| == |pieces| + 1
  {
    if pieces == [] then gaps[0] else gaps[0] + (pieces[0] + Interleave(gaps[1..], pieces[1..]))
  }

  ghost predicate Blank(s: string) {
    forall i | 0 <= i < |s| :: IsSpace(s[i])
  }

  /** The gaps are white space, and those between two pieces are not empty. */
  ghost predicate Separates(gaps: seq<string>) {
    && gaps != [] && (forall i | 0 <= i < |gaps| :: Blank(gaps[i]))
    && forall i | 0 < i < |gaps| - 1 :: gaps[i] != ""
  }

  lemma GapCons(gap: string, token: string, gaps: seq<string>, tokens: seq<string>)
    requires |gaps| == |tokens| + 1
    ensures Interleave([gap] + gaps, [token] + tokens) == gap + (token + Interleave(gaps, tokens))
  {
    assert ([gap] + gaps)[1..] == gaps && ([token] + tokens)[1..] == tokens;
  }

  lemma GapWiden(c: char, gaps: seq<string>, tokens: seq<string>)
    requires |gaps| == |tokens| + 1
    ensures Interleave([[c] + gaps[0]] + gaps[1..], tokens) == [c] + Interleave(gaps, tokens)
  {
    var wide := [[c] + gaps[0]] + gaps[1..];
    assert wide[1..] == gaps[1..] && wide[0] == [c] + gaps[0];
    if tokens != [] {
      Associative([c], gaps[0], tokens[0] + Interleave(gaps[1..], tokens[1..]));
    }
  }

  /** The tokens are what is left of the text between white space. */
  lemma {:induction false} SplitExactly(s: string) returns (gaps: seq<string>)
    ensures |gaps| == |Split(s)| + 1 && Separates(gaps) && Interleave(gaps, Split(s)) == s
    ensures s != "" && !IsSpace(s[0]) ==> gaps[0] == ""
    ensures s != "" && IsSpace(s[0]) ==> gaps[0] != ""
    decreases |s|
  {
    if s == "" {
      gaps := [""];
    } else if IsSpace(s[0]) {
      var rest := SplitExactly(s[1..]);
      gaps := [[s[0]] + rest[0]] + rest[1..];
      GapWiden(s[0], rest, Split(s[1..]));
      assert forall i | 0 < i < |gaps| :: gaps[i] == rest[i];
      assert Blank(gaps[0]);
    } else {
      var k := TokenEnd(s);
      var rest := SplitExactly(s[k..]);
      gaps := [""] + rest;
      GapCons("", s[..k], rest, Split(s[k..]));
      SplitAt(s, k);
      TokensApart(s, rest);
    }
  }

  lemma TokensApart(s: string, rest: seq<string>)
    requires s != "" && !IsSpace(s[0]) && |rest| == |Split(s[TokenEnd(s)..])| + 1 && Separates(rest)
    requires var t := s[TokenEnd(s)..]; t != "" ==> rest[0] != ""
    ensures Separates([""] + rest)
  {
    var all := [""] + rest;
    forall i | 0 < i < |all| - 1 ensures all[i] != "" {
      assert all[i] == rest[i - 1];
    }
    forall i | 0 <= i < |all| ensures Blank(all[i]) {
      if i > 0 { assert all[i] == rest[i - 1]; }
    }
  }

  /** Joining puts one blank between each two tokens. */
  lemma JoinExactly(a: seq<string>, b: seq<string>)
    ensures Join([]) == "" && (forall w: string :: Join([w]) == w)
    ensures a != [] && b != [] ==> Join(a + b) == Join(a) + (" " + Join(b))
  {
    if a != [] && b != [] { JoinConcat(a, b); }
  }

  lemma {:induction false} JoinConcat(a: seq<string>, b: seq<string>)
    requires a != [] && b != []
    ensures Join(a + b) == Join(a) + (" " + Join(b))
  {
    TailOfConcat(a, b);
    if |a| == 1 {
      assert a[1..] + b == b;
    } else {
      JoinConcat(a[1..], b);
      Associative(a[0] + " ", Join(a[1..]), " " + Join(b));
    }
  }

  // ---- Lines, spelled out ----

  /** What may end a line. */
  ghost predicate LineEnding(e: string) {
    e == "\r\n" || (|e| == 1 && IsLineBreak(e[0]))
  }

  /** The lines with what ends each of them. */
  function Ended(lines: seq<string>, ends: seq<string>): string
    requires |lines| == |ends|
  {
    if lines == [] then "" else lines[0] + (ends[0] + Ended(lines[1..], ends[1..]))
  }

  /** Only the last line may lack an ending, if it is not empty; a carriage return and the line feed
      behind it are one ending. */
  ghost predicate EndsLines(lines: seq<string>, ends: seq<string>) {
    && |lines| == |ends|
    && (forall i | 0 <= i < |lines| :: !HasLineBreak(lines[i]))
    && (forall i | 0 <= i < |ends| :: LineEnding(ends[i]) || (i == |ends| - 1 && ends[i] == "" && lines[i] != ""))
    && forall i | 0 <= i < |ends| - 1 :: !(ends[i] == "\r" && lines[i + 1] == "" && ends[i + 1] == "\n")
  }

  lemma BreakPair(s: string, k: nat)
    requires k + 2 <= |s| && s[k] == '\r' && s[k + 1] == '\n'
    ensures s[k..k + 2] == "\r\n" && LineEnding(s[k..k + 2])
  {
  }

  lemma BreakSingle(s: string, k: nat)
    requires k < |s| && IsLineBreak(s[k])
    ensures s[k..k + 1] == [s[k]] && LineEnding(s[k..k + 1])
  {
  }

  ghost predicate LineTaken(s: string, k: nat, n: nat) {
    && n > 0 && k + n <= |s| && SplitLines(s) == [s[..k]] + SplitLines(s[k + n..])
    && s == s[..k] + (s[k..k + n] + s[k + n..]) && !HasLineBreak(s[..k]) && LineEnding(s[k..k + n])
    && (s[k..k + n] == "\r" && k + n < |s| ==> s[k + n] != '\n')
  }

  lemma EndingTaken(s: string, k: nat)
    requires k < |s| && IsLineBreak(s[k])
    ensures var n := BreakSize(s, k);
            LineEnding(s[k..k + n]) && (s[k..k + n] == "\r" && k + n < |s| ==> s[k + n] != '\n')
  {
    if BreakSize(s, k) == 2 { BreakPair(s, k); } else { BreakSingle(s, k); }
  }

  lemma SplitLinesStep(s: string) returns (k: nat, n: nat)
    requires LineEnd(s) < |s|
    ensures LineTaken(s, k, n)
  {
    k := LineEnd(s);
    n := BreakSize(s, k);
    HeadIsUnbroken(s);
    EndingTaken(s, k);
    ThreeParts(s, k, k + n);
  }

  lemma LastLine(s: string)
    requires s != "" && LineEnd(s) == |s|
    ensures SplitLines(s) == [s] && EndsLines([s], [""]) && Ended([s], [""]) == s
  {
    HeadIsUnbroken(s);
    assert s[..|s|] == s;
    assert s + ("" + "") == s;
  }

  lemma {:induction false} SplitLinesExactly(s: string) returns (ends: seq<string>)
    ensures EndsLines(SplitLines(s), ends) && Ended(SplitLines(s), ends) == s
    decreases |s|
  {
    if s == "" {
      ends := [];
    } else if LineEnd(s) == |s| {
      LastLine(s);
      ends := [""];
    } else {
      var k, n := SplitLinesStep(s);
      var rest := SplitLinesExactly(s[k + n..]);
      ends := [s[k..k + n]] + rest;
      NoFeed(s, k, n, rest);
      LineCons(s[..k], s[k..k + n], SplitLines(s[k + n..]), rest);
    }
  }

  lemma NoFeed(s: string, k: nat, n: nat, rest: seq<string>)
    requires k + n <= |s| && (s[k..k + n] == "\r" && k + n < |s| ==> s[k + n] != '\n')
    requires EndsLines(SplitLines(s[k + n..]), rest) && Ended(SplitLines(s[k + n..]), rest) == s[k + n..]
    ensures s[k..k + n] == "\r" && rest != [] ==> !(SplitLines(s[k + n..])[0] == "" && rest[0] == "\n")
  {
    if s[k..k + n] == "\r" { NoFeedFollows(SplitLines(s[k + n..]), rest, s[k + n..]); }
  }

  lemma HeadIsUnbroken(s: string)
    ensures !HasLineBreak(s[..LineEnd(s)])
  {
  }

  lemma NoFeedFollows(lines: seq<string>, ends: seq<string>, s: string)
    requires EndsLines(lines, ends) && Ended(lines, ends) == s && (s != "" ==> s[0] != '\n')
    ensures lines != [] ==> !(lines[0] == "" && ends[0] == "\n")
  {
  }

  lemma LineCons(line: string, end: string, lines: seq<string>, ends: seq<string>)
    requires EndsLines(lines, ends) && !HasLineBreak(line) && LineEnding(end)
    ensures Ended([line] + lines, [end] + ends) == line + (end + Ended(lines, ends))
    ensures (end == "\r" && lines != [] ==> !(lines[0] == "" && ends[0] == "\n"))
            ==> EndsLines([line] + lines, [end] + ends)
  {
    var all, allEnds := [line] + lines, [end] + ends;
    assert all[1..] == lines && allEnds[1..] == ends;
    assert forall i | 0 < i < |all| :: all[i] == lines[i - 1] && allEnds[i] == ends[i - 1];
  }
}
