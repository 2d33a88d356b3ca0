/** What redaction means, in terms of pieces of text: no statement here computes a replacement. */
module Redaction {
  import opened Sequences
  import opened Utf8
  import opened BoundedText

  /** The pieces with `glue` between each two of them. */
  function Glue(pieces: seq<string>, glue: string): string {
    if |pieces| == 0 then ""
    else if |pieces| == 1 then pieces[0]
    else pieces[0] + (glue + Glue(pieces[1..], glue))
  }

  /** `secret` does not begin inside `piece` when it follows it. */
  ghost predicate FirstAfter(piece: string, secret: string) {
    forall j | 0 <= j < |piece| :: !(secret <= (piece + secret)[j..])
  }

  /** Every piece but the last is followed by the leftmost occurrence left, and the last holds none. */
  ghost predicate Leftmost(pieces: seq<string>, secret: string) {
    && pieces != [] && !Contains(pieces[|pieces| - 1], secret)
    && forall i | 0 <= i < |pieces| - 1 :: FirstAfter(pieces[i], secret)
  }

  /** `result` is `text` with the leftmost occurrences of `secret` exchanged for the marker. */
  ghost predicate Exchanged(text: string, secret: string, result: string) {
    exists pieces :: Leftmost(pieces, secret) && Glue(pieces, secret) == text && Glue(pieces, "[REDACTED]") == result
  }

  /** The secrets are exchanged one after the other; an empty secret changes nothing. */
  ghost predicate Redacts(text: string, secrets: seq<string>, result: string)
    decreases secrets
  {
    if secrets == [] then result == text
    else if secrets[0] == "" then Redacts(text, secrets[1..], result)
    else exists step :: Exchanged(text, secrets[0], step) && Redacts(step, secrets[1..], result)
  }

  lemma GlueCons(piece: string, pieces: seq<string>, glue: string)
    requires pieces != []
    ensures Glue([piece] + pieces, glue) == piece + (glue + Glue(pieces, glue))
  {
    assert ([piece] + pieces)[1..] == pieces;
  }

  lemma LeftmostCons(piece: string, pieces: seq<string>, secret: string)
    requires Leftmost(pieces, secret) && FirstAfter(piece, secret)
    ensures Leftmost([piece] + pieces, secret)
  {
    var all := [piece] + pieces;
    assert forall i | 0 < i < |all| :: all[i] == pieces[i - 1];
  }

  /** The first occurrence, if there is one. */
  lemma {:induction false} FirstOccurrence(text: string, secret: string) returns (k: nat)
    requires secret != ""
    ensures k <= |text| && (k < |text| ==> secret <= text[k..])
    ensures forall i | 0 <= i < k :: !(secret <= text[i..])
  {
    if text == "" || secret <= text {
      k := 0;
      assert text[0..] == text;
    } else {
      k := FirstOccurrence(text[1..], secret);
      assert text[0..] == text && forall i | 0 <= i <= k :: text[1..][i..] == text[i + 1..];
      k := k + 1;
      forall i | 0 <= i < k ensures !(secret <= text[i..]) {
        if i > 0 { assert text[1..][i - 1..] == text[i..]; }
      }
    }
  }

  lemma FirstInText(text: string, secret: string, k: nat)
    requires secret != "" && k < |text| && secret <= text[k..]
    requires forall i | 0 <= i < k :: !(secret <= text[i..])
    ensures text == text[..k] + (secret + text[k + |secret|..]) && FirstAfter(text[..k], secret)
  {
    var head := text[..k];
    assert text[..k + |secret|] == head + secret by { assert text[k..][..|secret|] == secret; }
    forall j | 0 <= j < k ensures !(secret <= (head + secret)[j..]) {
      assert (head + secret)[j..][..|secret|] == text[j..][..|secret|];
    }
  }

  lemma NoneInText(text: string, secret: string)
    requires secret != "" && forall i | 0 <= i < |text| :: !(secret <= text[i..])
    ensures !Contains(text, secret)
  {
    assert text[..|text|] == text;
    NotBeforeFirst(text, secret, |text|);
  }

  /** Every text has such pieces. */
  lemma {:induction false} PiecesExist(text: string, secret: string) returns (pieces: seq<string>)
    requires secret != ""
    ensures Leftmost(pieces, secret) && Glue(pieces, secret) == text
    decreases |text|
  {
    var k := FirstOccurrence(text, secret);
    if k == |text| {
      NoneInText(text, secret);
      pieces := [text];
    } else {
      FirstInText(text, secret, k);
      var rest := PiecesExist(text[k + |secret|..], secret);
      pieces := [text[..k]] + rest;
      LeftmostCons(text[..k], rest, secret);
      GlueCons(text[..k], rest, secret);
    }
  }

  lemma {:induction false} ReplaceNone(text: string, secret: string, mark: string)
    requires secret != "" && !Contains(text, secret)
    ensures Replace(text, secret, mark) == text
  {
    if text != "" {
      if secret <= text { PrefixIsContained(text, secret); }
      if Contains(text[1..], secret) { ContainsInTail(text, secret); }
      ReplaceNone(text[1..], secret, mark);
      assert text == [text[0]] + text[1..];
    }
  }

  lemma PrefixIsContained(text: string, p: string)
    requires p <= text
    ensures Contains(text, p)
  {
    assert text[0..] == text;
    ContainsAt(text, p, 0);
  }

  lemma ContainsInTail(text: string, p: string)
    requires text != "" && Contains(text[1..], p)
    ensures Contains(text, p)
  {
    var i :| 0 <= i <= |text[1..]| && p <= text[1..][i..];
    assert text[1..][i..] == text[i + 1..];
    ContainsAt(text, p, i + 1);
  }

  lemma {:induction false} ReplaceNext(piece: string, secret: string, rest: string, mark: string)
    requires secret != "" && FirstAfter(piece, secret)
    ensures Replace(piece + (secret + rest), secret, mark) == piece + (mark + Replace(rest, secret, mark))
  {
    var tail := secret + rest;
    if piece == "" {
      assert tail[|secret|..] == rest && secret <= tail && piece + tail == tail;
      assert piece + (mark + Replace(rest, secret, mark)) == mark + Replace(rest, secret, mark);
    } else {
      TailOfConcat(piece, tail);
      NotAtStart(piece, secret, rest);
      FirstAfterTail(piece, secret);
      ReplaceNext(piece[1..], secret, rest, mark);
      SplitAt(piece, 1);
      Associative([piece[0]], piece[1..], mark + Replace(rest, secret, mark));
    }
  }

  lemma NotAtStart(piece: string, secret: string, rest: string)
    requires piece != "" && FirstAfter(piece, secret)
    ensures !(secret <= piece + (secret + rest))
  {
    var whole, start := piece + (secret + rest), piece + secret;
    Associative(piece, secret, rest);
    assert start[0..] == start && whole[..|secret|] == start[..|secret|];
  }

  lemma FirstAfterTail(piece: string, secret: string)
    requires piece != "" && FirstAfter(piece, secret)
    ensures FirstAfter(piece[1..], secret)
  {
    forall j | 0 <= j < |piece| - 1 ensures !(secret <= (piece[1..] + secret)[j..]) {
      assert (piece[1..] + secret)[j..] == (piece + secret)[j + 1..];
    }
  }

  /** Replacing exchanges the glue, whatever the pieces. */
  lemma {:induction false} ReplaceGlue(pieces: seq<string>, secret: string, mark: string)
    requires secret != "" && Leftmost(pieces, secret)
    ensures Replace(Glue(pieces, secret), secret, mark) == Glue(pieces, mark)
  {
    if |pieces| == 1 {
      ReplaceNone(pieces[0], secret, mark);
    } else {
      var rest := pieces[1..];
      assert forall i | 0 <= i < |rest| :: rest[i] == pieces[i + 1];
      assert FirstAfter(pieces[0], secret);
      ReplaceNext(pieces[0], secret, Glue(rest, secret), mark);
      ReplaceGlue(rest, secret, mark);
    }
  }

  /** A replacement exchanges exactly the leftmost occurrences and keeps everything else. */
  lemma ReplaceExactly(text: string, secret: string, result: string)
    requires secret != ""
    ensures Exchanged(text, secret, result) <==> result == Replace(text, secret, REDACTED)
  {
    assert REDACTED == "[REDACTED]";
    var pieces := PiecesExist(text, secret);
    ReplaceGlue(pieces, secret, REDACTED);
    forall others | Leftmost(others, secret) && Glue(others, secret) == text
      ensures Glue(others, "[REDACTED]") == Replace(text, secret, REDACTED)
    {
      ReplaceGlue(others, secret, REDACTED);
    }
  }

  /** The loop over the secrets exchanges them one after the other. */
  lemma {:induction false} RedactExactly(text: string, secrets: seq<string>, result: string)
    ensures Redacts(text, secrets, result) <==> result == Redact(text, secrets)
    decreases secrets
  {
    if secrets != [] {
      var next := RedactOne(text, secrets[0]);
      RedactExactly(next, secrets[1..], result);
      if secrets[0] != "" {
        forall step ensures Exchanged(text, secrets[0], step) <==> step == next {
          ReplaceExactly(text, secrets[0], step);
        }
      }
    }
  }

  const LOG_END := "\n...[truncated]\n"
  const ERROR_START := "...[truncated build output]\n"

  lemma MarkersExactly()
    ensures LOG_TRAILER == LOG_END && ERROR_MARKER == ERROR_START
  {
  }

  lemma MarkerBytes(marker: string)
    requires marker == ERROR_MARKER
    ensures |Encode(marker)| == 28
  {
    MarkerSizes();
    EncodeAscii(marker);
  }

  /** How many bytes a log and an error text keep of `n` bytes that are over the limit. */
  function LogBytes(n: nat, limit: int): nat {
    if limit >= 0 then limit else if n + limit > 0 then n + limit else 0
  }

  function ErrorBytes(n: nat, limit: int): nat {
    if limit > 28 then limit - 28 else if n + limit > 28 then n + limit - 28 else 0
  }

  lemma LogSlice(n: nat, limit: int)
    requires n > limit
    ensures SliceBound(n, limit) == LogBytes(n, limit)
  {
  }

  lemma ErrorSlice(n: nat, limit: int)
    requires n > limit
    ensures SliceBound(n, -(limit - 28)) == n - ErrorBytes(n, limit) && ErrorBytes(n, limit) <= n
  {
  }

  lemma LogIs(s: string, limit: int, trailer: string)
    requires |Encode(s)| > limit
    ensures exists p :: KeepHead(s, limit, trailer) == p + trailer && LongestPrefix(s, LogBytes(|Encode(s)|, limit), p)
  {
    LogSlice(|Encode(s)|, limit);
    CutPrefix(s, LogBytes(|Encode(s)|, limit));
    var p := DecodeIgnore(Encode(s)[..LogBytes(|Encode(s)|, limit)]);
    assert KeepHead(s, limit, trailer) == p + trailer;
  }

  /** The log of a text, stated without computing it: the redacted text when it fits, else its longest
      whole-character prefix in front of the byte cut and the trailer. */
  lemma LogExactly(text: string, secrets: seq<string>, limit: int, s: string)
    requires Redacts(text, secrets, s)
    ensures var r := BoundedLogText(text, secrets, limit);
            if |Encode(s)| <= limit then r == s
            else exists p :: r == p + LOG_END && LongestPrefix(s, LogBytes(|Encode(s)|, limit), p)
  {
    RedactExactly(text, secrets, s);
    MarkersExactly();
    if |Encode(s)| > limit { LogIs(s, limit, LOG_TRAILER); }
  }

  lemma KeptIs(s: string, limit: int)
    requires |Encode(s)| > limit
    ensures LongestSuffix(s, ErrorBytes(|Encode(s)|, limit), KeptTail(s, limit, 28))
  {
    var n := |Encode(s)|;
    var k := n - ErrorBytes(n, limit);
    ErrorSlice(n, limit);
    CutSuffix(s, k);
    assert KeptTail(s, limit, 28) == DecodeIgnore(Encode(s)[k..]);
  }

  lemma ErrorIs(s: string, limit: int, marker: string)
    requires |Encode(s)| > limit && |Encode(marker)| == 28
    ensures exists p :: KeepTail(s, limit, marker) == marker + p
                        && LongestSuffix(s, ErrorBytes(|Encode(s)|, limit), p)
  {
    KeptIs(s, limit);
    assert KeepTail(s, limit, marker) == marker + KeptTail(s, limit, 28);
  }

  /** The same for the error text: the marker in front, and the longest suffix behind the byte cut. */
  lemma ErrorExactly(text: string, secrets: seq<string>, limit: int, s: string)
    requires Redacts(text, secrets, s)
    ensures var r := BoundedErrorText(text, secrets, limit);
            if |Encode(s)| <= limit then r == s
            else exists p :: r == ERROR_START + p
                             && LongestSuffix(s, ErrorBytes(|Encode(s)|, limit), p)
  {
    RedactExactly(text, secrets, s);
    MarkersExactly();
    if |Encode(s)| > limit {
      MarkerBytes(ERROR_MARKER);
      ErrorIs(s, limit, ERROR_MARKER);
    }
  }
}
