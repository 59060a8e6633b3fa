/** `UnescapeJSONInLine`: the write-time repair pass that turns JSON text a
    colourising renderer escaped into a string literal back into raw JSON,
    while copying ANSI colour sequences untouched.

    `Scan` is the reference: a recursive function over the rest of the line,
    one `Step` at a time. `UnescapeJsonInLine` is the index loop of the Go
    code, proved equal to it. */
module Unescape {
  import opened Wrappers
  import opened Bytes
  import Strconv

  // --------------------------------------------------------------- ANSI runs

  /** `s` starts with the control sequence introducer ESC '['. */
  predicate StartsAnsi(s: seq<byte>) {
    |s| > 1 && s[0] == ESC && s[1] == LBRACKET
  }

  /** The first index at or after `k` holding 'm', or |s| when there is none. */
  function FindM(s: seq<byte>, k: nat): (j: nat)
    requires k <= |s|
    ensures k <= j <= |s|
    ensures j < |s| ==> s[j] == LETTER_M
    ensures forall i :: k <= i < j ==> s[i] != LETTER_M
    decreases |s| - k
  {
    if k == |s| || s[k] == LETTER_M then k else FindM(s, k + 1)
  }

  /** Length of the ANSI run at the front of `s`: through the first 'm' after
      ESC '[', or to the end of the input when no 'm' follows. */
  function AnsiEnd(s: seq<byte>): (j: nat)
    requires StartsAnsi(s)
    ensures 2 <= j <= |s|
  {
    var m := FindM(s, 2);
    if m < |s| then m + 1 else m
  }

  /** The ANSI run ends just after the first 'm' following ESC '[', or at
      the end of the input when no 'm' follows. */
  lemma AnsiEndSpec(s: seq<byte>)
    requires StartsAnsi(s)
    ensures forall i :: 2 <= i < AnsiEnd(s) - 1 ==> s[i] != LETTER_M
    ensures || (AnsiEnd(s) > 2 && s[AnsiEnd(s) - 1] == LETTER_M)
            || (AnsiEnd(s) == |s| && forall i :: 2 <= i < |s| ==> s[i] != LETTER_M)
  {
  }

  // ------------------------------------------------------ candidate segments

  /** `s` starts a candidate: a quote, then '{' or '[', then at least one more byte. */
  predicate StartsCandidate(s: seq<byte>) {
    |s| > 2 && s[0] == QUOTE && (s[1] == LBRACE || s[1] == LBRACKET)
  }

  /** Where the segment loop stops: `end` is one past the closing quote (or
      |s| if the line ends first); `escapedQuote` records whether it met an
      unescaped backslash followed by a quote. */
  datatype Segment = Segment(end: nat, escapedQuote: bool)

  /** The segment loop from position `j` in escape state `escaped`, having
      already seen an escaped quote iff `found`. */
  function ScanSegment(s: seq<byte>, j: nat, escaped: bool, found: bool): (r: Segment)
    requires 1 <= j <= |s|
    ensures j <= r.end <= |s|
    decreases |s| - j
  {
    if j == |s| then Segment(j, found)
    else if escaped then ScanSegment(s, j + 1, false, found)
    else if s[j] == BACKSLASH then
      ScanSegment(s, j + 1, true, found || (j + 1 < |s| && s[j + 1] == QUOTE))
    else if s[j] == QUOTE then Segment(j + 1, found)
    else ScanSegment(s, j + 1, false, found)
  }

  /** The segment that starts at the opening quote of a candidate. */
  function CandidateSegment(s: seq<byte>): (r: Segment)
    requires StartsCandidate(s)
    ensures 2 <= r.end <= |s|
  {
    ScanSegment(s, 1, false, false)
  }

  // ------------------------------------------------------------- the scanner

  /** What one turn of the scan emits and how far it advances. */
  datatype Emit = Emit(out: seq<byte>, next: nat)

  /** One turn of the loop at the front of `s`: an ANSI run is copied whole;
      a candidate whose segment holds an escaped quote and unquotes is
      replaced by its unquoted text; anything else emits one byte. */
  function Step(s: seq<byte>): (e: Emit)
    requires |s| > 0
    ensures 1 <= e.next <= |s|
  {
    if StartsAnsi(s) then Emit(s[..AnsiEnd(s)], AnsiEnd(s))
    else if StartsCandidate(s) then
      var seg := CandidateSegment(s);
      if seg.escapedQuote && seg.end > 1 then
        match Strconv.Unquote(s[..seg.end])
        case Some(u) => Emit(u, seg.end)
        case None => Emit(s[..1], 1)
      else Emit(s[..1], 1)
    else Emit(s[..1], 1)
  }

  /** The whole line: the cursor advances by at least one byte per turn, so
      the scan is total. */
  function Scan(s: seq<byte>): seq<byte>
    decreases |s|
  {
    if |s| == 0 then [] else Step(s).out + Scan(s[Step(s).next..])
  }

  /** The inner loop of the ANSI branch: from just after ESC '[' to the
      first 'm', then past it if there is one. */
  method FindAnsiEnd(line: seq<byte>, i: nat) returns (j: nat)
    requires i <= |line| && StartsAnsi(line[i..])
    ensures j == i + AnsiEnd(line[i..])
  {
    ghost var s := line[i..];
    j := i + 2;
    while j < |line| && line[j] != LETTER_M
      invariant i + 2 <= j <= |line|
      invariant FindM(s, j - i) == FindM(s, 2)
    {
      j := j + 1;
    }
    if j < |line| {
      j := j + 1;
    }
  }

  /** The inner loop of the candidate branch: walks the segment with
      backslash-escape state and notes whether an escaped quote occurs. */
  method FindSegmentEnd(line: seq<byte>, i: nat) returns (j: nat, foundJson: bool)
    requires i <= |line| && StartsCandidate(line[i..])
    ensures i < j && CandidateSegment(line[i..]) == Segment(j - i, foundJson)
  {
    ghost var s := line[i..];
    j := i + 1;
    var escaped := false;
    foundJson := false;
    while j < |line|
      invariant i + 1 <= j <= |line|
      invariant ScanSegment(s, j - i, escaped, foundJson) == CandidateSegment(s)
    {
      if escaped {
        escaped := false;
        j := j + 1;
        continue;
      }
      if line[j] == BACKSLASH {
        if j + 1 < |line| && line[j + 1] == QUOTE {
          foundJson := true;
        }
        escaped := true;
        j := j + 1;
        continue;
      }
      if line[j] == QUOTE {
        j := j + 1;
        return;
      }
      j := j + 1;
    }
  }

  /** Scanning the rest of the line from `i` is one step followed by the scan
      from wherever that step stops. */
  lemma ScanAdvance(line: seq<byte>, i: nat, j: nat, out: seq<byte>)
    requires i < j <= |line| && Step(line[i..]) == Emit(out, j - i)
    ensures Scan(line[i..]) == out + Scan(line[j..])
  {
    var s := line[i..];
    assert s[j - i..] == line[j..];
  }

  /** The loop invariant survives a turn that emits `out` and moves the
      cursor from `i` to `j`, provided that is what `Step` does there. */
  lemma AdvanceInvariant(line: seq<byte>, i: nat, j: nat, out: seq<byte>, result: seq<byte>)
    requires i < j <= |line|
    requires Step(line[i..]) == Emit(out, j - i)
    requires result + Scan(line[i..]) == Scan(line)
    ensures (result + out) + Scan(line[j..]) == Scan(line)
  {
    ScanAdvance(line, i, j, out);
    Rebalance(result, Scan(line[i..]), out, Scan(line[j..]), Scan(line));
  }

  lemma Rebalance(done: seq<byte>, todo: seq<byte>, out: seq<byte>, tail: seq<byte>, whole: seq<byte>)
    requires done + todo == whole && todo == out + tail
    ensures (done + out) + tail == whole
  {
  }

  lemma StepAnsi(s: seq<byte>)
    requires StartsAnsi(s)
    ensures Step(s) == Emit(s[..AnsiEnd(s)], AnsiEnd(s))
  {
  }

  lemma StepJson(s: seq<byte>, u: seq<byte>)
    requires !StartsAnsi(s) && StartsCandidate(s) && CandidateSegment(s).escapedQuote
    requires CandidateSegment(s).end > 1 && Strconv.Unquote(s[..CandidateSegment(s).end]) == Some(u)
    ensures Step(s) == Emit(u, CandidateSegment(s).end)
  {
  }

  lemma StepPlain(s: seq<byte>)
    requires |s| > 0 && Plain(s)
    ensures Step(s) == Emit(s[..1], 1)
  {
  }

  /** The ANSI branch: copy the run and continue after it. */
  lemma AnsiTurn(line: seq<byte>, i: nat, j: nat, result: seq<byte>)
    requires i < |line| && StartsAnsi(line[i..]) && j == i + AnsiEnd(line[i..])
    requires result + Scan(line[i..]) == Scan(line)
    ensures (result + line[i..j]) + Scan(line[j..]) == Scan(line)
  {
    StepAnsi(line[i..]);
    assert line[i..j] == line[i..][..j - i];
    AdvanceInvariant(line, i, j, line[i..j], result);
  }

  /** The replacing branch: emit the unquoted text and continue after the
      closing quote. */
  lemma JsonTurn(line: seq<byte>, i: nat, j: nat, u: seq<byte>, result: seq<byte>)
    requires i + 1 < j <= |line| && !StartsAnsi(line[i..]) && StartsCandidate(line[i..])
    requires CandidateSegment(line[i..]) == Segment(j - i, true)
    requires Strconv.Unquote(line[i..j]) == Some(u)
    requires result + Scan(line[i..]) == Scan(line)
    ensures (result + u) + Scan(line[j..]) == Scan(line)
  {
    assert line[i..j] == line[i..][..j - i];
    StepJson(line[i..], u);
    AdvanceInvariant(line, i, j, u, result);
  }

  /** No rewrite applies at the front of `s`. */
  predicate Plain(s: seq<byte>)
    requires |s| > 0
  {
    && !StartsAnsi(s)
    && (StartsCandidate(s) ==>
          var seg := CandidateSegment(s);
          !(seg.escapedQuote && seg.end > 1 && Strconv.Unquote(s[..seg.end]).Some?))
  }

  /** The default branch: copy one byte. */
  lemma PlainTurn(line: seq<byte>, i: nat, result: seq<byte>)
    requires i < |line| && Plain(line[i..])
    requires result + Scan(line[i..]) == Scan(line)
    ensures (result + [line[i]]) + Scan(line[i + 1..]) == Scan(line)
  {
    StepPlain(line[i..]);
    assert line[i..][..1] == [line[i]];
    AdvanceInvariant(line, i, i + 1, [line[i]], result);
  }

  /** `UnescapeJSONInLine`, written as the Go loop over indices. */
  method UnescapeJsonInLine(line: seq<byte>) returns (result: seq<byte>)
    ensures result == Scan(line)
  {
    if |line| == 0 {
      return line;
    }
    result := [];
    var i := 0;
    while i < |line|
      invariant 0 <= i <= |line|
      invariant result + Scan(line[i..]) == Scan(line)
      decreases |line| - i
    {
      if line[i] == ESC && i + 1 < |line| && line[i + 1] == LBRACKET {
        var j := FindAnsiEnd(line, i);
        AnsiTurn(line, i, j, result);
        result := result + line[i..j];
        i := j;
        continue;
      }
      if line[i] == QUOTE && i + 2 < |line| && (line[i + 1] == LBRACE || line[i + 1] == LBRACKET) {
        var j, foundJson := FindSegmentEnd(line, i);
        if foundJson && j > i + 1 {
          var unquoted := Strconv.Unquote(line[i..j]);
          if unquoted.Some? {
            JsonTurn(line, i, j, unquoted.value, result);
            result := result + unquoted.value;
            i := j;
            continue;
          }
          assert line[i..j] == line[i..][..j - i];
        }
      }
      PlainTurn(line, i, result);
      result := result + [line[i]];
      i := i + 1;
    }
  }


  // ------------------------------------------- what the segment loop finds

  /** Backslashes immediately before position `p`, not reaching back past
      position 1 (the byte after the opening quote). */
  function BackslashRun(s: seq<byte>, p: nat): nat
    requires 1 <= p <= |s|
  {
    if p == 1 || s[p - 1] != BACKSLASH then 0 else 1 + BackslashRun(s, p - 1)
  }

  /** Position `p` of a segment is escaped: an odd run of backslashes precedes it. */
  predicate Escaped(s: seq<byte>, p: nat)
    requires 1 <= p <= |s|
  {
    BackslashRun(s, p) % 2 == 1
  }

  /** An unescaped quote at `p` closes the segment. */
  predicate ClosesAt(s: seq<byte>, p: nat)
    requires 1 <= p < |s|
  {
    s[p] == QUOTE && !Escaped(s, p)
  }

  /** An unescaped backslash at `p` followed by a quote: an escaped quote. */
  predicate EscapedQuoteAt(s: seq<byte>, p: nat)
    requires 1 <= p < |s|
  {
    s[p] == BACKSLASH && !Escaped(s, p) && p + 1 < |s| && s[p + 1] == QUOTE
  }

  /** `r` is the segment that runs from `j`: it ends just after the first
      closing quote at or after `j`, or at the end of the line when there is
      none, and it reports an escaped quote iff `found` or one occurs in it. */
  predicate SegmentFrom(s: seq<byte>, j: nat, found: bool, r: Segment)
    requires 1 <= j <= |s|
  {
    && j <= r.end <= |s|
    && (forall p :: j <= p < r.end - 1 ==> !ClosesAt(s, p))
    && ((r.end > j && ClosesAt(s, r.end - 1))
        || (r.end == |s| && forall p :: j <= p < |s| ==> !ClosesAt(s, p)))
    && (r.escapedQuote <==> found || exists p :: j <= p < r.end && EscapedQuoteAt(s, p))
  }

  lemma {:induction false} ScanSegmentMeetsSpec(s: seq<byte>, j: nat, escaped: bool, found: bool)
    requires 1 <= j <= |s| && escaped == Escaped(s, j)
    ensures SegmentFrom(s, j, found, ScanSegment(s, j, escaped, found))
    decreases |s| - j
  {
    var r := ScanSegment(s, j, escaped, found);
    if j < |s| {
      if escaped {
        assert !Escaped(s, j + 1);
        ScanSegmentMeetsSpec(s, j + 1, false, found);
        assert !ClosesAt(s, j) && !EscapedQuoteAt(s, j);
      } else if s[j] == BACKSLASH {
        var found' := found || (j + 1 < |s| && s[j + 1] == QUOTE);
        assert Escaped(s, j + 1);
        ScanSegmentMeetsSpec(s, j + 1, true, found');
        assert !ClosesAt(s, j);
        assert EscapedQuoteAt(s, j) <==> j + 1 < |s| && s[j + 1] == QUOTE;
        if r.escapedQuote && !found {
          if j + 1 < |s| && s[j + 1] == QUOTE {
            assert EscapedQuoteAt(s, j);
          }
        }
      } else if s[j] == QUOTE {
        assert ClosesAt(s, j);
        assert !EscapedQuoteAt(s, j);
      } else {
        assert !Escaped(s, j + 1);
        ScanSegmentMeetsSpec(s, j + 1, false, found);
        assert !ClosesAt(s, j) && !EscapedQuoteAt(s, j);
      }
    }
  }

  /** The candidate segment, described without the loop: it is closed by the
      first quote not escaped by an odd run of backslashes (or runs to the
      end of the line), and it reports an escaped quote exactly when it
      holds a backslash-quote pair at an unescaped position. */
  lemma CandidateSegmentSpec(s: seq<byte>)
    requires StartsCandidate(s)
    ensures SegmentFrom(s, 1, false, CandidateSegment(s))
  {
    ScanSegmentMeetsSpec(s, 1, false, false);
  }

  // ------------------------------------------------------- scanner properties

  lemma ScanUnfold(s: seq<byte>)
    requires |s| > 0
    ensures Scan(s) == Step(s).out + Scan(s[Step(s).next..])
  {
  }

  /** A candidate segment with no escaped quote, or one that does not
      unquote, emits just its opening quote and scanning resumes one byte
      later; one that unquotes is replaced whole by its unquoted text. */
  lemma ScanAtCandidate(s: seq<byte>)
    requires StartsCandidate(s)
    ensures var seg := CandidateSegment(s);
      (seg.escapedQuote && Strconv.Unquote(s[..seg.end]).Some?
       ==> Scan(s) == Strconv.Unquote(s[..seg.end]).value + Scan(s[seg.end..]))
      && (!seg.escapedQuote || Strconv.Unquote(s[..seg.end]).None?
       ==> Scan(s) == [QUOTE] + Scan(s[1..]))
  {
    ScanUnfold(s);
  }

  /** A quote that does not start a candidate (not followed by '{' or '[',
      or with fewer than two bytes after it) is an ordinary byte. */
  lemma ScanOrdinaryQuote(s: seq<byte>)
    requires |s| > 0 && s[0] == QUOTE && !StartsCandidate(s)
    ensures Scan(s) == [QUOTE] + Scan(s[1..])
  {
    ScanUnfold(s);
  }

  /** A terminated ANSI run is copied verbatim, 'm' included, and its
      contents are never inspected for quotes. */
  lemma ScanCopiesAnsi(params: seq<byte>, rest: seq<byte>)
    requires LETTER_M !in params
    ensures Scan([ESC, LBRACKET] + params + [LETTER_M] + rest)
         == [ESC, LBRACKET] + params + [LETTER_M] + Scan(rest)
  {
    var run := [ESC, LBRACKET] + params + [LETTER_M];
    var s := run + rest;
    assert s[|run| - 1] == LETTER_M;
    forall i | 2 <= i < |run| - 1 ensures s[i] != LETTER_M {
      assert s[i] == params[i - 2];
    }
    assert FindM(s, 2) == |run| - 1;
    ScanUnfold(s);
    assert s[..|run|] == run && s[|run|..] == rest;
  }

  /** An ANSI run with no terminating 'm' is copied through to the end. */
  lemma ScanCopiesUnterminatedAnsi(params: seq<byte>)
    requires LETTER_M !in params
    ensures Scan([ESC, LBRACKET] + params) == [ESC, LBRACKET] + params
  {
    var s := [ESC, LBRACKET] + params;
    forall i | 2 <= i < |s| ensures s[i] != LETTER_M {
      assert s[i] == params[i - 2];
    }
    assert FindM(s, 2) == |s|;
    ScanUnfold(s);
    assert s[..|s|] == s && s[|s|..] == [];
  }

  lemma {:induction false} ScanSegmentFindsNoQuote(s: seq<byte>, j: nat, escaped: bool)
    requires 1 <= j <= |s| && !HasBackslashQuote(s)
    ensures !ScanSegment(s, j, escaped, false).escapedQuote
    decreases |s| - j
  {
    if j < |s| {
      if !escaped && s[j] == BACKSLASH && j + 1 < |s| {
        assert s[j + 1] != QUOTE;
      }
      ScanSegmentFindsNoQuote(s, j + 1, !escaped && s[j] == BACKSLASH);
    }
  }

  /** A line without a backslash-quote pair comes back unchanged: only a
      segment holding an escaped quote is ever rewritten. */
  lemma {:induction false} ScanIdentityWithoutEscapedQuote(s: seq<byte>)
    requires !HasBackslashQuote(s)
    ensures Scan(s) == s
    decreases |s|
  {
    if |s| > 0 {
      var e := Step(s);
      if StartsCandidate(s) {
        ScanSegmentFindsNoQuote(s, 1, false);
      }
      assert e.out == s[..e.next];
      assert !HasBackslashQuote(s[e.next..]) by {
        var r := s[e.next..];
        forall k | 0 <= k < |r| - 1 ensures !(r[k] == BACKSLASH && r[k + 1] == QUOTE) {
          assert r[k] == s[e.next + k] && r[k + 1] == s[e.next + k + 1];
        }
      }
      ScanIdentityWithoutEscapedQuote(s[e.next..]);
      ScanUnfold(s);
      assert s[..e.next] + s[e.next..] == s;
    }
  }

  /** The empty line, and any line without a double quote, is returned unchanged. */
  lemma ScanIdentityWithoutQuote(s: seq<byte>)
    requires QUOTE !in s
    ensures Scan(s) == s
  {
    forall k | 1 <= k < |s| ensures s[k] != QUOTE {
      assert s[k] in s;
    }
    ScanIdentityWithoutEscapedQuote(s);
  }

  /** `e` occurs in `s` at position `j`. */
  predicate At(s: seq<byte>, j: nat, e: seq<byte>) {
    j + |e| <= |s| && forall k :: 0 <= k < |e| ==> s[j + k] == e[k]
  }

  lemma AtPrefix(s: seq<byte>, j: nat, x: seq<byte>, a: seq<byte>, b: seq<byte>)
    requires At(s, j, x) && x == a + b
    ensures At(s, j, a)
  {
    forall k | 0 <= k < |a| ensures s[j + k] == a[k] {
      assert x[k] == a[k];
    }
  }

  lemma AtSuffix(s: seq<byte>, j: nat, x: seq<byte>, a: seq<byte>, b: seq<byte>)
    requires At(s, j, x) && x == a + b
    ensures At(s, j + |a|, b)
  {
    forall k | 0 <= k < |b| ensures s[j + |a| + k] == b[k] {
      assert x[|a| + k] == b[k];
    }
  }

  /** Inside a quoted literal's body every backslash starts a pair, so the
      segment loop walks over one escaped byte without closing, and it sees
      an escaped quote exactly when that byte was a quote. */
  lemma ScanSegmentOverByte(s: seq<byte>, j: nat, b: byte, found: bool)
    requires 1 <= j && At(s, j, Strconv.EscapeByte(b))
    ensures ScanSegment(s, j, false, found)
         == ScanSegment(s, j + |Strconv.EscapeByte(b)|, false, found || b == QUOTE)
  {
    var e := Strconv.EscapeByte(b);
    var found' := found || b == QUOTE;
    assert s[j] == e[0];
    if |e| == 1 {
      assert s[j] != BACKSLASH && s[j] != QUOTE;
    } else if |e| == 2 {
      assert s[j] == BACKSLASH && s[j + 1] == e[1];
      assert ScanSegment(s, j, false, found) == ScanSegment(s, j + 1, true, found');
    } else {
      assert s[j] == BACKSLASH && s[j + 1] == e[1] == 'x' as int;
      assert s[j + 2] == e[2] && s[j + 3] == e[3];
      assert s[j + 2] != BACKSLASH && s[j + 2] != QUOTE;
      assert s[j + 3] != BACKSLASH && s[j + 3] != QUOTE;
      assert ScanSegment(s, j, false, found) == ScanSegment(s, j + 1, true, found);
      assert ScanSegment(s, j + 1, true, found) == ScanSegment(s, j + 2, false, found);
      assert ScanSegment(s, j + 2, false, found) == ScanSegment(s, j + 3, false, found);
    }
  }

  /** The same over a whole escaped string: the loop reaches its end still
      unescaped, having seen an escaped quote iff the string held a quote. */
  lemma {:induction false} ScanSegmentOverEscape(s: seq<byte>, j: nat, t: seq<byte>, found: bool)
    requires 1 <= j && At(s, j, Strconv.Escape(t))
    ensures ScanSegment(s, j, false, found)
         == ScanSegment(s, j + |Strconv.Escape(t)|, false, found || QUOTE in t)
    decreases |t|
  {
    if |t| == 0 {
      assert QUOTE !in t;
    } else {
      var found' := found || t[0] == QUOTE;
      var e, rest := Strconv.EscapeByte(t[0]), Strconv.Escape(t[1..]);
      Strconv.EscapeCons(t);
      AtPrefix(s, j, Strconv.Escape(t), e, rest);
      AtSuffix(s, j, Strconv.Escape(t), e, rest);
      ScanSegmentOverByte(s, j, t[0], found);
      ScanSegmentOverEscape(s, j + |e|, t[1..], found');
      QuoteInCons(t);
      assert |Strconv.Escape(t)| == |e| + |rest|;
    }
  }

  lemma QuoteInCons(t: seq<byte>)
    requires |t| > 0
    ensures (QUOTE in t) == (t[0] == QUOTE || QUOTE in t[1..])
  {
    assert t == [t[0]] + t[1..];
  }

  /** The repair itself: JSON text that an encoder quoted into a string
      literal is restored to raw JSON, and scanning continues after the
      literal's closing quote. */
  lemma ScanRestoresQuotedJson(t: seq<byte>, rest: seq<byte>)
    requires OpensJson(t) && QUOTE in t
    ensures Scan(Strconv.Quote(t) + rest) == t + Scan(rest)
  {
    var q := Strconv.Quote(t);
    var s := q + rest;
    var esc := Strconv.Escape(t);
    assert esc == Strconv.EscapeByte(t[0]) + Strconv.Escape(t[1..]);
    assert s == [QUOTE] + esc + ([QUOTE] + rest);
    assert s[1] == t[0];
    assert StartsCandidate(s) && !StartsAnsi(s);
    assert At(s, 1, esc) by {
      forall k | 0 <= k < |esc| ensures s[1 + k] == esc[k] {
        assert s[1 + k] == ([QUOTE] + esc)[1 + k];
      }
    }
    ScanSegmentOverEscape(s, 1, t, false);
    assert s[1 + |esc|] == QUOTE;
    assert CandidateSegment(s) == Segment(|q|, true);
    assert s[..|q|] == q && s[|q|..] == rest;
    Strconv.UnquoteQuote(t);
    ScanAtCandidate(s);
  }

  /** The coloured case of the repair: a quoted JSON literal wrapped in a
      colour sequence and a reset comes out as raw JSON between the same two
      sequences, byte for byte. */
  lemma ScanColouredJson(params: seq<byte>, t: seq<byte>, rest: seq<byte>)
    requires LETTER_M !in params && OpensJson(t) && QUOTE in t
    ensures var colour := [ESC, LBRACKET] + params + [LETTER_M];
      var reset := [ESC, LBRACKET] + ['0' as int] + [LETTER_M];
      Scan(colour + Strconv.Quote(t) + reset + rest) == colour + t + reset + Scan(rest)
  {
    var colour := [ESC, LBRACKET] + params + [LETTER_M];
    var reset := [ESC, LBRACKET] + ['0' as int] + [LETTER_M];
    var q := Strconv.Quote(t);
    Regroup(colour, q, reset, rest);
    ScanCopiesAnsi(params, q + (reset + rest));
    ScanRestoresQuotedJson(t, reset + rest);
    ScanCopiesAnsi(['0' as int], rest);
    Regroup(colour, t, reset, Scan(rest));
  }

  lemma Regroup(a: seq<byte>, b: seq<byte>, c: seq<byte>, d: seq<byte>)
    ensures a + b + c + d == a + (b + (c + d))
  {
  }
}
