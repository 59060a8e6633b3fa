/** The two pieces of Go's `strconv` package the core calls on its hot paths:
    `ParseBool` (struct tags, `LOG_PRETTY`) and the double-quoted form of
    `Unquote` (the scanner's repair step). */
module Strconv {
  import opened Wrappers
  import opened Bytes

  // ------------------------------------------------------------------ ParseBool

  predicate SpellsTrue(s: string) {
    s == "1" || s == "t" || s == "T" || s == "TRUE" || s == "true" || s == "True"
  }

  predicate SpellsFalse(s: string) {
    s == "0" || s == "f" || s == "F" || s == "FALSE" || s == "false" || s == "False"
  }

  /** `strconv.ParseBool`: six spellings of true, six of false, a syntax error
      (None) for everything else -- including the empty string and " true". */
  function ParseBool(s: string): (r: Option<bool>)
    ensures r.Some? <==> SpellsTrue(s) || SpellsFalse(s)
    ensures r == Some(true) <==> SpellsTrue(s)
  {
    if SpellsTrue(s) then Some(true)
    else if SpellsFalse(s) then Some(false)
    else None
  }

  /** What `v, _ := strconv.ParseBool(s)` leaves in `v`: Go returns false
      alongside the syntax error, so an unparseable string reads as false. */
  function ParseBoolOrFalse(s: string): (v: bool)
    ensures v <==> SpellsTrue(s)
    ensures ParseBool(s) == None ==> !v
  {
    ParseBool(s).GetOr(false)
  }

  /** `strconv.FormatBool`, the printing partner of ParseBool. */
  function FormatBool(b: bool): string {
    if b then "true" else "false"
  }

  lemma {:induction false} ParseBoolFormatBool(b: bool)
    ensures ParseBool(FormatBool(b)) == Some(b)
    ensures ParseBoolOrFalse(FormatBool(b)) == b
  {
    if b {
      assert SpellsTrue(FormatBool(b));
    } else {
      assert FormatBool(b) == "false";
      assert !SpellsTrue("false") by {
        assert "false"[0] == 'f';
      }
    }
  }

  // ---------------------------------------------------------------- UTF-8 input

  /** The three bytes of U+FFFD, which `Unquote` writes for each byte of
      malformed UTF-8 it meets. */
  const RUNE_ERROR: seq<byte> := [0xEF, 0xBF, 0xBD]

  predicate IsContinuation(b: byte) {
    0x80 <= b <= 0xBF
  }

  /** `n` when the first `n` bytes of `s` form a sequence whose second byte
      lies in `lo..hi` and whose later bytes are continuation bytes; else 0. */
  function SequenceOf(s: seq<byte>, n: nat, lo: byte, hi: byte): (w: nat)
    requires 2 <= n <= 4
    ensures w == 0 || (w == n && n <= |s|)
  {
    if |s| >= n && lo <= s[1] <= hi && forall k :: 2 <= k < n ==> IsContinuation(s[k])
    then n
    else 0
  }

  /** Width of the well-formed UTF-8 sequence that starts `s` with a
      non-ASCII byte, or 0 where `utf8.DecodeRune` reports `RuneError` of
      width 1 (stray continuation bytes, overlong forms, surrogates, code
      points past U+10FFFF, truncated sequences). */
  function Utf8Width(s: seq<byte>): (w: nat)
    requires |s| > 0 && s[0] >= 0x80
    ensures w == 0 || (2 <= w <= 4 && w <= |s|)
    ensures w > 0 ==> forall k :: 1 <= k < w ==> s[k] >= 0x80
  {
    var b0 := s[0];
    if 0xC2 <= b0 <= 0xDF then SequenceOf(s, 2, 0x80, 0xBF)
    else if b0 == 0xE0 then SequenceOf(s, 3, 0xA0, 0xBF)
    else if 0xE1 <= b0 <= 0xEC || 0xEE <= b0 <= 0xEF then SequenceOf(s, 3, 0x80, 0xBF)
    else if b0 == 0xED then SequenceOf(s, 3, 0x80, 0x9F)
    else if b0 == 0xF0 then SequenceOf(s, 4, 0x90, 0xBF)
    else if 0xF1 <= b0 <= 0xF3 then SequenceOf(s, 4, 0x80, 0xBF)
    else if b0 == 0xF4 then SequenceOf(s, 4, 0x80, 0x8F)
    else 0
  }

  // ------------------------------------------------------- numeric escapes

  function HexDigit(b: byte): (d: Option<nat>)
    ensures d.Some? ==> d.value < 16
  {
    if '0' as int <= b <= '9' as int then Some(b - '0' as int)
    else if 'a' as int <= b <= 'f' as int then Some(b - 'a' as int + 10)
    else if 'A' as int <= b <= 'F' as int then Some(b - 'A' as int + 10)
    else None
  }

  /** The big-endian value of a run of hex digits, None if one is not a digit. */
  function HexValue(s: seq<byte>): (v: Option<nat>)
    ensures v.Some? <==> forall k :: 0 <= k < |s| ==> HexDigit(s[k]).Some?
  {
    if |s| == 0 then Some(0)
    else
      match HexValue(s[..|s| - 1])
      case None => None
      case Some(high) =>
        match HexDigit(s[|s| - 1])
        case None => None
        case Some(low) => Some(high * 16 + low)
  }

  predicate IsOctal(b: byte) {
    '0' as int <= b <= '7' as int
  }

  /** `utf8.ValidRune`: a Unicode scalar value (no surrogates, at most U+10FFFF). */
  predicate ValidRune(r: int) {
    0 <= r < 0xD800 || 0xE000 <= r <= 0x10FFFF
  }

  /** `utf8.AppendRune` of a valid rune. */
  function EncodeRune(r: int): (e: seq<byte>)
    requires ValidRune(r)
    ensures 1 <= |e| <= 4
  {
    if r < 0x80 then [r]
    else if r < 0x800 then [0xC0 + r / 64, 0x80 + r % 64]
    else if r < 0x10000 then [0xE0 + r / 4096, 0x80 + (r / 64) % 64, 0x80 + r % 64]
    else [0xF0 + r / 262144, 0x80 + (r / 4096) % 64, 0x80 + (r / 64) % 64, 0x80 + r % 64]
  }

  // ------------------------------------------------------------------- Unquote

  /** One decoded character: the bytes it appends and how many input bytes it used. */
  datatype Decoded = Decoded(bytes: seq<byte>, width: nat)

  /** The byte a one-letter escape stands for: `\a \b \f \n \r \t \v \\ \"`.
      `\'` is absent: inside double quotes it is a syntax error. */
  function SimpleEscape(e: byte): Option<byte> {
    if e == 'a' as int then Some(0x07)
    else if e == 'b' as int then Some(0x08)
    else if e == 'f' as int then Some(0x0C)
    else if e == 'n' as int then Some(0x0A)
    else if e == 'r' as int then Some(0x0D)
    else if e == 't' as int then Some(0x09)
    else if e == 'v' as int then Some(0x0B)
    else if e == BACKSLASH then Some(BACKSLASH)
    else if e == QUOTE then Some(QUOTE)
    else None
  }

  /** The escape sequence at the front of `s` (which starts with a backslash),
      as `strconv.UnquoteChar` decodes it with `"` as the quote. */
  function EscapeSequence(s: seq<byte>): (r: Option<Decoded>)
    requires |s| >= 2 && s[0] == BACKSLASH
    ensures r.Some? ==> 2 <= r.value.width <= |s|
  {
    var e := s[1];
    if SimpleEscape(e).Some? then Some(Decoded([SimpleEscape(e).value], 2))
    else if e == 'x' as int then
      if |s| < 4 then None
      else
        match (HexDigit(s[2]), HexDigit(s[3]))
        case (Some(high), Some(low)) => Some(Decoded([high * 16 + low], 4))
        case _ => None
    else if e == 'u' as int || e == 'U' as int then
      var n := if e == 'u' as int then 4 else 8;
      if |s| < 2 + n then None
      else
        match HexValue(s[2..2 + n])
        case Some(v) => if ValidRune(v) then Some(Decoded(EncodeRune(v), 2 + n)) else None
        case None => None
    else if IsOctal(e) then
      if |s| < 4 || !IsOctal(s[2]) || !IsOctal(s[3]) then None
      else
        var v := (e - '0' as int) * 64 + (s[2] - '0' as int) * 8 + (s[3] - '0' as int);
        if v > 255 then None else Some(Decoded([v], 4))
    else None
  }

  /** `strconv.UnquoteChar(s, '"')`: decodes the first character of `s`. */
  function UnquoteChar(s: seq<byte>): (r: Option<Decoded>)
    requires |s| > 0
    ensures r.Some? ==> 1 <= r.value.width <= |s|
    ensures r.Some? ==> s[0] != QUOTE
  {
    var c := s[0];
    if c == QUOTE then None
    else if c >= 0x80 then
      var w := Utf8Width(s);
      if w == 0 then Some(Decoded(RUNE_ERROR, 1)) else Some(Decoded(s[..w], w))
    else if c != BACKSLASH then Some(Decoded([c], 1))
    else if |s| == 1 then None
    else EscapeSequence(s)
  }

  /** A successful decode never swallows a raw newline after its first byte:
      newline is not a letter an escape accepts, and it is neither a hex nor
      an octal digit nor a continuation byte. (A newline as the first byte
      decodes; the loop in UnquoteBody is what rejects it.) */
  lemma DecodedHasNoNewline(s: seq<byte>)
    requires |s| > 0 && UnquoteChar(s).Some?
    ensures forall k :: 1 <= k < UnquoteChar(s).value.width ==> s[k] != NEWLINE
  {
    var w := UnquoteChar(s).value.width;
    if s[0] >= 0x80 {
      assert w == 1 || w == Utf8Width(s);
    } else if s[0] == BACKSLASH {
      var e := s[1];
      assert UnquoteChar(s) == EscapeSequence(s);
      forall k | 1 <= k < w ensures s[k] != NEWLINE {
        if k >= 2 {
          if e == 'x' as int {
            assert HexDigit(s[2]).Some? && HexDigit(s[3]).Some?;
          } else if e == 'u' as int || e == 'U' as int {
            var n := if e == 'u' as int then 4 else 8;
            assert HexValue(s[2..2 + n]).Some?;
            assert HexDigit(s[2..2 + n][k - 2]).Some?;
          } else {
            assert IsOctal(s[2]) && IsOctal(s[3]);
          }
        }
      }
    }
  }

  /** Prepends `a` to a successful result; keeps a failure. */
  function Prefixed(a: seq<byte>, o: Option<seq<byte>>): Option<seq<byte>> {
    match o
    case Some(rest) => Some(a + rest)
    case None => None
  }

  /** The loop of Go's `unquote` after the opening quote: decode characters
      until the closing quote, which must be the last byte; a raw newline, a
      bad escape or running out of input is a syntax error. */
  function UnquoteBody(s: seq<byte>): Option<seq<byte>>
    decreases |s|
  {
    if |s| == 0 then None
    else if s[0] == QUOTE then (if |s| == 1 then Some([]) else None)
    else
      match UnquoteChar(s)
      case None => None
      case Some(d) =>
        if s[0] == NEWLINE then None
        else Prefixed(d.bytes, UnquoteBody(s[d.width..]))
  }

  /** `strconv.Unquote` on a double-quoted literal. */
  function Unquote(s: seq<byte>): (r: Option<seq<byte>>)
    ensures r.Some? ==> |s| >= 2 && s[0] == QUOTE && s[|s| - 1] == QUOTE
  {
    if |s| < 2 then None
    else if s[0] != QUOTE then None
    else if QUOTE !in s[1..] then None
    else
      var r := UnquoteBody(s[1..]);
      UnquoteBodyEndsAtQuote(s[1..]);
      r
  }

  lemma {:induction false} UnquoteBodyEndsAtQuote(s: seq<byte>)
    ensures UnquoteBody(s).Some? ==> |s| > 0 && s[|s| - 1] == QUOTE
    decreases |s|
  {
    if |s| > 0 && s[0] != QUOTE {
      match UnquoteChar(s)
      case None =>
      case Some(d) =>
        UnquoteBodyEndsAtQuote(s[d.width..]);
    }
  }

  // -------------------------------------------------------------- the partner

  function HexByte(d: nat): (b: byte)
    requires d < 16
    ensures HexDigit(b) == Some(d)
  {
    if d < 10 then '0' as int + d else 'a' as int + d - 10
  }

  /** How an encoder writes one byte inside a double-quoted literal: quote,
      backslash and newline get their one-letter escapes, non-ASCII bytes
      become `\xHH`, everything else stands for itself. */
  function EscapeByte(b: byte): (e: seq<byte>)
    ensures |e| > 0 && e[0] != QUOTE && e[0] != NEWLINE
    ensures |e| == 1 <==> e == [b]
  {
    if b == QUOTE then [BACKSLASH, QUOTE]
    else if b == BACKSLASH then [BACKSLASH, BACKSLASH]
    else if b == NEWLINE then [BACKSLASH, 'n' as int]
    else if b >= 0x80 then [BACKSLASH, 'x' as int, HexByte(b / 16), HexByte(b % 16)]
    else [b]
  }

  /** The body of a double-quoted literal for `t`. */
  function Escape(t: seq<byte>): (e: seq<byte>)
    ensures |e| >= |t|
    ensures |t| > 0 ==> |e| > 0
  {
    if |t| == 0 then [] else EscapeByte(t[0]) + Escape(t[1..])
  }

  lemma EscapeCons(t: seq<byte>)
    requires |t| > 0
    ensures Escape(t) == EscapeByte(t[0]) + Escape(t[1..])
  {
  }

  function Quote(t: seq<byte>): seq<byte> {
    [QUOTE] + Escape(t) + [QUOTE]
  }

  lemma UnquoteCharEscapeByte(b: byte, rest: seq<byte>)
    ensures UnquoteChar(EscapeByte(b) + rest) == Some(Decoded([b], |EscapeByte(b)|))
  {
    var s := EscapeByte(b) + rest;
    if b >= 0x80 {
      assert s[2] == HexByte(b / 16) && s[3] == HexByte(b % 16);
    }
  }

  /** One turn of the decoding loop. */
  lemma UnquoteBodyStep(s: seq<byte>, d: Decoded)
    requires |s| > 0 && s[0] != QUOTE && s[0] != NEWLINE && UnquoteChar(s) == Some(d)
    ensures UnquoteBody(s) == Prefixed(d.bytes, UnquoteBody(s[d.width..]))
  {
  }

  /** Decoding one escaped byte at the front of a literal body. */
  lemma UnquoteBodyEscapeByte(b: byte, tail: seq<byte>)
    ensures UnquoteBody(EscapeByte(b) + tail) == Prefixed([b], UnquoteBody(tail))
  {
    var e := EscapeByte(b);
    UnquoteCharEscapeByte(b, tail);
    assert (e + tail)[|e|..] == tail;
    UnquoteBodyStep(e + tail, Decoded([b], |e|));
  }

  lemma PrefixedTwice(p: seq<byte>, q: seq<byte>, o: Option<seq<byte>>)
    ensures Prefixed(p, Prefixed(q, o)) == Prefixed(p + q, o)
  {
    match o
    case Some(x) => assert p + (q + x) == (p + q) + x;
    case None =>
  }

  /** Decoding an escaped prefix yields the original bytes and leaves the
      rest of the literal to decode as before. */
  lemma {:induction false} UnquoteBodyEscaped(a: seq<byte>, rest: seq<byte>)
    ensures UnquoteBody(Escape(a) + rest) == Prefixed(a, UnquoteBody(rest))
    decreases |a|
  {
    if |a| == 0 {
      assert Escape(a) + rest == rest;
      match UnquoteBody(rest)
      case Some(x) => assert a + x == x;
      case None =>
    } else {
      var tail := Escape(a[1..]) + rest;
      assert Escape(a) + rest == EscapeByte(a[0]) + tail;
      UnquoteBodyEscapeByte(a[0], tail);
      UnquoteBodyEscaped(a[1..], rest);
      PrefixedTwice([a[0]], a[1..], UnquoteBody(rest));
      assert [a[0]] + a[1..] == a;
    }
  }

  /** Round trip: unquoting a quoted byte string gives the string back. */
  lemma UnquoteQuote(t: seq<byte>)
    ensures Unquote(Quote(t)) == Some(t)
  {
    var q := Quote(t);
    assert q[1..] == Escape(t) + [QUOTE];
    assert q[|q| - 1] == QUOTE;
    UnquoteBodyEscaped(t, [QUOTE]);
    assert t + [] == t;
  }

  /** Decoding a one-letter escape at the front of a literal body. */
  lemma UnquoteBodySimpleEscape(e: byte, r: seq<byte>)
    requires SimpleEscape(e).Some?
    ensures UnquoteBody([BACKSLASH, e] + r) == Prefixed([SimpleEscape(e).value], UnquoteBody(r))
  {
    var s := [BACKSLASH, e] + r;
    assert EscapeSequence(s) == Some(Decoded([SimpleEscape(e).value], 2));
    assert s[2..] == r;
    UnquoteBodyStep(s, Decoded([SimpleEscape(e).value], 2));
  }

  /** The body of a quoted literal decodes to the literal's bytes. */
  lemma UnquoteBodyQuoted(b: seq<byte>)
    ensures UnquoteBody(Escape(b) + [QUOTE]) == Some(b)
  {
    UnquoteBodyEscaped(b, [QUOTE]);
    assert UnquoteBody([QUOTE]) == Some([]);
    assert b + [] == b;
  }

  /** A literal that opens and closes with a quote decodes as its body. */
  lemma UnquoteFramed(body: seq<byte>)
    requires |body| > 0 && body[|body| - 1] == QUOTE
    ensures Unquote([QUOTE] + body) == UnquoteBody(body)
  {
    var s := [QUOTE] + body;
    assert s[1..] == body;
    assert s[1..][|body| - 1] == QUOTE;
  }

  /** Each one-letter escape decodes to its byte, wherever it sits in a literal. */
  lemma UnquoteSimpleEscape(a: seq<byte>, e: byte, b: seq<byte>)
    requires SimpleEscape(e).Some?
    ensures Unquote([QUOTE] + Escape(a) + [BACKSLASH, e] + Escape(b) + [QUOTE])
         == Some(a + [SimpleEscape(e).value] + b)
  {
    var v := SimpleEscape(e).value;
    var closing := Escape(b) + [QUOTE];
    var tail := [BACKSLASH, e] + closing;
    var body := Escape(a) + tail;
    assert [QUOTE] + Escape(a) + [BACKSLASH, e] + Escape(b) + [QUOTE] == [QUOTE] + body;
    assert body[|body| - 1] == QUOTE;
    UnquoteFramed(body);
    UnquoteBodyEscaped(a, tail);
    UnquoteBodySimpleEscape(e, closing);
    UnquoteBodyQuoted(b);
    PrefixedTwice(a, [v], Some(b));
    assert a + ([v] + b) == a + [v] + b;
  }

  /** `\'` and `\/` are syntax errors inside double quotes, whatever follows. */
  lemma UnquoteRejectsEscape(a: seq<byte>, e: byte, b: seq<byte>)
    requires e == APOSTROPHE || e == SLASH
    ensures Unquote([QUOTE] + Escape(a) + [BACKSLASH, e] + b) == None
  {
    var s := [QUOTE] + Escape(a) + [BACKSLASH, e] + b;
    var tail := [BACKSLASH, e] + b;
    assert s[1..] == Escape(a) + tail;
    assert EscapeSequence(tail) == None;
    assert UnquoteBody(tail) == None;
    UnquoteBodyEscaped(a, tail);
  }

  /** A literal whose closing quote is missing does not unquote. */
  lemma UnquoteRejectsUnterminated(t: seq<byte>)
    ensures Unquote([QUOTE] + Escape(t)) == None
  {
    var s := [QUOTE] + Escape(t);
    assert s[1..] == Escape(t) + [];
    UnquoteBodyEscaped(t, []);
  }

  lemma {:induction false} UnquoteBodyRejectsNewline(s: seq<byte>)
    requires NEWLINE in s
    ensures UnquoteBody(s) == None
    decreases |s|
  {
    if s[0] != QUOTE && s[0] != NEWLINE {
      match UnquoteChar(s)
      case None =>
      case Some(d) =>
        DecodedHasNoNewline(s);
        var k :| 0 <= k < |s| && s[k] == NEWLINE;
        assert k >= d.width;
        assert s[d.width..][k - d.width] == NEWLINE;
        UnquoteBodyRejectsNewline(s[d.width..]);
    }
  }

  /** A raw newline anywhere in the input makes `Unquote` fail. */
  lemma UnquoteRejectsNewline(s: seq<byte>)
    requires NEWLINE in s
    ensures Unquote(s) == None
  {
    if |s| >= 2 && s[0] == QUOTE && QUOTE in s[1..] {
      assert NEWLINE in s[1..] by {
        var k :| 0 <= k < |s| && s[k] == NEWLINE;
        assert s[1..][k - 1] == NEWLINE;
      }
      UnquoteBodyRejectsNewline(s[1..]);
    }
  }
}
