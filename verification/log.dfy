/** The decision logic of `Logger`: defaults, the level fallback, the choice
    of renderer and writer, the shared level cell and its setters, the
    JSON-string rule of `ReplaceAttr`, and the unescaping writer's return
    contract. Rendering itself and the slog level parser stay abstract. */
module Log {
  import opened Wrappers
  import opened Bytes
  import opened Setting
  import opened Options
  import Strconv
  import Unescape

  // ------------------------------------------------------------------ levels

  /** `slog.Level` is an int; these are its four named values. */
  const LEVEL_DEBUG: int := -4
  const LEVEL_INFO: int := 0
  const LEVEL_WARN: int := 4
  const LEVEL_ERROR: int := 8

  /** `slog.LevelInfo.String()`, the default level text. */
  const DEFAULT_LEVEL := "INFO"

  /** The slog level parser behind `Level.UnmarshalText`: a level, or a
      failure that leaves the target untouched. */
  type LevelParser = string -> Option<int>

  /** The `*slog.Level` cells in existence; a pointer is an index. */
  type Heap = seq<int>

  /** ASCII upper-casing of one character. */
  function UpperChar(c: char): char {
    if 'a' <= c <= 'z' then (c as int - 32) as char else c
  }

  /** `strings.ToUpper`, on ASCII letters. */
  function ToUpper(s: string): (r: string)
    ensures |r| == |s|
    ensures forall i :: 0 <= i < |s| ==> r[i] == UpperChar(s[i])
  {
    seq(|s|, i requires 0 <= i < |s| => UpperChar(s[i]))
  }

  /** Upper-cased text has no lower-case ASCII letter, and upper-casing it
      again changes nothing. */
  lemma ToUpperIdempotent(s: string)
    ensures forall i :: 0 <= i < |s| ==> !('a' <= ToUpper(s)[i] <= 'z')
    ensures ToUpper(ToUpper(s)) == ToUpper(s)
  {
  }

  // --------------------------------------------------------------- handlers

  datatype Renderer = JsonRenderer | TintRenderer

  /** The writer the renderer writes to: the configured writer, or a
      `jsonUnescapingWriter` around it. */
  datatype Sink = Direct(w: Writer) | Unescaping(w: Writer)

  /** The slog JSON handler or tint handler `Logger` builds. */
  datatype Inner = Inner(
    renderer: Renderer,
    sink: Sink,
    addSource: bool,
    levelRef: nat,
    timeFormat: string,
    parseJsonString: bool)

  /** A default handler: a `handlerWrapper` holding its own pointer to the
      level cell and the inner handler; a handler this package did not
      build that has a `SetLogLevel(string) error` method (a `setLeveler`),
      given by the level texts its method rejects; or any other handler. */
  datatype Handler =
    | Wrapper(levelRef: nat, inner: Inner)
    | Leveler(id: nat, rejects: string -> bool)
    | Foreign(id: nat)

  /** Every level cell a handler points at exists. */
  predicate Valid(h: Handler, heap: Heap) {
    h.Wrapper? ==> h.levelRef < |heap| && h.inner.levelRef < |heap|
  }

  /** The wrapper and its inner handler point at one cell. */
  predicate SharesLevelCell(h: Handler) {
    h.Wrapper? && h.levelRef == h.inner.levelRef
  }

  /** The enablement check; `handlerWrapper` embeds the inner handler, so
      the inner handler's level pointer decides. */
  predicate Enabled(h: Handler, heap: Heap, level: int)
    requires h.Wrapper? && Valid(h, heap)
  {
    heap[h.inner.levelRef] <= level
  }

  // ----------------------------------------------------------------- Logger

  /** The options before any `With*` runs. */
  function DefaultConfig(stderr: Writer): Config {
    Config(SELECT_AUTO, None, true, DEFAULT_LEVEL, stderr, true)
  }

  /** The level the new cell starts with: the resolved text, upper-cased
      and parsed; a parse failure is ignored, so the cell keeps its zero
      value, INFO. */
  function InitialLevel(level: string, env: Env, parse: LevelParser): (l: int)
    ensures parse(ToUpper(CheckLevel(level, env))).None? ==> l == LEVEL_INFO
    ensures parse(ToUpper(CheckLevel(level, env))).Some? ==> l == parse(ToUpper(CheckLevel(level, env))).value
  {
    parse(ToUpper(CheckLevel(level, env))).GetOr(LEVEL_INFO)
  }

  datatype Built = Built(handler: Handler, heap: Heap)

  /** `Logger`: allocates one level cell and builds a wrapper around a JSON
      or tint handler that both point at it. */
  function NewLogger(opts: seq<Opt>, env: Env, stderr: Writer, parse: LevelParser, heap: Heap): (b: Built)
    ensures |b.heap| == |heap| + 1 && b.heap[..|heap|] == heap
    ensures SharesLevelCell(b.handler) && b.handler.levelRef == |heap| && Valid(b.handler, b.heap)
    ensures var c := Apply(DefaultConfig(stderr), opts);
      var pretty := IsPretty(c.pretty, env, c.writer);
      var inner := b.handler.inner;
      && (inner.renderer == TintRenderer <==> pretty)
      && inner.sink.w == c.writer
      && (inner.sink.Unescaping? <==> pretty && c.parseJsonString)
      && inner.addSource == c.caller
      && inner.parseJsonString == c.parseJsonString
      && inner.timeFormat == TimeFormat(c.timeFormat, pretty)
      && b.heap[|heap|] == InitialLevel(c.level, env, parse)
  {
    var c := Apply(DefaultConfig(stderr), opts);
    var pretty := IsPretty(c.pretty, env, c.writer);
    var cell := |heap|;
    var heap' := heap + [InitialLevel(c.level, env, parse)];
    var tFormat := TimeFormat(c.timeFormat, pretty);
    var inner :=
      if pretty then
        var writer := if c.parseJsonString then Unescaping(c.writer) else Direct(c.writer);
        Inner(TintRenderer, writer, c.caller, cell, tFormat, c.parseJsonString)
      else
        Inner(JsonRenderer, Direct(c.writer), c.caller, cell, tFormat, c.parseJsonString);
    Built(Wrapper(cell, inner), heap')
  }

  /** With no options and no `LOG_*` variables: source capture and JSON
      string detection on, output to stderr, pretty exactly when stderr is a
      terminal, and the threshold at whatever the parser makes of "INFO". */
  lemma LoggerDefaults(env: Env, stderr: Writer, parse: LevelParser, heap: Heap)
    requires ENV_PRETTY !in env && ENV_LEVEL !in env
    ensures var b := NewLogger([], env, stderr, parse, heap);
      && b.handler.inner.addSource
      && b.handler.inner.parseJsonString
      && b.handler.inner.sink.w == stderr
      && (b.handler.inner.renderer == TintRenderer <==> WritesToTerminal(stderr))
      && (b.handler.inner.sink.Unescaping? <==> WritesToTerminal(stderr))
      && (parse(DEFAULT_LEVEL) == Some(LEVEL_INFO) ==> b.heap[|heap|] == LEVEL_INFO)
  {
    assert ToUpper(DEFAULT_LEVEL) == DEFAULT_LEVEL;
  }

  /** A level text the parser rejects leaves the threshold at INFO. */
  lemma LoggerLevelFallback(opts: seq<Opt>, env: Env, stderr: Writer, parse: LevelParser, heap: Heap)
    requires parse(ToUpper(CheckLevel(Apply(DefaultConfig(stderr), opts).level, env))).None?
    ensures NewLogger(opts, env, stderr, parse, heap).heap[|heap|] == LEVEL_INFO
  {
  }

  /** A present `LOG_LEVEL` decides the threshold whatever `WithLevel` said. */
  lemma LoggerEnvironmentLevelWins(opts: seq<Opt>, opts': seq<Opt>, env: Env, stderr: Writer, parse: LevelParser, heap: Heap)
    requires ENV_LEVEL in env
    ensures NewLogger(opts, env, stderr, parse, heap).heap == NewLogger(opts', env, stderr, parse, heap).heap
  {
  }

  /** The level text is upper-cased before parsing, so its letter case does
      not matter. */
  lemma LoggerLevelIgnoresCase(level: string, env: Env, stderr: Writer, parse: LevelParser, heap: Heap)
    requires ENV_LEVEL !in env
    ensures NewLogger([WithLevel(level)], env, stderr, parse, heap).heap
         == NewLogger([WithLevel(ToUpper(level))], env, stderr, parse, heap).heap
  {
    ToUpperIdempotent(level);
    assert [WithLevel(level)][1..] == [] && [WithLevel(ToUpper(level))][1..] == [];
    var d := DefaultConfig(stderr);
    assert Apply(d, [WithLevel(level)]).level == level;
    assert Apply(d, [WithLevel(ToUpper(level))]).level == ToUpper(level);
    assert InitialLevel(level, env, parse) == InitialLevel(ToUpper(level), env, parse);
  }

  /** Structured mode always writes to the configured writer itself. */
  lemma JsonModeWritesDirectly(opts: seq<Opt>, env: Env, stderr: Writer, parse: LevelParser, heap: Heap)
    ensures var inner := NewLogger(opts, env, stderr, parse, heap).handler.inner;
      inner.renderer == JsonRenderer ==> inner.sink == Direct(Apply(DefaultConfig(stderr), opts).writer)
  {
  }

  // --------------------------------------------------------- level setters

  datatype SetOutcome = SetOutcome(heap: Heap, failed: bool)

  /** `handlerWrapper.SetLogLevel`: parse into the wrapper's cell; on a
      failure report it and write nothing. No other cell changes. */
  function WrapperSetLogLevel(h: Handler, text: string, heap: Heap, parse: LevelParser): (r: SetOutcome)
    requires h.Wrapper? && Valid(h, heap)
    ensures |r.heap| == |heap|
    ensures forall k :: 0 <= k < |heap| && k != h.levelRef ==> r.heap[k] == heap[k]
    ensures r.failed <==> parse(text).None?
    ensures r.failed ==> r.heap == heap
    ensures !r.failed ==> r.heap[h.levelRef] == parse(text).value
  {
    match parse(text)
    case Some(l) => SetOutcome(heap[h.levelRef := l], false)
    case None => SetOutcome(heap, true)
  }

  /** The package-level `SetLogLevel`: when the default handler has a
      `SetLogLevel` method, call it and pass its error on; a handler
      without one means success with nothing changed. A handler of another
      package keeps its level outside the cells modelled here, so only a
      wrapper changes a cell. */
  function SetLogLevel(default: Handler, text: string, heap: Heap, parse: LevelParser): (r: SetOutcome)
    requires Valid(default, heap)
    ensures default.Foreign? ==> r == SetOutcome(heap, false)
    ensures default.Leveler? ==> r == SetOutcome(heap, default.rejects(text))
    ensures default.Wrapper? ==> r == WrapperSetLogLevel(default, text, heap, parse)
  {
    match default
    case Wrapper(_, _) => WrapperSetLogLevel(default, text, heap, parse)
    case Leveler(_, rejects) => SetOutcome(heap, rejects(text))
    case Foreign(_) => SetOutcome(heap, false)
  }

  /** Only a handler without a `SetLogLevel` method makes the call succeed
      regardless of the text: a wrapper whose parser rejects the text, or
      another package's handler whose method does, reports the failure. */
  lemma SetLogLevelReportsRejection(default: Handler, text: string, heap: Heap, parse: LevelParser)
    requires Valid(default, heap)
    ensures var r := SetLogLevel(default, text, heap, parse);
      r.failed <==> (default.Wrapper? && parse(text).None?) || (default.Leveler? && default.rejects(text))
    ensures !default.Wrapper? ==> SetLogLevel(default, text, heap, parse).heap == heap
  {
  }

  /** Because the wrapper and its inner handler share the cell, a successful
      `SetLogLevel` moves the threshold the inner handler checks. */
  lemma SetLogLevelGovernsEnablement(h: Handler, text: string, heap: Heap, parse: LevelParser, level: int)
    requires SharesLevelCell(h) && Valid(h, heap) && parse(text).Some?
    ensures var r := SetLogLevel(h, text, heap, parse);
      !r.failed && (Enabled(h, r.heap, level) <==> parse(text).value <= level)
  {
  }

  /** A rejected level text reports failure and leaves every level's
      enablement as it was. */
  lemma RejectedLevelKeepsEnablement(h: Handler, text: string, heap: Heap, parse: LevelParser, level: int)
    requires h.Wrapper? && Valid(h, heap) && parse(text).None?
    ensures var r := SetLogLevel(h, text, heap, parse);
      r.failed && (Enabled(h, r.heap, level) <==> Enabled(h, heap, level))
  {
  }

  /** The documented example: JSON output to a non-terminal writer without
      source capture, with the time layout "-"; after `SetLogLevel("ERROR")`
      an INFO record is suppressed and an ERROR record passes. */
  lemma InitializeLogExample(stdout: Writer, env: Env, stderr: Writer, parse: LevelParser, heap: Heap)
    requires !WritesToTerminal(stdout) && ENV_PRETTY !in env
    requires parse("ERROR") == Some(LEVEL_ERROR)
    ensures var b := NewLogger([WithTimeStamp("-"), WithCaller(false), WithWriter(stdout)], env, stderr, parse, heap);
      var r := SetLogLevel(b.handler, "ERROR", b.heap, parse);
      && b.handler.inner == Inner(JsonRenderer, Direct(stdout), false, |heap|, "-", true)
      && !r.failed
      && !Enabled(b.handler, r.heap, LEVEL_INFO)
      && Enabled(b.handler, r.heap, LEVEL_ERROR)
  {
    var opts := [WithTimeStamp("-"), WithCaller(false), WithWriter(stdout)];
    var c := Apply(DefaultConfig(stderr), opts);
    var c1 := ApplyOne(DefaultConfig(stderr), opts[0]);
    var c2 := ApplyOne(c1, opts[1]);
    var c3 := ApplyOne(c2, opts[2]);
    assert opts[1..] == [WithCaller(false), WithWriter(stdout)];
    assert opts[1..][1..] == [WithWriter(stdout)];
    assert opts[1..][1..][1..] == [];
    assert c == Apply(c1, opts[1..]) == Apply(c2, opts[1..][1..]) == c3;
    assert c == Config(SELECT_AUTO, Some("-"), false, DEFAULT_LEVEL, stdout, true);
  }

  // ----------------------------------------------------------- attributes

  /** An attribute value as `ReplaceAttr` sees it; `RawJson` is `jsonValue`,
      whose encoding is its own bytes. */
  datatype AttrValue =
    | StringValue(s: seq<byte>)
    | RawJson(raw: seq<byte>)
    | TimeValue(instant: int)
    | OtherValue(id: nat)

  datatype Attr = Attr(key: string, value: AttrValue)

  /** `slog.TimeKey`. */
  const TIME_KEY := "time"

  /** `time.Time.Format`, kept abstract. */
  type TimeLayout = (int, string) -> seq<byte>

  /** `jsonValue.MarshalJSON`: the text is the encoding, and it never fails. */
  function MarshalJson(j: seq<byte>): (r: Result<seq<byte>, string>)
    ensures r.Success? && r.value == j
  {
    Success(j)
  }

  /** The JSON-string rule both `ReplaceAttr` callbacks share: with JSON
      string detection on, a string value whose first byte is `{` or `[`
      becomes raw JSON; every other value is left alone. */
  function JsonStringRule(parseJson: bool, v: AttrValue): (r: AttrValue)
    ensures r != v <==> parseJson && v.StringValue? && OpensJson(v.s)
    ensures r != v ==> r == RawJson(v.s)
  {
    if parseJson && v.StringValue? && OpensJson(v.s) then RawJson(v.s) else v
  }

  /** The tint handler's `ReplaceAttr`. */
  function ReplaceAttrTint(parseJson: bool, a: Attr): (r: Attr)
    ensures r.key == a.key
    ensures r.value == JsonStringRule(parseJson, a.value)
  {
    Attr(a.key, JsonStringRule(parseJson, a.value))
  }

  /** The JSON handler's `ReplaceAttr` as written: an attribute keyed
      "time" has its value read as a time -- `Value.Time` panics, here
      None, when it is not one -- and formatted; then the JSON-string rule
      applies. */
  function ReplaceAttrJsonAsWritten(parseJson: bool, layout: string, format: TimeLayout, a: Attr): (r: Option<Attr>)
    ensures r.None? <==> a.key == TIME_KEY && !a.value.TimeValue?
  {
    if a.key == TIME_KEY then
      match a.value
      case TimeValue(t) => Some(Attr(a.key, JsonStringRule(parseJson, StringValue(format(t, layout)))))
      case _ => None
    else Some(Attr(a.key, JsonStringRule(parseJson, a.value)))
  }

  /** A user attribute named "time" holding a string reaches the time
      branch and panics. */
  lemma UserTimeStringPanics(parseJson: bool, layout: string, format: TimeLayout, s: seq<byte>)
    ensures ReplaceAttrJsonAsWritten(parseJson, layout, format, Attr(TIME_KEY, StringValue(s))).None?
  {
  }

  /** The JSON handler's `ReplaceAttr` as intended: only a time value keyed
      "time" is formatted, so it never fails. */
  function ReplaceAttrJson(parseJson: bool, layout: string, format: TimeLayout, a: Attr): (r: Attr)
    ensures r.key == a.key
    ensures !(a.key == TIME_KEY && a.value.TimeValue?) ==> r == ReplaceAttrTint(parseJson, a)
    ensures a.key == TIME_KEY && a.value.TimeValue? ==>
      r.value == JsonStringRule(parseJson, StringValue(format(a.value.instant, layout)))
  {
    if a.key == TIME_KEY && a.value.TimeValue? then
      Attr(a.key, JsonStringRule(parseJson, StringValue(format(a.value.instant, layout))))
    else Attr(a.key, JsonStringRule(parseJson, a.value))
  }

  /** Wherever the code as written does not panic, the corrected callback
      returns what it returns. */
  lemma ReplaceAttrJsonAgreesWhereDefined(parseJson: bool, layout: string, format: TimeLayout, a: Attr)
    ensures var w := ReplaceAttrJsonAsWritten(parseJson, layout, format, a);
      w.Some? ==> w.value == ReplaceAttrJson(parseJson, layout, format, a)
  {
  }

  /** Raw JSON goes out verbatim: a JSON-looking string attribute, once
      rewritten, encodes to exactly its own text. */
  lemma RawJsonEmbedsVerbatim(s: seq<byte>, key: string)
    requires OpensJson(s)
    ensures var r := ReplaceAttrTint(true, Attr(key, StringValue(s)));
      r.value.RawJson? && MarshalJson(r.value.raw) == Success(s)
  {
  }

  /** The rule fires once: applying it to its own output changes nothing. */
  lemma JsonStringRuleIdempotent(parseJson: bool, v: AttrValue)
    ensures JsonStringRule(parseJson, JsonStringRule(parseJson, v)) == JsonStringRule(parseJson, v)
  {
  }

  /** The time attribute is itself subject to the rule: a layout whose
      formatted text starts with `{` or `[` is embedded as raw JSON. */
  lemma BracketedTimeBecomesRaw(layout: string, format: TimeLayout, t: int)
    requires OpensJson(format(t, layout))
    ensures ReplaceAttrJson(true, layout, format, Attr(TIME_KEY, TimeValue(t))).value == RawJson(format(t, layout))
  {
  }

  // --------------------------------------------------------- the writer

  datatype WriteResult = WriteResult(n: nat, err: Option<string>)

  /** `jsonUnescapingWriter.Write`: the underlying writer gets the
      unescaped line; its error is passed through with its count, and on
      success the caller is told all of `p` was written. */
  method Write(p: seq<byte>, inner: seq<byte> -> WriteResult) returns (sent: seq<byte>, r: WriteResult)
    ensures sent == Unescape.Scan(p)
    ensures r.err.Some? <==> inner(sent).err.Some?
    ensures r.err.Some? ==> r == inner(sent)
    ensures r.err.None? ==> r.n == |p|
  {
    sent := Unescape.UnescapeJsonInLine(p);
    var written := inner(sent);
    if written.err.Some? {
      return sent, written;
    }
    r := WriteResult(|p|, None);
  }

  /** A rendered line holding a quoted JSON string reaches the writer with
      the JSON restored, while the caller is told the full, longer length. */
  lemma WriteOfQuotedJson(t: seq<byte>, rest: seq<byte>)
    requires OpensJson(t) && QUOTE in t
    ensures Unescape.Scan(Strconv.Quote(t) + rest) == t + Unescape.Scan(rest)
    ensures |Strconv.Quote(t) + rest| > |t| + |rest|
  {
    Unescape.ScanRestoresQuotedJson(t, rest);
  }
}
