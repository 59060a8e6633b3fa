/** The logger's functional options: a configuration record, one constructor
    per `With*` function, and `apply`, which runs them left to right. */
module Options {
  import opened Wrappers
  import opened Setting

  /** `option`. `timeFormat` is the `*string`: None when no layout was given. */
  datatype Config = Config(
    pretty: Selection,
    timeFormat: Option<string>,
    caller: bool,
    level: string,
    writer: Writer,
    parseJsonString: bool)

  /** An `Option`: what each `With*` constructor captured. */
  datatype Opt =
    | WithTimeStamp(layout: string)
    | WithCaller(caller: bool)
    | WithPretty(selection: Selection)
    | WithPrettyStr(text: string)
    | WithLevel(level: string)
    | WithWriter(writer: Writer)
    | WithParseJsonString(parse: bool)

  /** The configuration fields, to say which one an option writes. */
  datatype ConfigField = PrettyField | TimeFormatField | CallerField | LevelField | WriterField | ParseJsonField

  function Writes(opt: Opt): ConfigField {
    match opt
    case WithTimeStamp(_) => TimeFormatField
    case WithCaller(_) => CallerField
    case WithPretty(_) => PrettyField
    case WithPrettyStr(_) => PrettyField
    case WithLevel(_) => LevelField
    case WithWriter(_) => WriterField
    case WithParseJsonString(_) => ParseJsonField
  }

  /** `c` and `d` agree on every field except possibly `s`. */
  predicate AgreeExcept(c: Config, d: Config, s: ConfigField) {
    && (s != PrettyField ==> c.pretty == d.pretty)
    && (s != TimeFormatField ==> c.timeFormat == d.timeFormat)
    && (s != CallerField ==> c.caller == d.caller)
    && (s != LevelField ==> c.level == d.level)
    && (s != WriterField ==> c.writer == d.writer)
    && (s != ParseJsonField ==> c.parseJsonString == d.parseJsonString)
  }

  /** Running one option: it writes its own field and nothing else, and
      stores its argument there verbatim -- `WithTimeStamp` even an empty
      layout -- except `WithPrettyStr`, which stores the selection its text
      names. */
  function ApplyOne(c: Config, opt: Opt): (r: Config)
    ensures AgreeExcept(c, r, Writes(opt))
    ensures opt.WithTimeStamp? ==> r.timeFormat == Some(opt.layout)
    ensures opt.WithCaller? ==> r.caller == opt.caller
    ensures opt.WithPretty? ==> r.pretty == opt.selection
    ensures opt.WithPrettyStr? ==> r.pretty == PrettySelection(opt.text)
    ensures opt.WithLevel? ==> r.level == opt.level
    ensures opt.WithWriter? ==> r.writer == opt.writer
    ensures opt.WithParseJsonString? ==> r.parseJsonString == opt.parse
  {
    match opt
    case WithTimeStamp(layout) => c.(timeFormat := Some(layout))
    case WithCaller(b) => c.(caller := b)
    case WithPretty(sel) => c.(pretty := sel)
    case WithPrettyStr(text) => c.(pretty := PrettySelection(text))
    case WithLevel(level) => c.(level := level)
    case WithWriter(w) => c.(writer := w)
    case WithParseJsonString(b) => c.(parseJsonString := b)
  }

  /** `option.apply`: the options in order. */
  function Apply(c: Config, opts: seq<Opt>): Config
    decreases |opts|
  {
    if |opts| == 0 then c else Apply(ApplyOne(c, opts[0]), opts[1..])
  }

  // --------------------------------------------------------------- folding

  /** Applying two lists is applying their concatenation. */
  lemma {:induction false} ApplyConcat(c: Config, a: seq<Opt>, b: seq<Opt>)
    ensures Apply(c, a + b) == Apply(Apply(c, a), b)
    decreases |a|
  {
    if |a| > 0 {
      assert (a + b)[0] == a[0];
      assert (a + b)[1..] == a[1..] + b;
      ApplyConcat(ApplyOne(c, a[0]), a[1..], b);
    } else {
      assert a + b == b;
    }
  }

  /** Options that write different fields commute. */
  lemma ApplyOneCommutes(c: Config, x: Opt, y: Opt)
    requires Writes(x) != Writes(y)
    ensures ApplyOne(ApplyOne(c, x), y) == ApplyOne(ApplyOne(c, y), x)
  {
  }

  // ------------------------------------------------- last one wins, per field

  /** An independent reading of a list of options: the value of one field is
      the one the last option writing that field stores, or the starting
      value when no option writes it. */
  function LastValue<T>(opts: seq<Opt>, s: ConfigField, read: Config -> T, start: Config): T
    decreases |opts|
  {
    if |opts| == 0 then read(start)
    else
      var last := opts[|opts| - 1];
      if Writes(last) == s then read(ApplyOne(start, last))
      else LastValue(opts[..|opts| - 1], s, read, start)
  }

  function ReadPretty(c: Config): Selection { c.pretty }
  function ReadTimeFormat(c: Config): Option<string> { c.timeFormat }
  function ReadCaller(c: Config): bool { c.caller }
  function ReadLevel(c: Config): string { c.level }
  function ReadWriter(c: Config): Writer { c.writer }
  function ReadParseJson(c: Config): bool { c.parseJsonString }

  /** The value an option puts in its field depends only on the option. */
  lemma WrittenValueIndependentOfStart(opt: Opt, c: Config, d: Config)
    ensures match Writes(opt)
      case PrettyField => ApplyOne(c, opt).pretty == ApplyOne(d, opt).pretty
      case TimeFormatField => ApplyOne(c, opt).timeFormat == ApplyOne(d, opt).timeFormat
      case CallerField => ApplyOne(c, opt).caller == ApplyOne(d, opt).caller
      case LevelField => ApplyOne(c, opt).level == ApplyOne(d, opt).level
      case WriterField => ApplyOne(c, opt).writer == ApplyOne(d, opt).writer
      case ParseJsonField => ApplyOne(c, opt).parseJsonString == ApplyOne(d, opt).parseJsonString
  {
  }

  /** Every field of the applied configuration is the last value written to
      it: options are not merged, the last writer of each field wins and
      the others leave no trace. */
  lemma {:induction false} ApplyLastWins(c: Config, opts: seq<Opt>)
    ensures Apply(c, opts).pretty == LastValue(opts, PrettyField, ReadPretty, c)
    ensures Apply(c, opts).timeFormat == LastValue(opts, TimeFormatField, ReadTimeFormat, c)
    ensures Apply(c, opts).caller == LastValue(opts, CallerField, ReadCaller, c)
    ensures Apply(c, opts).level == LastValue(opts, LevelField, ReadLevel, c)
    ensures Apply(c, opts).writer == LastValue(opts, WriterField, ReadWriter, c)
    ensures Apply(c, opts).parseJsonString == LastValue(opts, ParseJsonField, ReadParseJson, c)
    decreases |opts|
  {
    if |opts| > 0 {
      var init, last := opts[..|opts| - 1], opts[|opts| - 1];
      assert opts == init + [last];
      ApplyConcat(c, init, [last]);
      ApplyLastWins(c, init);
      var before := Apply(c, init);
      assert Apply(c, opts) == ApplyOne(before, last);
      WrittenValueIndependentOfStart(last, before, c);
    }
  }
}
