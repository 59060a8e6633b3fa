# logi, modelled in Dafny

logi is a small Go package that sits on top of `log/slog`. This project models
its core logic and proves properties of it:

- **The JSON repair scanner** (`UnescapeJSONInLine`). In pretty mode the
  colourising renderer (tint) prints a string attribute that holds JSON as a
  quoted Go literal. The scanner post-processes each rendered line. It copies
  ANSI colour sequences through untouched and turns every quoted literal
  that holds an escaped quote and unquotes cleanly back into raw JSON.
  `Unescape.Scan` is a recursive reference definition over the rest of the
  line. `Unescape.UnescapeJsonInLine` is the Go index loop, proved equal to
  it. Go's `strconv.Unquote` for double-quoted literals is modelled byte for
  byte in `Strconv`, with a quoting partner (`Strconv.Quote`) that it inverts.
- **The field filter** (`Format`). It rebuilds a struct without the fields
  whose `log` tag does not parse as true, and, with `WithDiscardNil`,
  without nil pointer fields. It recurses into struct-valued fields. Go
  reflection becomes an inductive `Value` type. `StructStructure` is the
  type-deriving pass and `FormatStruct` the value-filling pass; the two are
  proved to agree.
- **Configuration and level control** (`Setting`, `Options`, `Log`). This
  covers:
  - the tri-state pretty selection and its precedence (option, then
    `LOG_PRETTY`, then the terminal check);
  - the `LOG_LEVEL` override and the time-layout default;
  - the functional options and their left-to-right application;
  - the handler `Logger` builds;
  - the level cell the wrapper and the inner handler share, and the two
    `SetLogLevel` functions;
  - the JSON-string rule of `ReplaceAttr`;
  - the return contract of the unescaping writer.

Inputs the Go code reads from the process become parameters:

- the environment is a `map<string, string>`;
- a writer carries what `isatty` would report for it;
- the slog level parser is an abstract `string -> Option<int>` (a failure
  writes nothing);
- `time.Time.Format` is an abstract function;
- the inner `io.Writer` of the unescaping writer is a function from the
  bytes it is given to its result.

Level cells (`*slog.Level`) are indices into a sequence of integers.

Two behaviours of the code worth knowing:

- A nested struct field of a derived struct type loses every tag, its
  `log` tag and its `json` tag alike. The code builds it as
  `reflect.StructField{Name, Type}` (format.go:68-75), so in JSON mode
  such a field is rendered under its Go field name. `StructStructure` and
  `Project` say so.
- The scanner is the identity on a line without a backslash-quote pair
  (`ScanIdentityWithoutEscapedQuote`). Where a `"{` or `"[` literal holds
  one and unquotes, each pass removes one layer of escaping from it; a
  literal that no longer unquotes, or holds no backslash-quote pair, is
  then left alone.

Modules: `Wrappers` (Option/Result), `Bytes` (byte constants), `Strconv`,
`Unescape`, `Format`, `Setting`, `Options`, `Log`.

## Model

| member | source | states |
|---|---|---|
| Strconv.ParseBool | setting.go:28 | `strconv.ParseBool`: succeeds exactly on the six true and six false spellings, and yields true exactly on the true ones |
| Strconv.ParseBoolOrFalse | format.go:58 | the value with the error ignored is true exactly for a true spelling; unparseable text reads as false |
| Strconv.ParseBoolFormatBool | setting.go:28-33 | parsing the printed form of a boolean gives the boolean back |
| Strconv.HexValue | unescape.go:71 | a run of hex digits has a value exactly when every byte is a hex digit |
| Strconv.UnquoteChar | unescape.go:71 | a successful decoding step consumes between one byte and the whole input, and did not start at a quote |
| Strconv.DecodedHasNoNewline | unescape.go:71 | an escape sequence spans no newline byte after its first |
| Strconv.Unquote | unescape.go:69-72 | a successful unquote had an input that starts and ends with a double quote |
| Strconv.UnquoteBodyEndsAtQuote | unescape.go:71 | the decoding loop succeeds only on a body whose last byte is the closing quote |
| Strconv.UnquoteQuote | unescape.go:69-77 | round trip: unquoting the quoted form of any byte string gives it back |
| Strconv.UnquoteSimpleEscape | unescape.go:71 | each one-letter escape decodes to its byte inside a literal |
| Strconv.UnquoteRejectsEscape | unescape.go:71-72 | `\'` and `\/` inside a double-quoted literal make unquoting fail |
| Strconv.UnquoteRejectsUnterminated | unescape.go:71-72 | a literal without its closing quote fails to unquote |
| Strconv.UnquoteRejectsNewline | unescape.go:71-72 | a literal containing a raw newline fails to unquote |
| Unescape.FindM | unescape.go:19-22 | the search stops at the first 'm' at or after the start, or at the end of the line |
| Unescape.AnsiEndSpec | unescape.go:19-25 | an ANSI run ends just after its first 'm', or at the end of the line when there is none |
| Unescape.FindAnsiEnd | unescape.go:17-28 | the inner loop finds the end of the ANSI run that starts at `i` |
| Unescape.FindSegmentEnd | unescape.go:37-65 | the inner loop returns the end of the candidate segment and whether it saw a backslash before a quote |
| Unescape.UnescapeJsonInLine | unescape.go:7-89 | the index loop returns exactly the reference scan of the line |
| Unescape.CandidateSegmentSpec | unescape.go:37-65 | a candidate segment ends just after its first unescaped quote, or at the end of the line, and reports an escaped quote iff it contains one |
| Unescape.ScanAtCandidate | unescape.go:33-81 | at a `"{` or `"[` candidate: replaced whole by its unquoted text when it holds an escaped quote and unquotes; otherwise only the quote is emitted and scanning resumes one byte later |
| Unescape.ScanOrdinaryQuote | unescape.go:83-85 | a quote that does not open a candidate is copied as one byte |
| Unescape.ScanCopiesAnsi | unescape.go:17-30 | a terminated ANSI run is copied verbatim and its contents are never treated as quotes |
| Unescape.ScanCopiesUnterminatedAnsi | unescape_test.go:82-85 | an ANSI run without its 'm' is copied to the end of the line |
| Unescape.ScanIdentityWithoutEscapedQuote | unescape.go:67-85 | a line with no backslash-quote pair comes back unchanged |
| Unescape.ScanIdentityWithoutQuote | unescape_test.go:11-20 | the empty line, and any line without a double quote, comes back unchanged |
| Unescape.ScanRestoresQuotedJson | unescape.go:67-77 | the quoted literal of JSON text that contains a quote is replaced by the JSON text itself |
| Unescape.ScanColouredJson | unescape_test.go:36-40 | a colour run, a quoted JSON literal and the reset run come out as the colour run, the raw JSON and the reset run |
| Format.ApplyFormatOptions | format.go:12-24 | format options apply left to right; with none the default stays (DiscardNil off), otherwise the last one decides |
| Format.Format | format.go:27-37 | nil comes back nil; a value that is not a struct or pointer to a struct comes back unchanged; a struct-like value becomes a struct |
| Format.FormatStruct | format.go:83-94 | a non-struct input comes back unchanged; a struct-like one becomes a struct with no more fields than it had |
| Format.FilterFields | format.go:100-120 | the filtered field list is never longer than the input |
| Format.FilterFieldsContents | format.go:100-120 | every output field comes from a kept input field, and every kept input field is in the output |
| Format.FilterFieldsKeepsOrder | format.go:100-120 | the surviving fields keep their names and relative order |
| Format.FieldSurvivesIffKept | format.go:103-112 | with distinct names, a field survives iff its tag is absent or parses as true and it is not a nil pointer under DiscardNil |
| Format.DiscardNilDropsNilPointers | format.go:110-112 | with DiscardNil a nil pointer field is dropped, even one tagged true |
| Format.NilPointersKeptWithoutDiscard | format.go:110-112 | without DiscardNil a nil pointer field the tag lets through is kept verbatim |
| Format.NestedStructsFiltered | format.go:114-119 | a kept struct field is replaced by its own filtered value, untagged; a pointer field is copied without recursion |
| Format.ShapeMatchesValue | format.go:39-81 | the derived struct type lists exactly the fields the value pass sets, with their tags, in order, and a derived type exactly where the value is a filtered struct |
| Format.FormatStructIdempotent | format.go:83-123 | filtering a filtered value changes nothing |
| Format.FilterCompositional | format.go:114-117 | pre-filtering a nested struct field does not change the result of filtering its parent |
| Format.DiscardNilExample | format_test.go:79-102 | A tagged false, B tagged true and a nil pointer C: with DiscardNil only B remains |
| Setting.PrettySelection | setting.go:23-34 | empty text selects automatic, text that parses as true selects on, anything else selects off |
| Setting.PrettySelectionFormatBool | setting.go:23-34 | the printed form of a boolean selects that boolean |
| Setting.IsPretty | setting.go:36-58 | forced selections decide alone; in automatic mode a present `LOG_PRETTY` decides, unparseable meaning false; otherwise the writer being a terminal or a Cygwin terminal decides; any other selection value is not pretty |
| Setting.ForcedSelectionIgnoresEnvironment | setting.go:51-54 | a forced selection gives the same answer for every environment and writer |
| Setting.EnvironmentOverridesTerminal | setting.go:38-48 | in automatic mode a present `LOG_PRETTY` makes the writer irrelevant |
| Setting.PrettyStrAgreesWithEnvironment | setting.go:23-44 | non-empty text given to `WithPrettyStr` decides as setting `LOG_PRETTY` to it does |
| Setting.CheckLevel | setting.go:60-66 | a present `LOG_LEVEL`, even empty, overrides the configured level |
| Setting.LevelEnvironmentPrecedence | setting.go:60-66 | with `LOG_LEVEL` present the configured level is irrelevant; without it the configured level is used |
| Setting.TimeFormat | setting.go:68-78 | an explicit layout, even empty, wins; otherwise the pretty default exactly in pretty mode and RFC 3339 with nanoseconds otherwise |
| Setting.TimeFormatPrecedence | setting.go:68-78 | an explicit layout, even an empty one, is used whatever the mode; without one, two modes get the same layout iff they are the same mode |
| Options.ApplyOne | option.go:24-72 | each option writes only its own field, storing its argument verbatim, except that `WithPrettyStr` stores the selection its text names |
| Options.ApplyConcat | option.go:16-20 | applying a concatenation of option lists is applying one list after the other |
| Options.ApplyOneCommutes | option.go:24-72 | options that write different fields commute |
| Options.ApplyLastWins | option.go:16-20 | every field of the result is the value stored by the last option that writes it, or the starting value |
| Log.ToUpperIdempotent | log.go:94 | upper-cased text holds no lower-case letter and upper-casing it again changes nothing |
| Log.InitialLevel | log.go:94-97 | the new threshold is the parsed level, or INFO when parsing fails |
| Log.NewLogger | log.go:80-167 | one new level cell is appended and shared by the wrapper and the inner handler; tint exactly in pretty mode; the unescaping writer exactly in pretty mode with JSON string detection; the caller, layout and level settings are carried over |
| Log.LoggerDefaults | log.go:81-88 | with no options or variables: source capture and JSON detection on, stderr, pretty iff stderr is a terminal, threshold INFO |
| Log.LoggerLevelFallback | log.go:96-97 | a level text the parser rejects leaves the threshold at INFO |
| Log.LoggerEnvironmentLevelWins | log.go:94-97 | with `LOG_LEVEL` present the threshold does not depend on the options |
| Log.LoggerLevelIgnoresCase | log.go:94-97 | the level text's letter case does not affect the threshold |
| Log.JsonModeWritesDirectly | log.go:135-143 | structured mode always writes to the configured writer itself |
| Log.WrapperSetLogLevel | log.go:40-42 | on a parse success only the wrapper's cell changes, to the parsed level; on a failure an error is reported and nothing changes |
| Log.SetLogLevel | log.go:169-179 | a wrapper as default handler gets the update; another handler with a `SetLogLevel` method is called and its error passed on; a handler without one means success with no effect |
| Log.SetLogLevelReportsRejection | log.go:169-179 | the call fails iff the default handler has the method and that method rejects the text; a handler of another package changes no level cell of this package |
| Log.SetLogLevelGovernsEnablement | log.go:111-143 | because the cell is shared, after a successful update a level is enabled iff it is at or above the new threshold |
| Log.RejectedLevelKeepsEnablement | log.go:40-42 | a rejected level text reports failure and leaves every level's enablement unchanged |
| Log.InitializeLogExample | example_test.go:11-21 | JSON to stdout with layout "-" and no source; after `SetLogLevel("ERROR")` INFO is suppressed and ERROR passes |
| Log.MarshalJson | log.go:51-53 | a raw JSON value encodes to its own bytes and never fails |
| Log.JsonStringRule | log.go:150-156 | a value changes iff detection is on and it is a string whose first byte is `{` or `[`, and then it becomes raw JSON of the same text |
| Log.ReplaceAttrTint | log.go:120-130 | the tint callback keeps the key and applies only the JSON-string rule |
| Log.ReplaceAttrJsonAsWritten | log.go:144-159 | the JSON callback as written fails exactly on an attribute keyed "time" whose value is not a time |
| Log.UserTimeStringPanics | log.go:145-147 | a string attribute keyed "time" makes the callback as written fail |
| Log.ReplaceAttrJson | log.go:144-159 | the corrected JSON callback formats only a time value keyed "time", then applies the JSON-string rule; it treats every other attribute as the tint callback does |
| Log.ReplaceAttrJsonAgreesWhereDefined | log.go:144-159 | wherever the callback as written succeeds, the corrected one returns the same attribute |
| Log.RawJsonEmbedsVerbatim | log.go:51-53 | `MarshalJSON` of a JSON-looking string attribute returns exactly the attribute's text, with no error |
| Log.JsonStringRuleIdempotent | log.go:150-156 | applying the JSON-string rule twice is applying it once |
| Log.BracketedTimeBecomesRaw | log.go:145-156 | a formatted time that starts with `{` or `[` is itself embedded as raw JSON |
| Log.Write | log.go:67-78 | the inner writer receives the scanned line; its error is passed on with its count; on success the caller is told the full input length |
| Log.WriteOfQuotedJson | log.go:67-78 | a line with a quoted JSON literal reaches the inner writer with the JSON restored, although the caller's input was longer |

## Left out

- Unquote's single-quoted and back-quoted forms, and its fast path for literals without escapes: the scanner only passes literals that start with a double quote, and the fast path returns the same value as the loop.
- Strconv.Unquote: code points are checked with `ValidRune` and UTF-8 decoding uses Go's first-byte table. Non-ASCII text is not generated by `Strconv.Quote`, which writes bytes at or above 0x80 as `\xHH`. So the round trip is proved for that encoder and not for Go's own `strconv.Quote`.
- Rendering by slog's JSON handler and by tint (line layout, colours, quoting of attribute values), `time.Time.Format`, and the slog level parser: these are library code, kept abstract.
- Log.RawJsonEmbedsVerbatim: slog's JSON handler passes the `MarshalJSON` output through encoding/json, which compacts it and rejects invalid JSON (the attribute then renders as an error value). That step is library code and not modelled, so `{ "a": 1 }` is emitted as `{"a":1}`. Also, any string starting with `{` or `[` is marked raw JSON without being checked.
- Setting.IsPretty: the environment variable name `LOG_PRETTY` is fixed at its default. In the code `EnvPretty` is an exported package variable (log.go:15-21) that callers may reassign.
- Setting.CheckLevel: the name `LOG_LEVEL` is fixed at its default, although `EnvLevel` is an exported, writable variable.
- Setting.TimeFormat: the two default layouts are fixed at their initial values, although `TimeFormat` and `TimePrettyFormat` are exported, writable variables.
- Log.NewLogger: it inherits the four fixed defaults above. The lemmas about it hold for the initial values of those variables only. `ErrorKey` is not used by the modelled code.
- Log.InitialLevel: `strings.ToUpper` is modelled on ASCII letters only.
- Log.SetLogLevelGovernsEnablement: no separate claim that level updates are atomic. The level cell is written with a plain store, and concurrency is not modelled.
- `InitializeLog`'s `slog.SetDefault` and `Log` (caller capture through `runtime.Callers`, record construction): process-global side effects and stack inspection.
- context.go, adapter.go and logadapter/adapter.go: outside the modelled core.
- Format.FormatStruct: the panics reflection raises are not modelled. These come from unexported fields (`Interface` on them) and from embedded or duplicated field names. The model also does not check that Go rejects duplicate field names; the lemmas that need distinct names require them.
- Format.Format: only the field's kind matters. An interface-typed field is `Scalar`, or `Nil` when it is a nil interface. Even when it holds a struct or a nil pointer, it is copied as it is, as the code does.

## Findings

| source | as written | input that shows it | evidently intended | confidence | as-written member | corrected member |
|---|---|---|---|---|---|---|
| log.go:145-147 | the JSON handler's `ReplaceAttr` calls `a.Value.Time()` on every attribute whose key is "time", and `Value.Time` panics on a value that is not a time | `slog.Info("msg", "time", "now")` in structured mode | reformat only the handler's own time attribute, a time value, and leave a user attribute named "time" to the JSON-string rule | medium, not executed | Log.UserTimeStringPanics | Log.ReplaceAttrJson |
