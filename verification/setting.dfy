/** Configuration resolution: the tri-state pretty selection, the pretty
    decision, the level fallback and the time layout. The environment and the
    terminal checks are inputs. */
module Setting {
  import opened Wrappers
  import Strconv

  /** `selection`, a `uint8`. */
  type Selection = x: int | 0 <= x < 256

  const SELECT_AUTO: Selection := 0
  const SELECT_TRUE: Selection := 1
  const SELECT_FALSE: Selection := 2

  /** The process environment, as `os.LookupEnv` sees it. */
  type Env = map<string, string>

  const ENV_PRETTY := "LOG_PRETTY"
  const ENV_LEVEL := "LOG_LEVEL"

  /** `time.RFC3339Nano` and the layout pretty mode uses by default. */
  const TIME_FORMAT := "2006-01-02T15:04:05.999999999Z07:00"
  const TIME_PRETTY_FORMAT := "2006-01-02 15:04:05 MST"

  /** What `isatty` reports for a writer's file descriptor. */
  datatype Terminal = Terminal(isTerminal: bool, isCygwinTerminal: bool)

  /** An `io.Writer`: an identity, and a file descriptor when it has one. */
  datatype Writer = Writer(id: nat, fd: Option<Terminal>)

  /** `prettySelection`: empty text means automatic, text `ParseBool` reads
      as true forces pretty mode, any other text -- unparseable text
      included -- forces it off. */
  function PrettySelection(v: string): (s: Selection)
    ensures s == SELECT_AUTO <==> v == ""
    ensures s == SELECT_TRUE <==> v != "" && Strconv.ParseBool(v) == Some(true)
    ensures s == SELECT_FALSE <==> v != "" && Strconv.ParseBool(v) != Some(true)
  {
    if v == "" then SELECT_AUTO
    else if Strconv.ParseBoolOrFalse(v) then SELECT_TRUE
    else SELECT_FALSE
  }

  /** The writer is an interactive or Cygwin terminal. */
  predicate WritesToTerminal(w: Writer) {
    w.fd.Some? && (w.fd.value.isTerminal || w.fd.value.isCygwinTerminal)
  }

  /** `isPretty`: a forced selection decides alone; in automatic mode a
      present `LOG_PRETTY` decides (unparseable reads as false), and
      otherwise the writer's terminal does. A selection outside the three
      named values means not pretty. */
  function IsPretty(v: Selection, env: Env, w: Writer): (r: bool)
    ensures v == SELECT_TRUE ==> r
    ensures v != SELECT_TRUE && v != SELECT_AUTO ==> !r
    ensures v == SELECT_AUTO && ENV_PRETTY in env ==> (r <==> Strconv.SpellsTrue(env[ENV_PRETTY]))
    ensures v == SELECT_AUTO && ENV_PRETTY !in env ==> (r <==> WritesToTerminal(w))
  {
    if v == SELECT_AUTO then
      if ENV_PRETTY in env then Strconv.ParseBoolOrFalse(env[ENV_PRETTY])
      else WritesToTerminal(w)
    else v == SELECT_TRUE
  }

  /** `checkLevel`: a present `LOG_LEVEL`, even an empty one, overrides the
      configured level. */
  function CheckLevel(level: string, env: Env): (r: string)
    ensures ENV_LEVEL in env ==> r == env[ENV_LEVEL]
    ensures ENV_LEVEL !in env ==> r == level
  {
    if ENV_LEVEL in env then env[ENV_LEVEL] else level
  }

  /** `timeFormat`: an explicit layout, even an empty one, wins; otherwise
      the default for the chosen mode. */
  function TimeFormat(opt: Option<string>, pretty: bool): (r: string)
    ensures opt.Some? ==> r == opt.value
    ensures opt.None? ==> (r == TIME_PRETTY_FORMAT <==> pretty)
    ensures opt.None? ==> (r == TIME_FORMAT <==> !pretty)
  {
    match opt
    case Some(layout) => layout
    case None => if pretty then TIME_PRETTY_FORMAT else TIME_FORMAT
  }

  // ------------------------------------------------------------ precedence

  /** A forced selection ignores both the environment and the writer. */
  lemma ForcedSelectionIgnoresEnvironment(v: Selection, env: Env, env': Env, w: Writer, w': Writer)
    requires v != SELECT_AUTO
    ensures IsPretty(v, env, w) == IsPretty(v, env', w')
  {
  }

  /** In automatic mode a present `LOG_PRETTY` hides the terminal check. */
  lemma EnvironmentOverridesTerminal(env: Env, w: Writer, w': Writer)
    requires ENV_PRETTY in env
    ensures IsPretty(SELECT_AUTO, env, w) == IsPretty(SELECT_AUTO, env, w')
  {
  }

  /** Passing non-empty text through `WithPrettyStr` decides pretty mode as
      setting `LOG_PRETTY` to that text in automatic mode does. */
  lemma PrettyStrAgreesWithEnvironment(s: string, env: Env, w: Writer)
    requires s != ""
    ensures IsPretty(PrettySelection(s), env, w) == IsPretty(SELECT_AUTO, env[ENV_PRETTY := s], w)
  {
  }

  /** `WithPrettyStr(FormatBool(b))` forces pretty mode to `b`. */
  lemma PrettySelectionFormatBool(b: bool)
    ensures PrettySelection(Strconv.FormatBool(b)) == if b then SELECT_TRUE else SELECT_FALSE
  {
    Strconv.ParseBoolFormatBool(b);
  }

  /** The level actually used does not depend on the configured level when
      `LOG_LEVEL` is present, and is the configured one when it is not. */
  lemma LevelEnvironmentPrecedence(level: string, level': string, env: Env)
    ensures ENV_LEVEL in env ==> CheckLevel(level, env) == CheckLevel(level', env)
    ensures CheckLevel(level, map[]) == level
  {
  }

  /** An explicit layout is used whatever the mode; without one the layout
      records the mode, because the two defaults differ. */
  lemma TimeFormatPrecedence(opt: Option<string>, pretty: bool, pretty': bool)
    ensures opt.Some? ==> TimeFormat(opt, pretty) == TimeFormat(opt, pretty')
    ensures opt.None? ==> (TimeFormat(opt, pretty) == TimeFormat(opt, pretty') <==> pretty == pretty')
  {
    assert TIME_FORMAT != TIME_PRETTY_FORMAT by {
      assert TIME_FORMAT[10] != TIME_PRETTY_FORMAT[10];
    }
  }
}
