/** The configuration handler `main` passes to `process_config`: it reads
    the `[settings]` section's `logging_level` and `accept_ordinal` entries
    into two local settings, case-insensitively. As written every test is
    inverted (`std::string::compare` is nonzero on a mismatch) and a
    recognised entry returns 0, which the parser counts as an error.
    `Callback` models the code as written, `CompareFixedCallback` corrects
    the comparisons only, and `IntendedCallback` corrects both. */
module Settings {
  import opened Wrappers
  import opened Text
  import opened Logger
  import opened Ini
  import opened IniProperties

  /** `ACCEPT_ORDINAL`. */
  datatype AcceptOrdinal =
    | FIRST_FOUND | SECOND_FOUND | THIRD_FOUND | FOURTH_FOUND
    | FIFTH_FOUND | SIXTH_FOUND | SEVENTH_FOUND | LAST_FOUND

  /** The enumerators' values (the enum is based on `char`). */
  function OrdinalValue(a: AcceptOrdinal): int {
    match a
    case FIRST_FOUND => 0
    case SECOND_FOUND => 1
    case THIRD_FOUND => 2
    case FOURTH_FOUND => 3
    case FIFTH_FOUND => 4
    case SIXTH_FOUND => 5
    case SEVENTH_FOUND => 6
    case LAST_FOUND => -1
  }

  /** The two settings the handler writes through its captures. */
  datatype Config = Config(level: Level, ordinal: AcceptOrdinal)

  /** `main`'s initial values, before any configuration is read. */
  const Defaults: Config := Config(INFO, FIRST_FOUND)

  /** What one handler call leaves: the settings, the value returned to the
      parser, and the text of the warning it logs, if any. */
  datatype Reply = Reply(config: Config, rc: int, warning: Option<string>)

  function SectionWarning(section: string): string {
    "unrecognized config section " + section + " ignored"
  }

  function NameWarning(name: string): string {
    "unrecognized settings section name " + name + " ignored"
  }

  function ValueWarning(name: string, value: string): string {
    "unrecognized settings section " + name + " value \"" + value + "\" ignored"
  }

  // ------------------------------------------------------------ as written

  /** `prs_cfg_callback` as written: each `if (a.compare(b))` takes its
      branch when `a` differs from `b`. */
  function Callback(cfg: Config, section: string, name: string, value: string): (r: Reply)
    ensures r.rc == 0 || r.rc == 1
    ensures r.rc == 1 <==> Lower(section) == "settings"
    ensures Lower(section) == "settings" ==> r == Reply(cfg, 1, Some(SectionWarning(section)))
    ensures Lower(section) != "settings" && Lower(name) != "logging_level" ==>
      r == Reply(cfg.(level := if Lower(value) == "trace" then DEBUG else TRACE), 0, None)
    ensures Lower(section) != "settings" && Lower(name) == "logging_level" ==>
      r == Reply(cfg.(ordinal := if Lower(value) == "first_found" then LAST_FOUND else FIRST_FOUND), 0, None)
  {
    if Lower(section) != "settings" then
      var n := Lower(name);
      var v := Lower(value);
      if n != "logging_level" then
        var level :=
          if v != "trace" then TRACE
          else if v != "debug" then DEBUG
          else if v != "info" then INFO
          else if v != "warn" then WARN
          else if v != "err" then ERR
          else INFO;
        Reply(cfg.(level := level), 0, None)
      else if n != "accept_ordinal" then
        if v != "first_found" then Reply(cfg.(ordinal := FIRST_FOUND), 0, None)
        else if v != "last_found" then Reply(cfg.(ordinal := LAST_FOUND), 0, None)
        else if v != "second_found" then Reply(cfg.(ordinal := SECOND_FOUND), 0, None)
        else if v != "third_found" then Reply(cfg.(ordinal := THIRD_FOUND), 0, None)
        else if v != "fourth_found" then Reply(cfg.(ordinal := FOURTH_FOUND), 0, None)
        else if v != "fifth_found" then Reply(cfg.(ordinal := FIFTH_FOUND), 0, None)
        else if v != "sixth_found" then Reply(cfg.(ordinal := SIXTH_FOUND), 0, None)
        else if v != "seventh_found" then Reply(cfg.(ordinal := SEVENTH_FOUND), 0, None)
        else Reply(cfg, 1, Some(ValueWarning(name, value)))
      else Reply(cfg, 1, Some(NameWarning(name)))
    else Reply(cfg, 1, Some(SectionWarning(section)))
  }

  // -------------------------------------------------------------- intended

  /** The `logging_level` values the handler recognises (FATAL is not among
      them); anything else selects INFO. */
  function LevelSetting(v: string): Level {
    if v == "trace" then TRACE
    else if v == "debug" then DEBUG
    else if v == "info" then INFO
    else if v == "warn" then WARN
    else if v == "err" then ERR
    else INFO
  }

  /** The `accept_ordinal` values the handler recognises. */
  function OrdinalSetting(v: string): Option<AcceptOrdinal> {
    if v == "first_found" then Some(FIRST_FOUND)
    else if v == "last_found" then Some(LAST_FOUND)
    else if v == "second_found" then Some(SECOND_FOUND)
    else if v == "third_found" then Some(THIRD_FOUND)
    else if v == "fourth_found" then Some(FOURTH_FOUND)
    else if v == "fifth_found" then Some(FIFTH_FOUND)
    else if v == "sixth_found" then Some(SIXTH_FOUND)
    else if v == "seventh_found" then Some(SEVENTH_FOUND)
    else None
  }

  /** The handler's decision with each branch taken on a match: the new
      settings and, for an entry it ignores, the warning it logs. */
  function Interpret(cfg: Config, section: string, name: string, value: string): (r: (Config, Option<string>))
    ensures r.1.Some? ==> r.0 == cfg
    ensures Lower(section) != "settings" ==> r == (cfg, Some(SectionWarning(section)))
    ensures Lower(section) == "settings" && Lower(name) == "logging_level" ==>
      r == (cfg.(level := LevelSetting(Lower(value))), None)
    ensures Lower(section) == "settings" && Lower(name) == "accept_ordinal" ==>
      r == match OrdinalSetting(Lower(value))
        case Some(a) => (cfg.(ordinal := a), None)
        case None => (cfg, Some(ValueWarning(name, value)))
    ensures Lower(section) == "settings" && Lower(name) != "logging_level" && Lower(name) != "accept_ordinal" ==>
      r == (cfg, Some(NameWarning(name)))
  {
    if Lower(section) == "settings" then
      var n := Lower(name);
      var v := Lower(value);
      if n == "logging_level" then (cfg.(level := LevelSetting(v)), None)
      else if n == "accept_ordinal" then
        match OrdinalSetting(v)
        case Some(a) => (cfg.(ordinal := a), None)
        case None => (cfg, Some(ValueWarning(name, value)))
      else (cfg, Some(NameWarning(name)))
    else (cfg, Some(SectionWarning(section)))
  }

  /** The comparisons corrected but the return values as written: 0 after
      a recognised entry, 1 after a warning. */
  function CompareFixedCallback(cfg: Config, section: string, name: string, value: string): (r: Reply)
    ensures r.rc == 0 <==> r.warning.None?
    ensures (r.config, r.warning) == Interpret(cfg, section, name, value)
  {
    var (c, w) := Interpret(cfg, section, name, value);
    Reply(c, if w.None? then 0 else 1, w)
  }

  /** The handler as evidently intended: comparisons by equality, and every
      entry, recognised or ignored, reported to the parser as handled (a
      nonzero return). It warns exactly about an entry it does not
      recognise, which leaves the settings alone, and each setting changes
      only through its own name, to the value its word selects. */
  function IntendedCallback(cfg: Config, section: string, name: string, value: string): (r: Reply)
    ensures r.rc == 1
    ensures r.warning.None? <==>
      (Lower(section) == "settings"
       && (Lower(name) == "logging_level" || (Lower(name) == "accept_ordinal" && OrdinalSetting(Lower(value)).Some?)))
    ensures r.warning.Some? ==> r.config == cfg
    ensures r.config.level != cfg.level ==> Lower(name) == "logging_level" && r.config.level == LevelSetting(Lower(value))
    ensures r.config.ordinal != cfg.ordinal ==> Lower(name) == "accept_ordinal" && Some(r.config.ordinal) == OrdinalSetting(Lower(value))
  {
    var (c, w) := Interpret(cfg, section, name, value);
    Reply(c, 1, w)
  }

  /** The handlers as the parser sees them: only the return value counts,
      and it does not depend on the settings so far. */
  function AsWrittenHandler(): Handler {
    (s, n, v) => Callback(Defaults, s, n, v).rc
  }

  function CompareFixedHandler(): Handler {
    (s, n, v) => CompareFixedCallback(Defaults, s, n, v).rc
  }

  function IntendedHandler(): Handler {
    (s, n, v) => IntendedCallback(Defaults, s, n, v).rc
  }

  /** The lower-case spelling of each level the handler recognises. */
  function LevelWord(l: Level): string {
    match l
    case TRACE => "trace"
    case DEBUG => "debug"
    case INFO => "info"
    case WARN => "warn"
    case ERR => "err"
    case FATAL => "fatal"
  }

  /** The lower-case spelling of each ordinal. */
  function OrdinalWord(a: AcceptOrdinal): string {
    match a
    case FIRST_FOUND => "first_found"
    case SECOND_FOUND => "second_found"
    case THIRD_FOUND => "third_found"
    case FOURTH_FOUND => "fourth_found"
    case FIFTH_FOUND => "fifth_found"
    case SIXTH_FOUND => "sixth_found"
    case SEVENTH_FOUND => "seventh_found"
    case LAST_FOUND => "last_found"
  }

  // ------------------------------------------------------------ properties

  /** The handler's decision does not depend on the letter case of what
      the parser hands it; only the warning text keeps the original
      spelling. */
  lemma IntendedIgnoresCase(cfg: Config, section: string, name: string, value: string)
    ensures Interpret(cfg, section, name, value).0 == Interpret(cfg, Lower(section), Lower(name), Lower(value)).0
    ensures Interpret(cfg, section, name, value).1.None? == Interpret(cfg, Lower(section), Lower(name), Lower(value)).1.None?
  {
    LowerIdempotent(section);
    LowerIdempotent(name);
    LowerIdempotent(value);
  }

  /** Every level but FATAL can be selected by its name, and every ordinal
      by its name, without a warning. */
  lemma IntendedReadsEverySetting(cfg: Config, l: Level, a: AcceptOrdinal)
    requires l != FATAL
    ensures IntendedCallback(cfg, "settings", "logging_level", LevelWord(l)) == Reply(cfg.(level := l), 1, None)
    ensures IntendedCallback(cfg, "settings", "accept_ordinal", OrdinalWord(a)) == Reply(cfg.(ordinal := a), 1, None)
  {
    LevelWordRead(cfg, l);
    OrdinalWordRead(cfg, a);
  }

  lemma LevelWordRead(cfg: Config, l: Level)
    requires l != FATAL
    ensures IntendedCallback(cfg, "settings", "logging_level", LevelWord(l)) == Reply(cfg.(level := l), 1, None)
  {
    LowerFixed("settings");
    LowerFixed("logging_level");
    LowerFixed(LevelWord(l));
  }

  lemma OrdinalWordRead(cfg: Config, a: AcceptOrdinal)
    ensures IntendedCallback(cfg, "settings", "accept_ordinal", OrdinalWord(a)) == Reply(cfg.(ordinal := a), 1, None)
  {
    LowerFixed("settings");
    LowerFixed("accept_ordinal");
    LowerFixed(OrdinalWord(a));
    OrdinalWordsRead(a);
  }

  lemma OrdinalWordsRead(a: AcceptOrdinal)
    ensures OrdinalSetting(OrdinalWord(a)) == Some(a)
  {
  }

  /** A word with no upper-case letter is its own lower-case form. */
  lemma LowerFixed(s: string)
    requires forall i | 0 <= i < |s| :: !('A' <= s[i] <= 'Z')
    ensures Lower(s) == s
  {
    assert forall i | 0 <= i < |s| :: Lower(s)[i] == s[i];
  }

  /** The written handler ignores the `[settings]` section altogether and,
      for a line in any other section, can only choose TRACE or DEBUG as the
      level or FIRST_FOUND or LAST_FOUND as the ordinal. */
  lemma {:induction false} AsWrittenReach(cfg: Config, calls: seq<(string, string, string)>)
    requires cfg.level in {INFO, TRACE, DEBUG} && cfg.ordinal in {FIRST_FOUND, LAST_FOUND}
    ensures var c := Configure(cfg, calls);
      c.level in {INFO, TRACE, DEBUG} && c.ordinal in {FIRST_FOUND, LAST_FOUND}
    decreases |calls|
  {
    if calls != [] {
      var (s, n, v) := calls[0];
      AsWrittenReach(Callback(cfg, s, n, v).config, calls[1..]);
    }
  }

  /** The settings after the written handler has seen a sequence of
      (section, name, value) entries in order. */
  function Configure(cfg: Config, calls: seq<(string, string, string)>): Config
    decreases |calls|
  {
    if calls == [] then cfg
    else
      var (s, n, v) := calls[0];
      Configure(Callback(cfg, s, n, v).config, calls[1..])
  }

  /** The inverted tests in numbers: a valid setting such as
      `[settings] logging_level = debug` is rejected with a warning and
      leaves the defaults, while `[x] anything = info` selects TRACE. */
  lemma InvertedComparisons()
    ensures Callback(Defaults, "settings", "logging_level", "debug")
         == Reply(Defaults, 1, Some(SectionWarning("settings")))
    ensures Callback(Defaults, "x", "anything", "info").config.level == TRACE
    ensures IntendedCallback(Defaults, "settings", "logging_level", "debug").config == Defaults.(level := DEBUG)
  {
    LowerFixed("settings");
    LowerFixed("logging_level");
    LowerFixed("debug");
    LowerFixed("x");
    LowerFixed("anything");
    LowerFixed("info");
  }

  /** As written, any pair line outside a `[settings]` section is a parse
      error, since the handler returns 0 for it. */
  lemma AsWrittenFailsOutsideSettings(ctx: Context, name: string, value: string)
    requires Lower(ctx.section) != "settings"
    ensures KindFails(AsWrittenHandler(), ctx, Pair(name, value))
  {
  }

  /** With only the comparisons corrected, a recognised setting returns 0,
      which the parser counts as an error on that line: a valid setting such
      as `logging_level = debug` under `[settings]` fails the parse. */
  lemma CompareFixedFailsOnValidSetting(prevName: string)
    ensures KindFails(CompareFixedHandler(), Context("settings", prevName), Pair("logging_level", "debug"))
  {
    LowerFixed("settings");
    LowerFixed("logging_level");
    LowerFixed("debug");
  }

  /** The intended handler never makes a line fail. */
  lemma IntendedNeverFails(ctx: Context, kind: LineKind)
    requires kind.Pair? || kind.Continuation?
    ensures !KindFails(IntendedHandler(), ctx, kind)
  {
  }
}
