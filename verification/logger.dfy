/** The logger: a level threshold, the mapping of a level to its label, its
    output stream and its syslog forwarding, and the assembly of one output
    line. Writing, `openlog` and `syslog` themselves are not modelled; the
    line and the syslog record that would be handed to them are. */
module Logger {
  import opened Wrappers
  import opened Text

  /** `LOGGING_LEVEL`, least severe first. */
  datatype Level = TRACE | DEBUG | INFO | WARN | ERR | FATAL

  /** The value `(char) level` compares. */
  function Ordinal(l: Level): nat {
    match l
    case TRACE => 0
    case DEBUG => 1
    case INFO => 2
    case WARN => 3
    case ERR => 4
    case FATAL => 5
  }

  /** `DEFAULT_LOGGING_LEVEL`. */
  const DefaultLevel: Level := INFO

  /** The text `str_to_level` accepts for each level. */
  function LevelName(l: Level): string {
    match l
    case TRACE => "TRACE"
    case DEBUG => "DEBUG"
    case INFO => "INFO"
    case WARN => "WARN"
    case ERR => "ERR"
    case FATAL => "FATAL"
  }

  /** `str_to_level`: surrounding whitespace trimmed, upper-cased, matched
      exactly against the level names; anything else is the default. The
      names start with six different letters, so the one name the text can
      equal is found from its first letter. */
  function StrToLevel(s: string): (l: Level)
    ensures forall k :: Upper(Trim(s)) == LevelName(k) ==> l == k
    ensures (forall k :: Upper(Trim(s)) != LevelName(k)) ==> l == DefaultLevel
  {
    NamesStartApart();
    MatchName(Upper(Trim(s)))
  }

  /** The level whose name is exactly `t`, or the default. */
  function MatchName(t: string): Level {
    if t != [] && LevelOfTag(t[0]).Some? && t == LevelName(LevelOfTag(t[0]).value)
    then LevelOfTag(t[0]).value
    else DefaultLevel
  }

  lemma NamesStartApart()
    ensures forall k :: LevelName(k) != [] && LevelOfTag(LevelName(k)[0]) == Some(k)
  {
    forall k ensures LevelName(k) != [] && LevelOfTag(LevelName(k)[0]) == Some(k) {
      match k
      case TRACE =>
      case DEBUG =>
      case INFO =>
      case WARN =>
      case ERR =>
      case FATAL =>
    }
  }

  // ------------------------------------------------------------------ state

  /** The logger's globals: `loggingLevel`, `s_progname`, and whether
      `s_syslog` still forwards (it is replaced by a no-op once syslogging is
      turned off). */
  datatype Logger = Logger(level: Level, progname: string, syslogging: bool)

  const Initial: Logger := Logger(DefaultLevel, "", true)

  function GetLevel(lg: Logger): Level {
    lg.level
  }

  /** `set_level`. */
  function SetLevel(lg: Logger, l: Level): (r: Logger)
    ensures GetLevel(r) == l
    ensures r.progname == lg.progname && r.syslogging == lg.syslogging
  {
    lg.(level := l)
  }

  /** `set_progname`: the name is copied with `strdup`, so it ends at its
      first NUL. */
  function SetProgname(lg: Logger, name: string): (r: Logger)
    ensures r.progname <= name && '\0' !in r.progname
    ensures '\0' !in name ==> r.progname == name
    ensures r.level == lg.level && r.syslogging == lg.syslogging
  {
    lg.(progname := CString(name))
  }

  /** `set_syslogging`: turning it off replaces the forwarding function with
      a no-op for good; turning it on does not bring it back. */
  function SetSyslogging(lg: Logger, enabled: bool): (r: Logger)
    ensures r.syslogging == (lg.syslogging && enabled)
    ensures r.level == lg.level && r.progname == lg.progname
  {
    if enabled then lg else lg.(syslogging := false)
  }

  // --------------------------------------------------------------- emission

  datatype Stream = Stdout | Stderr

  /** What `syslog(LOG_ERR, "%s: %s", tag, text)` is called with. */
  datatype SyslogRecord = SyslogRecord(tag: string, text: string)

  /** One emitted message: the stream and the line `fputs` writes, and the
      syslog record, if any. */
  datatype Output = Output(stream: Stream, line: string, syslog: Option<SyslogRecord>)

  function Label(l: Level): string {
    match l
    case FATAL => ": FATAL: "
    case ERR => ": ERROR: "
    case WARN => ": WARN: "
    case INFO => ": INFO: "
    case DEBUG => ": DEBUG: "
    case TRACE => ": TRACE: "
  }

  function StreamOf(l: Level): Stream {
    match l
    case FATAL => Stderr
    case ERR => Stderr
    case WARN => Stderr
    case _ => Stdout
  }

  function SyslogTag(l: Level): Option<string> {
    match l
    case FATAL => Some("FATAL")
    case ERR => Some("ERROR")
    case _ => None
  }

  /** `vlog(level, fmt, ap)` with `msg` the text `fmt` and `ap` format to:
      nothing below the threshold; otherwise the program name, the label,
      the message and a newline, on stderr for WARN and above, and the
      message with its newline forwarded to syslog for ERR and FATAL. */
  function VLog(lg: Logger, level: Level, msg: string): (r: Option<Output>)
    ensures r.None? <==> Ordinal(level) < Ordinal(lg.level)
    ensures r.Some? ==> lg.progname + Label(level) <= r.value.line
    ensures r.Some? ==> (r.value.stream == Stderr <==> Ordinal(level) >= Ordinal(WARN))
    ensures r.Some? ==> (r.value.syslog.Some? <==> lg.syslogging && Ordinal(level) >= Ordinal(ERR))
    ensures r.Some? && r.value.syslog.Some? ==> r.value.syslog.value.text == msg + "\n"
  {
    if Ordinal(level) < Ordinal(lg.level) then None
    else
      var line := lg.progname + Label(level) + msg + "\n";
      var record := match SyslogTag(level)
        case Some(tag) => if lg.syslogging then Some(SyslogRecord(tag, msg + "\n")) else None
        case None => None;
      Some(Output(StreamOf(level), line, record))
  }

  /** `log(level, fmt, ...)`: the same threshold test, then `vlog`. */
  function Log(lg: Logger, level: Level, msg: string): (r: Option<Output>)
    ensures r == VLog(lg, level, msg)
  {
    if Ordinal(level) < Ordinal(lg.level) then None else VLog(lg, level, msg)
  }

  // ----------------------------------------------------- reading a line back

  /** The level whose name starts with this character, which is also the
      third character of its label. */
  function LevelOfTag(c: char): Option<Level> {
    match c
    case 'T' => Some(TRACE)
    case 'D' => Some(DEBUG)
    case 'I' => Some(INFO)
    case 'W' => Some(WARN)
    case 'E' => Some(ERR)
    case 'F' => Some(FATAL)
    case _ => None
  }

  /** Recovers the level and message from a line written for `progname`. */
  function DecodeLine(progname: string, line: string): Option<(Level, string)> {
    if !(progname <= line) then None
    else
      var rest := line[|progname|..];
      if |rest| < 3 then None
      else match LevelOfTag(rest[2])
        case None => None
        case Some(l) =>
          var n := |Label(l)|;
          if Label(l) <= rest && n < |rest| && rest[|rest| - 1] == '\n'
          then Some((l, rest[n..|rest| - 1]))
          else None
  }

  // -------------------------------------------------------------- properties

  /** Every emitted line names its program, level and message, and can be
      read back. */
  lemma LineRoundTrip(lg: Logger, level: Level, msg: string)
    requires VLog(lg, level, msg).Some?
    ensures DecodeLine(lg.progname, VLog(lg, level, msg).value.line) == Some((level, msg))
  {
    var lab := Label(level);
    LabelTag(level);
    Pieces(lg.progname, lab, msg);
  }

  lemma LabelTag(l: Level)
    ensures |Label(l)| >= 3 && LevelOfTag(Label(l)[2]) == Some(l)
  {
  }

  /** Where the pieces of `p + lab + msg + "\n"` sit. */
  lemma Pieces(p: string, lab: string, msg: string)
    ensures var line := p + lab + msg + "\n"; var rest := line[|p|..];
      && p <= line && rest == lab + msg + "\n"
      && lab <= rest && rest[|rest| - 1] == '\n'
      && (|lab| > 2 ==> rest[2] == lab[2])
      && rest[|lab|..|rest| - 1] == msg
  {
    var line := p + lab + msg + "\n";
    assert line == p + (lab + msg + "\n");
    var rest := line[|p|..];
    assert rest == lab + msg + "\n";
    assert rest == lab + (msg + "\n");
    assert rest[|lab|..|rest| - 1] == msg;
  }

  /** The filter is monotone: a level that passes lets every more severe
      level pass, and raising the threshold only silences more. */
  lemma FilterMonotone(lg: Logger, level: Level, severe: Level, msg: string, msg2: string)
    requires VLog(lg, level, msg).Some? && Ordinal(level) <= Ordinal(severe)
    ensures VLog(lg, severe, msg2).Some?
    ensures forall t: Level | Ordinal(t) <= Ordinal(lg.level) ::
      VLog(SetLevel(lg, t), level, msg).Some?
  {
  }

  /** With the default threshold INFO and above are written, DEBUG and
      TRACE are not. */
  lemma DefaultThreshold(msg: string)
    ensures VLog(Initial, INFO, msg).Some? && VLog(Initial, WARN, msg).Some?
    ensures VLog(Initial, DEBUG, msg).None? && VLog(Initial, TRACE, msg).None?
  {
  }

  /** Once syslogging is off no level is forwarded, whatever is set later. */
  lemma SyslogOffIsPermanent(lg: Logger, later: bool, level: Level, msg: string)
    requires VLog(lg, level, msg).Some?
    ensures VLog(SetSyslogging(SetSyslogging(lg, false), later), level, msg).value.syslog.None?
  {
  }

  /** Each level's name is read back as that level. */
  lemma LevelNameRoundTrip(l: Level)
    ensures StrToLevel(LevelName(l)) == l
  {
    var s := LevelName(l);
    assert forall i | 0 <= i < |s| :: 'A' <= s[i] <= 'Z';
    Settled(s);
  }

  /** Names that are not exactly a level name fall back to INFO, even when
      they mean a level. */
  lemma NearMissesAreDefault()
    ensures StrToLevel("ERROR") == INFO
    ensures StrToLevel("WARNING") == INFO
    ensures StrToLevel("") == INFO
  {
    FirstLetterMisses("ERROR", 'E', ERR);
    FirstLetterMisses("WARNING", 'W', WARN);
    FirstLetterMisses("", 'T', TRACE);
  }

  /** An upper-case word whose length differs from the one level name that
      starts with its first letter is read as the default. */
  lemma FirstLetterMisses(s: string, c: char, l: Level)
    requires forall i | 0 <= i < |s| :: 'A' <= s[i] <= 'Z'
    requires s == [] || (s[0] == c && LevelOfTag(c) == Some(l) && |s| != |LevelName(l)|)
    ensures StrToLevel(s) == DefaultLevel
  {
    Settled(s);
  }

  /** An upper-case word is its own trimmed, upper-cased form. */
  lemma Settled(s: string)
    requires forall i | 0 <= i < |s| :: 'A' <= s[i] <= 'Z'
    ensures Upper(Trim(s)) == s
  {
    TrimUnique(s, s, 0);
    UpperFixed(s);
  }

  lemma UpperFixed(s: string)
    requires forall i | 0 <= i < |s| :: 'A' <= s[i] <= 'Z'
    ensures Upper(s) == s
  {
    assert forall i | 0 <= i < |s| :: Upper(s)[i] == s[i];
  }

  /** Two strings that agree after upper-casing each character. */
  predicate SameUpper(s: string, t: string) {
    |s| == |t| && forall i | 0 <= i < |s| :: UpperChar(s[i]) == UpperChar(t[i])
  }

  /** `str_to_level` ignores letter case. */
  lemma StrToLevelIgnoresCase(s: string, t: string)
    requires SameUpper(s, t)
    ensures StrToLevel(s) == StrToLevel(t)
  {
    TrimSameUpper(s, t);
  }

  lemma TrimSameUpper(s: string, t: string)
    requires SameUpper(s, t)
    ensures Upper(Trim(s)) == Upper(Trim(t))
  {
    var r := Trim(s);
    var a :| 0 <= a <= |s| - |r| && TrimmedAt(s, r, a);
    var r' := SameUpperSlice(s, t, r, a);
    TrimUnique(t, r', a);
  }

  /** The slice of `t` in the place of a trimmed slice of `s` is trimmed
      from `t` and agrees with it after upper-casing. */
  lemma SameUpperSlice(s: string, t: string, r: string, a: nat) returns (r': string)
    requires SameUpper(s, t) && a + |r| <= |s| && TrimmedAt(s, r, a)
    requires r == [] || (!IsSpace(r[0]) && !IsSpace(r[|r| - 1]))
    ensures r' == t[a..a + |r|] && TrimmedAt(t, r', a)
    ensures r' == [] || (!IsSpace(r'[0]) && !IsSpace(r'[|r'| - 1]))
    ensures Upper(r) == Upper(r')
  {
    r' := t[a..a + |r|];
    SameUpperKeepsSpace(s, t);
    if r != [] {
      assert r[0] == s[a] && r'[0] == t[a];
      assert r[|r| - 1] == s[a + |r| - 1] && r'[|r'| - 1] == t[a + |r| - 1];
    }
    assert forall i | 0 <= i < |r| :: Upper(r)[i] == UpperChar(s[a + i]) == UpperChar(t[a + i]) == Upper(r')[i];
  }

  /** Upper-casing moves no character into or out of the whitespace class. */
  lemma SameUpperKeepsSpace(s: string, t: string)
    requires SameUpper(s, t)
    ensures forall i | 0 <= i < |s| :: IsSpace(s[i]) <==> IsSpace(t[i])
  {
  }

  /** `str_to_level` ignores surrounding whitespace. */
  lemma StrToLevelIgnoresSpace(pre: string, s: string, post: string)
    requires forall i | 0 <= i < |pre| :: IsSpace(pre[i])
    requires forall i | 0 <= i < |post| :: IsSpace(post[i])
    ensures StrToLevel(pre + s + post) == StrToLevel(s)
  {
    var w := pre + s + post;
    Padded(pre, s, post, w);
    TrimOfTrimmed(w, s, |pre|);
  }
}
