/** `process_config`: accept only a regular configuration file, parse it, and
    turn a failed parse into one exception message that starts with a
    "can't load" line and lists every error report in order. */
module CfgParse {
  import opened Wrappers
  import opened Text
  import opened Ini
  import opened IniProperties
  import opened FileModes
  import Locator

  /** The test on what `stat` reports (`None` when it fails, else `st_mode`)
      that makes `process_config` return false. Its symbolic-link half can
      never decide anything: a file type equal to the link type is already
      not the regular type, so the file is refused exactly when `stat` fails
      or the file is not regular. */
  predicate Rejected(mode: Option<bv32>)
    ensures Rejected(mode) <==> mode.None? || FileType(mode.value) != RegularType
  {
    mode.None? || FileType(mode.value) != RegularType || FileType(mode.value) == LinkType
  }

  /** The constant parts of `config_file_parse_err_fmt`. */
  const ParseErrorHead: string := "config file parsing error "
  const ParseErrorIn: string := " in "
  const ParseErrorAt: string := "() at line "

  /** `config_file_parse_err_fmt` filled in: one line, unless the operation
      name itself holds newlines. */
  function ParseErrorLine(code: int, op: string, line: int): (r: string)
    ensures "config file parsing error " <= r && r[|r| - 1] == '\n'
    ensures Newlines(r) == Newlines(op) + 1
  {
    DecimalHasNoNewline(code);
    DecimalHasNoNewline(line);
    FormatPartsSingleLine();
    SixPartLine(ParseErrorHead, IntToDecimal(code), ParseErrorIn, op, ParseErrorAt, IntToDecimal(line));
    FramedLine(ParseErrorHead, IntToDecimal(code), ParseErrorIn, op, ParseErrorAt, IntToDecimal(line));
    ParseErrorHead + IntToDecimal(code) + ParseErrorIn + op + ParseErrorAt + IntToDecimal(line) + "\n"
  }

  /** The code, the operation and the line can be read back from a parse
      error report: the code right after the head, then " in ", the
      operation, "() at line " and the line number before the newline. */
  lemma ParseErrorLineReadBack(code: int, op: string, line: int)
    ensures var r := ParseErrorLine(code, op, line);
      var c := IntToDecimal(code);
      var n := IntToDecimal(line);
      var i := |ParseErrorHead| + |c|;
      var j := i + |ParseErrorIn| + |op|;
      && |r| == j + |ParseErrorAt| + |n| + 1
      && r[|ParseErrorHead|..i] == c && DecimalValue(c) == code
      && r[i..i + |ParseErrorIn|] == ParseErrorIn
      && r[i + |ParseErrorIn|..j] == op
      && r[j..j + |ParseErrorAt|] == ParseErrorAt
      && r[j + |ParseErrorAt|..|r| - 1] == n && DecimalValue(n) == line
  {
    SixPartSlices(ParseErrorHead, IntToDecimal(code), ParseErrorIn, op, ParseErrorAt, IntToDecimal(line));
  }

  /** Where each of six parts sits in their concatenation ended by a newline. */
  lemma SixPartSlices(a: string, b: string, c: string, d: string, e: string, f: string)
    ensures var r := a + b + c + d + e + f + "\n";
      var i := |a| + |b|;
      var j := i + |c| + |d|;
      && |r| == j + |e| + |f| + 1
      && r[|a|..i] == b
      && r[i..i + |c|] == c
      && r[i + |c|..j] == d
      && r[j..j + |e|] == e
      && r[j + |e|..|r| - 1] == f
  {
    var r := a + b + c + d + e + f + "\n";
    PartAt(r, a, b);
    PartAt(r, a + b, c);
    PartAt(r, a + b + c, d);
    PartAt(r, a + b + c + d, e);
    PartAt(r, a + b + c + d + e, f);
  }

  /** A part that follows a prefix of a text sits right after that prefix. */
  lemma PartAt(w: string, pre: string, y: string)
    requires pre + y <= w
    ensures |pre| + |y| <= |w| && w[|pre|..|pre| + |y|] == y
  {
    assert w[..|pre| + |y|] == pre + y;
  }

  /** `config_file_load_err_fmt` filled in: the path can be read back from
      between the quotes, and the text is one line unless the path itself
      holds newlines. */
  function LoadErrorLine(path: string): (r: string)
    ensures "can't load config file \"" <= r && |r| == |path| + 26
    ensures r[24..|r| - 2] == path && r[|r| - 2..] == "\"\n"
    ensures Newlines(r) == Newlines(path) + 1
  {
    var a := "can't load config file \"";
    var c := "\"";
    FormatPartsSingleLine();
    ThreePartLine(a, path, c);
    var r := a + path + c + "\n";
    assert r == (a + path) + "\"\n";
    assert r[..|r| - 2] == a + path;
    assert r[24..|r| - 2] == r[..|r| - 2][24..];
    assert (a + path)[24..] == path;
    r
  }

  /** The formatted error report of one notification. */
  function ReportOf(e: Event): string {
    match e
    case Notify(code, op, line) => ParseErrorLine(code, op, line)
    case Call(_, _, _) => []
  }

  /** The formatted error reports, concatenated in the order they arrived. */
  function Report(notes: seq<Event>): string {
    if notes == [] then [] else ReportOf(notes[0]) + Report(notes[1..])
  }

  /** `process_cfg_exception` and the text it carries. */
  datatype ConfigError = ConfigError(message: string)

  /** `process_config(path, handler)`: `mode` is what `stat` reports for the
      path and `f` is what `ini_parse` finds when it opens it. A thrown
      exception is a `Failure`. */
  function ProcessConfig(flags: Flags, h: Handler, path: string, mode: Option<bv32>, f: FileAccess): (r: Result<bool, ConfigError>)
    ensures r == Success(false) <==> Rejected(mode)
    ensures r == Success(true) <==> !Rejected(mode) && ParseFile(flags, h, f).code == 0
    ensures r.Failure? ==> LoadErrorLine(path) <= r.error.message
  {
    if Rejected(mode) then Success(false)
    else
      var p := ParseFile(flags, h, f);
      if p.code != 0 then Failure(ConfigError(LoadErrorLine(path) + Report(Notes(p.trace))))
      else Success(true)
  }

  // ------------------------------------------------------------ properties

  /** The file is accepted exactly when it is regular, opens, has no failing
      line and closes cleanly. */
  lemma AcceptsCleanFile(flags: Flags, h: Handler, path: string, mode: Option<bv32>, f: FileAccess)
    ensures ProcessConfig(flags, h, path, mode, f) == Success(true)
        <==> !Rejected(mode) && f.Opened? && f.closeErrno == 0
             && FirstFailure(flags, h, 0, Context("", ""), PrepareAll(flags, f.lines)) == 0
  {
    ParseFileOutcome(flags, h, f);
  }

  /** A failed parse is thrown as the "can't load" line followed by the
      formatted reports, in the order the parser made them. */
  lemma Thrown(flags: Flags, h: Handler, path: string, mode: Option<bv32>, f: FileAccess)
    requires !Rejected(mode) && ParseFile(flags, h, f).code != 0
    ensures ProcessConfig(flags, h, path, mode, f)
         == Failure(ConfigError(LoadErrorLine(path) + Report(Notes(ParseFile(flags, h, f).trace))))
  {
  }

  /** For a file that opens, the exception message is: after a failing line,
      the "can't load" line, the reports of the core loop and the report of
      the first failing line from line 203; after a clean parse whose
      `fclose` fails, the "can't load" line and the line-207 report of the
      close `errno`, with nothing in between. */
  lemma FailedParseMessage(flags: Flags, h: Handler, path: string, mode: Option<bv32>, lines: seq<string>, closeErrno: int)
    requires !Rejected(mode)
    ensures var k := FirstFailure(flags, h, 0, Context("", ""), PrepareAll(flags, lines));
      var r := ProcessConfig(flags, h, path, mode, Opened(lines, closeErrno));
      && (k != 0 ==> r == Failure(ConfigError(
            LoadErrorLine(path) + Report(Notes(ParseLines(flags, h, lines).trace)) + ParseErrorLine(k, ParseOp, 203))))
      && (k == 0 && closeErrno != 0 ==> r == Failure(ConfigError(LoadErrorLine(path) + ParseErrorLine(closeErrno, ParseOp, 207))))
  {
    var k := FirstFailure(flags, h, 0, Context("", ""), PrepareAll(flags, lines));
    if k != 0 {
      FailingLineMessage(flags, h, path, mode, lines, closeErrno);
    } else if closeErrno != 0 {
      CloseFailureMessage(flags, h, path, mode, lines, closeErrno);
    }
  }

  lemma FailingLineMessage(flags: Flags, h: Handler, path: string, mode: Option<bv32>, lines: seq<string>, closeErrno: int)
    requires !Rejected(mode)
    requires FirstFailure(flags, h, 0, Context("", ""), PrepareAll(flags, lines)) != 0
    ensures var k := FirstFailure(flags, h, 0, Context("", ""), PrepareAll(flags, lines));
      ProcessConfig(flags, h, path, mode, Opened(lines, closeErrno)) == Failure(ConfigError(
        LoadErrorLine(path) + Report(Notes(ParseLines(flags, h, lines).trace)) + ParseErrorLine(k, ParseOp, 203)))
  {
    var k := FirstFailure(flags, h, 0, Context("", ""), PrepareAll(flags, lines));
    ReturnsFirstErrorLine(flags, h, lines);
    var core := ParseLines(flags, h, lines).trace;
    var e := Notify(k, ParseOp, 203);
    var f := Opened(lines, closeErrno);
    assert ParseFile(flags, h, f) == ParseResult(-1, core + [e]);
    Thrown(flags, h, path, mode, f);
    var m := LoadErrorLine(path) + Report(Notes(core + [e]));
    assert ProcessConfig(flags, h, path, mode, f) == Failure(ConfigError(m));
    TailReport(core, e, LoadErrorLine(path));
  }

  /** The message part built from a trace that ends in one more report. */
  lemma TailReport(core: seq<Event>, e: Event, head: string)
    requires e.Notify?
    ensures head + Report(Notes(core + [e])) == head + Report(Notes(core)) + ParseErrorLine(e.code, e.op, e.line)
  {
    CallsAppend(core, e);
    ReportAppend(Notes(core), e);
    ReportOne(e.code, e.op, e.line);
  }

  lemma CloseFailureMessage(flags: Flags, h: Handler, path: string, mode: Option<bv32>, lines: seq<string>, closeErrno: int)
    requires !Rejected(mode) && closeErrno != 0
    requires FirstFailure(flags, h, 0, Context("", ""), PrepareAll(flags, lines)) == 0
    ensures ProcessConfig(flags, h, path, mode, Opened(lines, closeErrno))
         == Failure(ConfigError(LoadErrorLine(path) + ParseErrorLine(closeErrno, ParseOp, 207)))
  {
    var f := Opened(lines, closeErrno);
    var core := ParseLines(flags, h, lines).trace;
    var e := Notify(closeErrno, ParseOp, 207);
    ParseFileOutcome(flags, h, f);
    Thrown(flags, h, path, mode, f);
    CleanParseNotifiesNothing(flags, h, lines);
    CallsAppend(core, e);
    assert Notes(core + [e]) == [e];
    ReportOne(closeErrno, ParseOp, 207);
  }

  /** Reports are formatted one after another. */
  lemma {:induction false} ReportAppend(notes: seq<Event>, e: Event)
    ensures Report(notes + [e]) == Report(notes) + Report([e])
    decreases |notes|
  {
    if notes == [] {
      assert notes + [e] == [e];
    } else {
      var x := ReportOf(notes[0]);
      var rest := notes[1..];
      assert Report(notes + [e]) == x + Report(rest + [e]) by {
        assert (notes + [e])[0] == notes[0];
        assert (notes + [e])[1..] == rest + [e];
      }
      ReportAppend(rest, e);
      ConcatAssoc(x, Report(rest), Report([e]));
    }
  }

  lemma ReportOne(code: int, op: string, line: int)
    ensures Report([Notify(code, op, line)]) == ParseErrorLine(code, op, line)
  {
    var t := [Notify(code, op, line)];
    assert t[1..] == [];
  }

  lemma NotesOne(e: Event)
    requires e.Notify?
    ensures Notes([e]) == [e]
  {
    assert [e][..0] == [];
  }

  /** A file that cannot be opened yields the "can't load" line followed by
      the report of the failed `fopen`. */
  lemma OpenFailureMessage(flags: Flags, h: Handler, path: string, mode: Option<bv32>, errno: int)
    requires !Rejected(mode)
    ensures ProcessConfig(flags, h, path, mode, OpenFailed(errno))
         == Failure(ConfigError(LoadErrorLine(path) + ParseErrorLine(errno, ParseOp, 196)))
  {
    Thrown(flags, h, path, mode, OpenFailed(errno));
    NotesOne(Notify(errno, ParseOp, 196));
    ReportOne(errno, ParseOp, 196);
  }

  /** With stop-on-first-error the only report of a failing file is the one
      `ini_parse` adds, carrying the first failing line's number. */
  lemma StopOnFirstErrorNotes(flags: Flags, h: Handler, lines: seq<string>, closeErrno: int)
    requires flags.stopOnFirstError
    requires FirstFailure(flags, h, 0, Context("", ""), PrepareAll(flags, lines)) != 0
    ensures var k := FirstFailure(flags, h, 0, Context("", ""), PrepareAll(flags, lines));
      Notes(ParseFile(flags, h, Opened(lines, closeErrno)).trace) == [Notify(k, ParseOp, 203)]
  {
    var k := FirstFailure(flags, h, 0, Context("", ""), PrepareAll(flags, lines));
    var core := ParseLines(flags, h, lines);
    ReturnsFirstErrorLine(flags, h, lines);
    StopOnFirstErrorNeverNotifies(flags, h, lines);
    CallsAppend(core.trace, Notify(k, ParseOp, 203));
  }

  /** With stop-on-first-error a failing file yields exactly two lines: the
      "can't load" line and the report carrying the first failing line's
      number. */
  lemma StopOnFirstErrorMessage(flags: Flags, h: Handler, path: string, mode: Option<bv32>, lines: seq<string>, closeErrno: int)
    requires flags.stopOnFirstError && !Rejected(mode)
    requires FirstFailure(flags, h, 0, Context("", ""), PrepareAll(flags, lines)) != 0
    ensures var k := FirstFailure(flags, h, 0, Context("", ""), PrepareAll(flags, lines));
      ProcessConfig(flags, h, path, mode, Opened(lines, closeErrno))
        == Failure(ConfigError(LoadErrorLine(path) + ParseErrorLine(k, ParseOp, 203)))
  {
    var k := FirstFailure(flags, h, 0, Context("", ""), PrepareAll(flags, lines));
    var f := Opened(lines, closeErrno);
    ParseFileOutcome(flags, h, f);
    Thrown(flags, h, path, mode, f);
    StopOnFirstErrorNotes(flags, h, lines, closeErrno);
    ReportOne(k, ParseOp, 203);
  }

  /** With a path free of newlines, the exception message holds one line
      for the "can't load" text and one per report. */
  lemma MessageLines(flags: Flags, h: Handler, path: string, mode: Option<bv32>, f: FileAccess)
    requires !Rejected(mode) && ParseFile(flags, h, f).code != 0 && '\n' !in path
    ensures var r := ProcessConfig(flags, h, path, mode, f);
      r.Failure? && Newlines(r.error.message) == 1 + |Notes(ParseFile(flags, h, f).trace)|
  {
    var t := ParseFile(flags, h, f).trace;
    var notes := Notes(t);
    ReportsOnlyParserNames(flags, h, f);
    NotesAreNotifications(t);
    ParserNamesAreSingleLine();
    forall i | 0 <= i < |notes| ensures SingleLine(notes[i]) {
      var j :| 0 <= j < |t| && t[j] == notes[i];
      assert t[j].op == CoreOp || t[j].op == ParseOp;
    }
    ReportLines(notes);
    NewlinesAppend(LoadErrorLine(path), Report(notes));
  }

  lemma ThreePartLine(a: string, b: string, c: string)
    requires '\n' !in a && '\n' !in c
    ensures Newlines(a + b + c + "\n") == Newlines(b) + 1
  {
    NewlinesAppend(a, b);
    NewlinesAppend(a + b, c);
    NewlinesAppend(a + b + c, "\n");
  }

  /** The constant parts of both error formats hold no newline. */
  lemma FormatPartsSingleLine()
    ensures '\n' !in ParseErrorHead && '\n' !in ParseErrorIn && '\n' !in ParseErrorAt
    ensures '\n' !in "can't load config file \"" && '\n' !in "\""
  {
  }

  lemma ParserNamesAreSingleLine()
    ensures '\n' !in CoreOp && '\n' !in ParseOp
  {
  }

  /** The number of newline characters in a text. */
  function Newlines(s: string): (n: nat)
    ensures n <= |s|
    ensures n == 0 <==> '\n' !in s
  {
    if s == [] then 0 else (if s[0] == '\n' then 1 else 0) + Newlines(s[1..])
  }

  lemma DecimalHasNoNewline(n: int)
    ensures '\n' !in IntToDecimal(n)
  {
    var d := IntToDecimal(n);
    if n >= 0 {
      forall i | 0 <= i < |d| ensures d[i] != '\n' {
        assert IsDigit(d[i]);
      }
    } else {
      var m := NatToDecimal(-n);
      forall i | 0 <= i < |d| ensures d[i] != '\n' {
        if i > 0 {
          assert d[i] == m[i - 1];
          assert IsDigit(m[i - 1]);
        }
      }
    }
  }

  lemma {:induction false} NewlinesAppend(a: string, b: string)
    ensures Newlines(a + b) == Newlines(a) + Newlines(b)
    decreases |a|
  {
    if a != [] {
      assert (a + b)[1..] == a[1..] + b;
      NewlinesAppend(a[1..], b);
    } else {
      assert a + b == b;
    }
  }

  /** A text built from a head and five more parts and ended by a newline
      starts with the head and ends with the newline. */
  lemma FramedLine(a: string, b: string, c: string, d: string, e: string, f: string)
    ensures var r := a + b + c + d + e + f + "\n";
      a <= r && r[|r| - 1] == '\n'
  {
    var r := a + b + c + d + e + f + "\n";
    assert r == a + (b + c + d + e + f + "\n");
  }

  lemma SixPartLine(a: string, b: string, c: string, d: string, e: string, f: string)
    requires '\n' !in a && '\n' !in b && '\n' !in c && '\n' !in e && '\n' !in f
    ensures Newlines(a + b + c + d + e + f + "\n") == Newlines(d) + 1
  {
    NewlinesAppend(a, b);
    NewlinesAppend(a + b, c);
    NewlinesAppend(a + b + c, d);
    NewlinesAppend(a + b + c + d, e);
    NewlinesAppend(a + b + c + d + e, f);
    NewlinesAppend(a + b + c + d + e + f, "\n");
  }

  /** The notifications of a trace. */
  lemma {:induction false} NotesAreNotifications(t: seq<Event>)
    ensures forall i | 0 <= i < |Notes(t)| :: Notes(t)[i].Notify? && Notes(t)[i] in t
    decreases |t|
  {
    if t != [] {
      NotesAreNotifications(t[..|t| - 1]);
      var p := t[..|t| - 1];
      forall i | 0 <= i < |Notes(p)| ensures Notes(p)[i] in t {
        assert Notes(p)[i] in p;
      }
    }
  }

  /** The message of a failed parse has one line per report after the
      "can't load" line. */
  lemma {:induction false} ReportLines(notes: seq<Event>)
    requires forall i | 0 <= i < |notes| :: SingleLine(notes[i])
    ensures Newlines(Report(notes)) == |notes|
    decreases |notes|
  {
    if notes != [] {
      assert SingleLine(notes[0]);
      ReportConsLines(notes);
      var rest := notes[1..];
      forall i | 0 <= i < |rest| ensures SingleLine(rest[i]) {
        assert rest[i] == notes[i + 1];
      }
      ReportLines(rest);
    }
  }

  /** A notification whose operation name holds no newline. */
  predicate SingleLine(e: Event) {
    e.Notify? && '\n' !in e.op
  }

  lemma ReportConsLines(notes: seq<Event>)
    requires notes != [] && notes[0].Notify? && '\n' !in notes[0].op
    ensures Newlines(Report(notes)) == 1 + Newlines(Report(notes[1..]))
  {
    var x := ParseErrorLine(notes[0].code, notes[0].op, notes[0].line);
    assert Report(notes) == x + Report(notes[1..]);
    NewlinesAppend(x, Report(notes[1..]));
  }

  /** `find_program_path` accepts what `process_config` accepts and, in
      addition, a file whose reported type is a symbolic link. */
  lemma LocatorAcceptsMore(mode: Option<bv32>)
    ensures Locator.Accepts(mode) <==> !Rejected(mode) || (mode.Some? && FileType(mode.value) == LinkType)
  {
  }
}
