/** The INI line parser (a C++ port of inih): a fold over the lines of a file
    that reports every `name=value` pair to a handler and returns the number of
    the first line in error, or 0. */
module Ini {
  import opened Text

  /** Sizes of the `section` and `prev_name` buffers. */
  const MaxSection: nat := 50
  const MaxName: nat := 50

  /** `EILSEQ` as Linux defines it. */
  const EILSEQ: int := 84

  /** `__func__` of the two functions that report through `error_code`. */
  const CoreOp: string := "ini_parse_file_core"
  const ParseOp: string := "ini_parse"

  /** The compile-time switches `INI_ALLOW_MULTILINE`, `INI_ALLOW_BOM` and
      `INI_STOP_ON_FIRST_ERROR`. */
  datatype Flags = Flags(allowMultiline: bool, allowBom: bool, stopOnFirstError: bool)

  /** The handler: called with (section, name, value); zero means failure. */
  type Handler = (string, string, string) -> int

  /** What the parser does, in order: handler calls and `error_code`
      notifications (errno-style code, function name, C source line). */
  datatype Event =
    | Call(section: string, name: string, value: string)
    | Notify(code: int, op: string, line: int)

  /** Parser state: the current section, the previous name (both as their
      fixed-size buffers hold them), the number of lines read, the first
      error's line number (0 for none) and the events so far. */
  datatype State = State(section: string, prevName: string, lineno: nat, error: nat, trace: seq<Event>)

  const Initial: State := State("", "", 0, 0, [])

  /** The handler calls of a trace. */
  function Calls(t: seq<Event>): seq<Event> {
    if t == [] then [] else Calls(t[..|t| - 1]) + (if t[|t| - 1].Call? then [t[|t| - 1]] else [])
  }

  /** The `error_code` notifications of a trace. */
  function Notes(t: seq<Event>): seq<Event> {
    if t == [] then [] else Notes(t[..|t| - 1]) + (if t[|t| - 1].Notify? then [t[|t| - 1]] else [])
  }

  // ---------------------------------------------------------------- scanning

  /** Where `find_char_or_comment(s, c)` stops: the terminating NUL, the
      character `c`, or a `;` right after a whitespace character. */
  predicate HaltsAt(s: string, c: char, i: nat)
    requires i < |s|
  {
    s[i] == '\0' || s[i] == c || (s[i] == ';' && i > 0 && IsSpace(s[i - 1]))
  }

  /** `find_char_or_comment`: the first index where the scan halts, or `|s|`. */
  function FindCharOrComment(s: string, c: char): (i: nat)
    ensures i <= |s|
    ensures i < |s| ==> HaltsAt(s, c, i)
    ensures forall j | 0 <= j < i :: !HaltsAt(s, c, j)
  {
    ScanFrom(s, c, 0, false)
  }

  /** The loop of `find_char_or_comment` from index `i`, `wasSpace` telling
      whether the character before `i` was whitespace. */
  function ScanFrom(s: string, c: char, i: nat, wasSpace: bool): (k: nat)
    requires i <= |s|
    requires wasSpace == (i > 0 && IsSpace(s[i - 1]))
    ensures i <= k <= |s|
    ensures k < |s| ==> HaltsAt(s, c, k)
    ensures forall j | i <= j < k :: !HaltsAt(s, c, j)
    decreases |s| - i
  {
    if i == |s| || s[i] == '\0' || s[i] == c || (wasSpace && s[i] == ';') then i
    else ScanFrom(s, c, i + 1, IsSpace(s[i]))
  }

  /** The scan passes over no occurrence of the character it looks for. */
  lemma ScannedPrefixLacks(s: string, c: char, e: nat)
    requires e <= |s| && forall j | 0 <= j < e :: !HaltsAt(s, c, j)
    ensures c !in s[..e]
  {
    forall j | 0 <= j < e ensures s[..e][j] != c {
      assert !HaltsAt(s, c, j);
    }
  }

  /** The UTF-8 byte order mark, one character per byte. */
  predicate HasBom(s: string) {
    |s| >= 3 && s[0] == 'ï' && s[1] == '»' && s[2] == '¿'
  }

  /** A C string with no whitespace at either end. */
  predicate Stripped(t: string) {
    '\0' !in t && (t == [] || (!IsSpace(t[0]) && !IsSpace(t[|t| - 1])))
  }

  /** A line after `start = lskip(rstrip(start))`: the text `start` points to,
      and whether `start` has moved past the first character of the buffer
      (`start > line`). */
  datatype Scan = Scan(text: string, indented: bool)

  /** Whether the loop skips a byte order mark at the start of this line. */
  predicate SkipsBom(flags: Flags, lineno: nat, line: string) {
    flags.allowBom && lineno == 1 && HasBom(line)
  }

  /** The C string in the line buffer, from where `start` first points. */
  function Body(flags: Flags, lineno: nat, raw: string): (b: string)
    ensures '\0' !in b
  {
    var line := CString(raw);
    if SkipsBom(flags, lineno, line) then line[3..] else line
  }

  /** The text is the line's content trimmed at both ends, and `start` has
      moved past the buffer's first character exactly when a BOM was
      skipped or the (non-blank) content begins with whitespace. */
  function ScanLine(flags: Flags, lineno: nat, raw: string): (sc: Scan)
    ensures sc.text == Trim(Body(flags, lineno, raw))
    ensures Stripped(sc.text)
    ensures sc.indented <==>
      (SkipsBom(flags, lineno, CString(raw)) || (sc.text != [] && IsSpace(Body(flags, lineno, raw)[0])))
  {
    var line := CString(raw);
    var body := Body(flags, lineno, raw);
    var start := Trim(body);
    TrimKeepsNoNul(body);
    Indentation(body);
    Scan(start, |body| < |line| || |start| < |StripRight(body)|)
  }

  /** The delimiter of a pair line: the first `=`, or when the scan for `=`
      stops elsewhere, wherever the scan for `:` stops. */
  function Delimiter(s: string): (e: nat)
    ensures e <= |s|
  {
    var eq := FindCharOrComment(s, '=');
    if eq < |s| && s[eq] == '=' then eq else FindCharOrComment(s, ':')
  }

  /** The value of a pair line from the text after its delimiter: leading
      whitespace skipped, an inline comment cut, trailing whitespace stripped. */
  function ValueOf(rest: string): (v: string)
  {
    var v0 := SkipLeft(rest);
    var c := FindCharOrComment(v0, '\0');
    StripRight(if c < |v0| && v0[c] == ';' then v0[..c] else v0)
  }

  /** The branch of the per-line state machine a line takes. */
  datatype LineKind =
    | Blank
    | Comment
    | Continuation(value: string)
    | Section(name: string)
    | UnclosedSection
    | Pair(name: string, value: string)
    | NoDelimiter

  /** The branch a scanned text takes when it is not read as a continuation.
      This part does not depend on earlier lines. The C test
      `*start != ';'` on the pair branch is already implied by the comment
      branch, so it does not appear here. */
  function Shape(s: string): (k: LineKind)
    ensures k == Blank <==> s == []
    ensures k == Comment <==> s != [] && (s[0] == ';' || s[0] == '#')
    ensures k.Section? || k == UnclosedSection <==> s != [] && s[0] == '['
    ensures k.Section? ==>
      (|k.name| + 1 < |s| && s[1..|k.name| + 1] == k.name && s[|k.name| + 1] == ']' && ']' !in k.name)
    ensures !k.Continuation?
  {
    if s == [] then Blank
    else if s[0] == ';' || s[0] == '#' then Comment
    else if s[0] == '[' then
      var e := FindCharOrComment(s[1..], ']');
      ScannedPrefixLacks(s[1..], ']', e);
      assert s[1..][..e] == s[1..1 + e];
      if e < |s| - 1 && s[1 + e] == ']' then Section(s[1..1 + e]) else UnclosedSection
    else
      var e := Delimiter(s);
      if e < |s| && (s[e] == '=' || s[e] == ':') then Pair(StripRight(s[..e]), ValueOf(s[e + 1..]))
      else NoDelimiter
  }

  /** A line read from the file, scanned: its text after trimming, whether
      `start` moved past the buffer's first character, and its shape. */
  datatype Line = Line(text: string, indented: bool, shape: LineKind)

  /** Line number `lineno` (1-based) as the loop body first sees it: the
      trimmed content, whether it was indented, and the shape of the
      trimmed content. */
  function Prepare(flags: Flags, lineno: nat, raw: string): (l: Line)
    ensures l.text == Trim(Body(flags, lineno, raw)) && Stripped(l.text)
    ensures l.indented <==>
      (SkipsBom(flags, lineno, CString(raw)) || (l.text != [] && IsSpace(Body(flags, lineno, raw)[0])))
    ensures l.shape == Shape(l.text)
  {
    var sc := ScanLine(flags, lineno, raw);
    Line(sc.text, sc.indented, Shape(sc.text))
  }

  /** All lines of a file, numbered from 1. */
  function PrepareAll(flags: Flags, lines: seq<string>): (ls: seq<Line>)
    ensures |ls| == |lines|
  {
    seq(|lines|, i requires 0 <= i < |lines| => Prepare(flags, i + 1, lines[i]))
  }

  /** Which branch a line takes, given the stored previous name: a comment
      stays a comment; otherwise, with multi-line values allowed, a previous
      name and a non-blank indented line make a continuation. */
  function Classify(flags: Flags, prevName: string, l: Line): (k: LineKind)
    ensures k == l.shape || k == Continuation(l.text)
    ensures k.Continuation? && !l.shape.Continuation? ==>
      flags.allowMultiline && prevName != [] && l.text != [] && l.indented && !l.shape.Comment?
    ensures l.shape.Comment? || !flags.allowMultiline || prevName == [] || !l.indented || l.text == [] ==> k == l.shape
    ensures flags.allowMultiline && prevName != [] && l.text != [] && l.indented && !l.shape.Comment? ==>
      k == Continuation(l.text)
  {
    if flags.allowMultiline && prevName != [] && l.text != [] && l.indented && !l.shape.Comment?
    then Continuation(l.text)
    else l.shape
  }

  // ----------------------------------------------------------- state machine

  /** A malformed line: it becomes the first error, or, when an error is
      already recorded, is only reported as `EILSEQ` from source line `at`. */
  function Fault(st: State, at: int): (r: State)
    requires st.lineno > 0
    ensures r.section == st.section && r.prevName == st.prevName && r.lineno == st.lineno
    ensures r.error != 0
    ensures st.error == 0 ==> r.error == st.lineno && r.trace == st.trace
    ensures st.error != 0 ==> r.error == st.error && r.trace == st.trace + [Notify(EILSEQ, CoreOp, at)]
  {
    if st.error == 0 then st.(error := st.lineno)
    else st.(trace := st.trace + [Notify(EILSEQ, CoreOp, at)])
  }

  /** The continuation branch exactly as written: its `else` also fires when
      the handler succeeded, so a successful continuation is reported as an
      `EILSEQ` error. */
  function ContinueAsWritten(st: State, rc: int): (r: State)
    requires st.lineno > 0
  {
    if rc == 0 && st.error == 0 then st.(error := st.lineno)
    else st.(trace := st.trace + [Notify(EILSEQ, CoreOp, 118)])
  }

  /** The continuation branch as the other branches behave: a failing handler
      call is a fault like a malformed line, reported from line 118; a
      successful one changes nothing. */
  function Continue(st: State, rc: int): (r: State)
    requires st.lineno > 0
    ensures rc != 0 ==> r == st
    ensures rc == 0 ==> r == Fault(st, 118)
  {
    if rc == 0 && st.error == 0 then st.(error := st.lineno)
    else if rc == 0 then st.(trace := st.trace + [Notify(EILSEQ, CoreOp, 118)])
    else st
  }

  /** One iteration of the `fgets` loop of `ini_parse_file_core`. */
  function Step(flags: Flags, h: Handler, st: State, l: Line): (r: State)
    ensures r.lineno == st.lineno + 1
    ensures st.trace <= r.trace
    ensures st.error != 0 ==> r.error == st.error
    ensures r.error == st.error || r.error == r.lineno
  {
    Apply(h, st.(lineno := st.lineno + 1), Classify(flags, st.prevName, l))
  }

  /** The effect of a line of the given kind on a state whose line counter
      already counts it. */
  function Apply(h: Handler, st: State, kind: LineKind): (r: State)
    requires st.lineno > 0
    ensures r.lineno == st.lineno
    ensures st.trace <= r.trace && |r.trace| <= |st.trace| + 2
    ensures st.error != 0 ==> r.error == st.error
    ensures r.error == st.error || r.error == st.lineno
    ensures !kind.Continuation? && !kind.Pair? ==> |r.trace| <= |st.trace| + 1
  {
    match kind
    case Blank => st
    case Comment => st
    case Continuation(v) =>
      Continue(st.(trace := st.trace + [Call(st.section, st.prevName, v)]), h(st.section, st.prevName, v))
    case Section(name) => st.(section := CopyTruncated(name, MaxSection), prevName := [])
    case UnclosedSection => Fault(st, 135)
    case Pair(name, value) =>
      var st' := st.(prevName := CopyTruncated(name, MaxName), trace := st.trace + [Call(st.section, name, value)]);
      if h(st.section, name, value) == 0 && st.error == 0 then st'.(error := st.lineno) else st'
    case NoDelimiter => Fault(st, 165)
  }

  /** The loop over the remaining lines; with stop-on-first-error it ends
      after the line that produced the first error. */
  function Run(flags: Flags, h: Handler, st: State, lines: seq<Line>): (r: State)
    ensures st.lineno <= r.lineno <= st.lineno + |lines|
    ensures !flags.stopOnFirstError ==> r.lineno == st.lineno + |lines|
    ensures st.trace <= r.trace
    ensures st.error != 0 ==> r.error == st.error
    ensures r.error == st.error || st.lineno < r.error <= r.lineno
    ensures flags.stopOnFirstError && st.error == 0 ==>
      if r.error == 0 then r.lineno == st.lineno + |lines| else r.error == r.lineno
    decreases |lines|
  {
    if lines == [] then st
    else
      var next := Step(flags, h, st, lines[0]);
      if flags.stopOnFirstError && next.error != 0 then next
      else Run(flags, h, next, lines[1..])
  }

  /** `ini_parse_file_core`: the final state holds the return value (`error`)
      and every handler call and notification in order. */
  function ParseLines(flags: Flags, h: Handler, lines: seq<string>): (r: State)
    ensures r.lineno <= |lines| && r.error <= r.lineno
    ensures !flags.stopOnFirstError ==> r.lineno == |lines|
    ensures flags.stopOnFirstError ==> if r.error == 0 then r.lineno == |lines| else r.error == r.lineno
  {
    Run(flags, h, Initial, PrepareAll(flags, lines))
  }

  // ------------------------------------------------------ ini_parse(filename)

  /** What opening the file gives: `fopen` fails with an errno, or it yields
      the file's lines, and `fclose` later leaves the errno it set (0 when it
      succeeded). */
  datatype FileAccess = OpenFailed(openErrno: int) | Opened(lines: seq<string>, closeErrno: int)

  /** The return value of `ini_parse(filename)` and the events it caused. */
  datatype ParseResult = ParseResult(code: int, trace: seq<Event>)

  /** `ini_parse(filename, handler, error_code)`. */
  function ParseFile(flags: Flags, h: Handler, f: FileAccess): (r: ParseResult)
    ensures r.code == 0 || r.code == -1
    ensures f.OpenFailed? ==> r == ParseResult(-1, [Notify(f.openErrno, ParseOp, 196)])
    ensures f.Opened? ==> ParseLines(flags, h, f.lines).trace <= r.trace
    ensures f.Opened? && ParseLines(flags, h, f.lines).error != 0 ==>
      r == ParseResult(-1, ParseLines(flags, h, f.lines).trace + [Notify(ParseLines(flags, h, f.lines).error, ParseOp, 203)])
    ensures f.Opened? && ParseLines(flags, h, f.lines).error == 0 && f.closeErrno != 0 ==>
      r == ParseResult(-1, ParseLines(flags, h, f.lines).trace + [Notify(f.closeErrno, ParseOp, 207)])
    ensures f.Opened? && ParseLines(flags, h, f.lines).error == 0 && f.closeErrno == 0 ==>
      r == ParseResult(0, ParseLines(flags, h, f.lines).trace)
  {
    match f
    case OpenFailed(errno) => ParseResult(-1, [Notify(errno, ParseOp, 196)])
    case Opened(lines, closeErrno) =>
      var core := ParseLines(flags, h, lines);
      if core.error != 0 then ParseResult(-1, core.trace + [Notify(core.error, ParseOp, 203)])
      else if closeErrno != 0 then ParseResult(-1, core.trace + [Notify(closeErrno, ParseOp, 207)])
      else ParseResult(0, core.trace)
  }
}
