/** Properties of the INI parser. A per-line reference view (the context a
    line is read in, whether it fails, which handler call it makes) is set
    against the fold `Ini.Run`, and the shape of pair, section and comment
    lines is stated in terms of the scanned text. */
module IniProperties {
  import opened Text
  import opened Ini

  // ------------------------------------------------------- reference view

  /** What the parser remembers from one line to the next besides errors. */
  datatype Context = Context(section: string, prevName: string)

  function ContextOf(st: State): Context {
    Context(st.section, st.prevName)
  }

  /** The context after a line of the given kind. It does not depend on the
      handler or on errors. */
  function NextContext(ctx: Context, kind: LineKind): Context {
    match kind
    case Section(name) => Context(CopyTruncated(name, MaxSection), [])
    case Pair(name, _) => ctx.(prevName := CopyTruncated(name, MaxName))
    case _ => ctx
  }

  /** A line is in error: a `[` without `]`, a pair line without delimiter,
      or a handler call that returns 0. */
  predicate KindFails(h: Handler, ctx: Context, kind: LineKind) {
    match kind
    case UnclosedSection => true
    case NoDelimiter => true
    case Pair(name, value) => h(ctx.section, name, value) == 0
    case Continuation(v) => h(ctx.section, ctx.prevName, v) == 0
    case _ => false
  }

  /** A line that is reported through `error_code` when an error is already
      recorded. A failing pair handler is not among these. */
  predicate KindMalformed(h: Handler, ctx: Context, kind: LineKind) {
    match kind
    case UnclosedSection => true
    case NoDelimiter => true
    case Continuation(v) => h(ctx.section, ctx.prevName, v) == 0
    case _ => false
  }

  /** The source line a malformed line of this kind is reported from. */
  function FaultLine(kind: LineKind): int {
    match kind
    case UnclosedSection => 135
    case NoDelimiter => 165
    case _ => 118
  }

  /** What a line adds to the notifications when an error is already
      recorded: one `EILSEQ` report for a malformed line, nothing else. */
  function KindNote(h: Handler, ctx: Context, erred: bool, kind: LineKind): seq<Event> {
    if erred && KindMalformed(h, ctx, kind) then [Notify(EILSEQ, CoreOp, FaultLine(kind))] else []
  }

  /** The handler call a line makes, if any. */
  function KindCall(ctx: Context, kind: LineKind): seq<Event> {
    match kind
    case Pair(name, value) => [Call(ctx.section, name, value)]
    case Continuation(v) => [Call(ctx.section, ctx.prevName, v)]
    case _ => []
  }

  function KindOf(flags: Flags, ctx: Context, l: Line): LineKind {
    Classify(flags, ctx.prevName, l)
  }

  function Advance(flags: Flags, ctx: Context, l: Line): Context {
    NextContext(ctx, KindOf(flags, ctx, l))
  }

  predicate Fails(flags: Flags, h: Handler, ctx: Context, l: Line) {
    KindFails(h, ctx, KindOf(flags, ctx, l))
  }

  predicate Malformed(flags: Flags, h: Handler, ctx: Context, l: Line) {
    KindMalformed(h, ctx, KindOf(flags, ctx, l))
  }

  function CallOf(flags: Flags, ctx: Context, l: Line): seq<Event> {
    KindCall(ctx, KindOf(flags, ctx, l))
  }

  function NoteOf(flags: Flags, h: Handler, ctx: Context, erred: bool, l: Line): seq<Event> {
    KindNote(h, ctx, erred, KindOf(flags, ctx, l))
  }

  /** The number of the first failing line after the `before` lines already
      read, or 0 when none fails. */
  function FirstFailure(flags: Flags, h: Handler, before: nat, ctx: Context, lines: seq<Line>): (k: nat)
    ensures k == 0 || before < k <= before + |lines|
    decreases |lines|
  {
    if lines == [] then 0
    else if Fails(flags, h, ctx, lines[0]) then before + 1
    else FirstFailure(flags, h, before + 1, Advance(flags, ctx, lines[0]), lines[1..])
  }

  /** Every handler call the lines make, in order. */
  function AllCalls(flags: Flags, ctx: Context, lines: seq<Line>): seq<Event>
    decreases |lines|
  {
    if lines == [] then []
    else CallOf(flags, ctx, lines[0]) + AllCalls(flags, Advance(flags, ctx, lines[0]), lines[1..])
  }

  /** The reports of the malformed lines that come after a failing line (or
      after the start, when `erred` already holds), in order: each is an
      `EILSEQ` report from line 118, 135 or 165 of `ini_parse_file_core`. */
  function LateReports(flags: Flags, h: Handler, ctx: Context, erred: bool, lines: seq<Line>): (r: seq<Event>)
    ensures forall i | 0 <= i < |r| ::
      r[i].Notify? && r[i].code == EILSEQ && r[i].op == CoreOp && r[i].line in {118, 135, 165}
    ensures !erred && lines != [] && !Fails(flags, h, ctx, lines[0]) ==>
      r == LateReports(flags, h, Advance(flags, ctx, lines[0]), false, lines[1..])
    decreases |lines|
  {
    if lines == [] then []
    else
      NoteOf(flags, h, ctx, erred, lines[0])
      + LateReports(flags, h, Advance(flags, ctx, lines[0]), erred || Fails(flags, h, ctx, lines[0]), lines[1..])
  }

  lemma CallsAppend(t: seq<Event>, e: Event)
    ensures Calls(t + [e]) == Calls(t) + (if e.Call? then [e] else [])
    ensures Notes(t + [e]) == Notes(t) + (if e.Notify? then [e] else [])
  {
    assert (t + [e])[..|t|] == t;
  }

  // ------------------------------------------------------------- one line

  /** One step agrees with the per-line view: the context advances
      independently of errors, the error becomes the line number exactly when
      no error was recorded and the line fails, the line's handler call is
      appended, and one notification is added exactly for a malformed line
      after an error. */
  lemma StepAgrees(flags: Flags, h: Handler, st: State, l: Line)
    ensures var r := Step(flags, h, st, l); var n := st.lineno + 1;
      && r.lineno == n
      && ContextOf(r) == Advance(flags, ContextOf(st), l)
      && r.error == (if st.error != 0 then st.error else if Fails(flags, h, ContextOf(st), l) then n else 0)
      && Calls(r.trace) == Calls(st.trace) + CallOf(flags, ContextOf(st), l)
      && Notes(r.trace) == Notes(st.trace) + NoteOf(flags, h, ContextOf(st), st.error != 0, l)
  {
    ApplyAgrees(h, st.(lineno := st.lineno + 1), KindOf(flags, ContextOf(st), l));
  }

  lemma ApplyAgrees(h: Handler, st: State, kind: LineKind)
    requires st.lineno > 0
    ensures Agrees(h, st, kind, Apply(h, st, kind))
  {
    match kind
    case Continuation(v) => ContinuationAgrees(h, st, v);
    case UnclosedSection => FaultAgrees(h, st, kind, 135);
    case NoDelimiter => FaultAgrees(h, st, kind, 165);
    case Pair(name, value) => PairAgrees(h, st, name, value);
    case _ =>
  }

  /** `r`, the state after a line of kind `kind`, is what the per-line
      summary predicts from `st`. */
  predicate Agrees(h: Handler, st: State, kind: LineKind, r: State) {
    && r.lineno == st.lineno
    && ContextOf(r) == NextContext(ContextOf(st), kind)
    && r.error == (if st.error != 0 then st.error else if KindFails(h, ContextOf(st), kind) then st.lineno else 0)
    && Calls(r.trace) == Calls(st.trace) + KindCall(ContextOf(st), kind)
    && Notes(r.trace) == Notes(st.trace) + KindNote(h, ContextOf(st), st.error != 0, kind)
  }

  lemma ContinuationAgrees(h: Handler, st: State, v: string)
    requires st.lineno > 0
    ensures Agrees(h, st, Continuation(v), Apply(h, st, Continuation(v)))
  {
    var c := Call(st.section, st.prevName, v);
    var called := st.(trace := st.trace + [c]);
    var r := Apply(h, st, Continuation(v));
    assert r == Continue(called, h(st.section, st.prevName, v));
    CallsAppend(st.trace, c);
    if h(st.section, st.prevName, v) != 0 {
      assert r == called;
    } else if st.error == 0 {
      assert r == called.(error := st.lineno);
    } else {
      assert r == called.(trace := called.trace + [Notify(EILSEQ, CoreOp, 118)]);
      CallsAppend(called.trace, Notify(EILSEQ, CoreOp, 118));
    }
  }

  lemma FaultAgrees(h: Handler, st: State, kind: LineKind, at: int)
    requires st.lineno > 0
    requires (kind == UnclosedSection && at == 135) || (kind == NoDelimiter && at == 165)
    ensures Agrees(h, st, kind, Apply(h, st, kind))
  {
    CallsAppend(st.trace, Notify(EILSEQ, CoreOp, at));
  }

  lemma PairAgrees(h: Handler, st: State, name: string, value: string)
    requires st.lineno > 0
    ensures Agrees(h, st, Pair(name, value), Apply(h, st, Pair(name, value)))
  {
    CallsAppend(st.trace, Call(st.section, name, value));
  }

  /** A blank line, or one whose first non-blank character is `;` or `#`,
      calls no handler, records no error and leaves the section and previous
      name alone. */
  lemma CommentLineIsSilent(flags: Flags, h: Handler, st: State, l: Line)
    requires l.shape == Shape(l.text)
    requires l.text == [] || l.text[0] == ';' || l.text[0] == '#'
    ensures Step(flags, h, st, l) == st.(lineno := st.lineno + 1)
  {
  }

  /** Surrounding whitespace changes a line only in making it indented:
      a line past the first (or without a BOM) is read as its non-blank core
      and is indented exactly when whitespace precedes that core. */
  lemma PaddingOnlyIndents(flags: Flags, lineno: nat, pre: string, s: string, post: string)
    requires forall i | 0 <= i < |pre| :: IsSpace(pre[i])
    requires forall i | 0 <= i < |post| :: IsSpace(post[i])
    requires Stripped(s) && s != []
    requires !SkipsBom(flags, lineno, pre + s + post)
    ensures Prepare(flags, lineno, pre + s + post) == Line(s, pre != [], Shape(s))
  {
    var w := pre + s + post;
    NoNulPadded(pre, s, post);
    NoNulCString(w);
    assert Body(flags, lineno, w) == w;
    Padded(pre, s, post, w);
    TrimOfTrimmed(w, s, |pre|);
    TrimOfStripped(s);
    assert w[0] == if pre != [] then pre[0] else s[0];
  }

  lemma NoNulPadded(pre: string, s: string, post: string)
    requires forall i | 0 <= i < |pre| :: IsSpace(pre[i])
    requires forall i | 0 <= i < |post| :: IsSpace(post[i])
    requires '\0' !in s
    ensures '\0' !in pre + s + post
  {
    var w := pre + s + post;
    forall i | 0 <= i < |w| ensures w[i] != '\0' {
      if i < |pre| {
        assert w[i] == pre[i];
      } else if i < |pre| + |s| {
        assert w[i] == s[i - |pre|];
      } else {
        assert w[i] == post[i - |pre| - |s|];
      }
    }
  }

  /** A buffer without NUL holds its whole text as a C string. */
  lemma NoNulCString(w: string)
    requires '\0' !in w
    ensures CString(w) == w
  {
  }

  /** No `;` that starts an inline comment (one right after whitespace) lies
      strictly between index 0 and `j`. */
  predicate NoCommentBefore(s: string, j: nat)
    requires j <= |s|
  {
    forall k | 0 < k < j :: !CommentAt(s, k)
  }

  /** A `;` right after whitespace starts an inline comment. */
  predicate CommentAt(s: string, k: nat)
    requires 0 < k < |s|
  {
    s[k] == ';' && IsSpace(s[k - 1])
  }

  /** The scan stops at `j` when `j` is the first place it may stop. */
  lemma FindAt(s: string, c: char, j: nat)
    requires j < |s| && HaltsAt(s, c, j)
    requires forall k | 0 <= k < j :: !HaltsAt(s, c, k)
    ensures FindCharOrComment(s, c) == j
  {
  }

  /** A `[..]` line whose first `]` comes before any inline comment sets the
      section to the text between the brackets, cut to 49 characters, and
      clears the previous name; nothing else changes. */
  lemma SectionLine(flags: Flags, h: Handler, st: State, l: Line, j: nat)
    requires l.shape == Shape(l.text)
    requires st.lineno > 0 && '\0' !in l.text
    requires !(flags.allowMultiline && st.prevName != [] && l.indented)
    requires 1 <= j < |l.text| && l.text[0] == '[' && l.text[j] == ']'
    requires forall k | 1 <= k < j :: l.text[k] != ']'
    requires forall k | 2 <= k < j :: !CommentAt(l.text, k)
    ensures Classify(flags, st.prevName, l) == Section(l.text[1..j])
    ensures var r := Apply(h, st, Section(l.text[1..j]));
      && r.section <= l.text[1..j]
      && |r.section| == (if j - 1 < MaxSection then j - 1 else MaxSection - 1)
      && r.prevName == []
      && r.error == st.error && r.trace == st.trace
  {
    var s := l.text;
    var t := s[1..];
    forall k | 0 <= k < j - 1
      ensures !HaltsAt(t, ']', k)
    {
      assert t[k] == s[k + 1];
      assert s[k + 1] in s;
      if k > 0 {
        assert !CommentAt(s, k + 1);
      }
    }
    FindAt(t, ']', j - 1);
  }

  /** A line not read as a continuation takes the branch of its own shape. */
  lemma NotContinued(flags: Flags, prevName: string, l: Line)
    requires !(flags.allowMultiline && prevName != [] && l.indented)
    ensures Classify(flags, prevName, l) == l.shape
  {
  }

  /** A pair line calls the handler with its name and value under the
      current section, remembers the name (cut to 49 characters), and becomes
      the first error when the handler returns 0 and none is recorded. */
  lemma PairLine(flags: Flags, h: Handler, st: State, l: Line)
    requires l.shape.Pair? && !(flags.allowMultiline && st.prevName != [] && l.indented)
    ensures var r := Step(flags, h, st, l); var name := l.shape.name; var value := l.shape.value;
      && r.trace == st.trace + [Call(st.section, name, value)]
      && r.section == st.section
      && r.prevName == CopyTruncated(name, MaxName)
      && r.lineno == st.lineno + 1
      && r.error == (if st.error == 0 && h(st.section, name, value) == 0 then st.lineno + 1 else st.error)
  {
    NotContinued(flags, st.prevName, l);
  }

  /** The delimiter is the first `=` when no inline comment precedes it. */
  lemma DelimiterAtEquals(s: string, j: nat)
    requires '\0' !in s
    requires j < |s| && s[j] == '=' && (forall k | 0 <= k < j :: s[k] != '=')
    requires NoCommentBefore(s, j)
    ensures Delimiter(s) == j
  {
    forall k | 0 <= k < j
      ensures !HaltsAt(s, '=', k)
    {
      assert s[k] in s;
      if k > 0 {
        assert !CommentAt(s, k);
      }
    }
    FindAt(s, '=', j);
  }

  /** Without an `=` ahead of every inline comment, the delimiter is the
      first `:` when no inline comment precedes it. */
  lemma DelimiterAtColon(s: string, j: nat)
    requires '\0' !in s
    requires forall k | 0 <= k < |s| && s[k] == '=' :: !NoCommentBefore(s, k)
    requires j < |s| && s[j] == ':' && (forall k | 0 <= k < j :: s[k] != ':')
    requires NoCommentBefore(s, j)
    ensures Delimiter(s) == j
  {
    var eq := FindCharOrComment(s, '=');
    if eq < |s| && s[eq] == '=' {
      assert !NoCommentBefore(s, eq);
      var k :| 0 < k < eq && CommentAt(s, k);
      assert HaltsAt(s, '=', k);
      assert false;
    }
    forall k | 0 <= k < j
      ensures !HaltsAt(s, ':', k)
    {
      assert s[k] in s;
      if k > 0 {
        assert !CommentAt(s, k);
      }
    }
    FindAt(s, ':', j);
  }

  /** A line whose first `=` comes before any inline comment is a pair
      line split there: the right-stripped text before it is the name and the
      cleaned text after it is the value. */
  lemma EqualsPair(s: string, j: nat)
    requires '\0' !in s
    requires j < |s| && s[0] != ';' && s[0] != '#' && s[0] != '['
    requires s[j] == '=' && (forall k | 0 <= k < j :: s[k] != '=')
    requires NoCommentBefore(s, j)
    ensures Shape(s) == Pair(StripRight(s[..j]), ValueOf(s[j + 1..]))
  {
    DelimiterAtEquals(s, j);
  }

  /** A line with no `=` ahead of an inline comment falls back to its first
      `:`, provided that comes before any inline comment. */
  lemma ColonPair(s: string, j: nat)
    requires '\0' !in s
    requires j < |s| && s[0] != ';' && s[0] != '#' && s[0] != '['
    requires forall k | 0 <= k < |s| && s[k] == '=' :: !NoCommentBefore(s, k)
    requires s[j] == ':' && (forall k | 0 <= k < j :: s[k] != ':')
    requires NoCommentBefore(s, j)
    ensures Shape(s) == Pair(StripRight(s[..j]), ValueOf(s[j + 1..]))
  {
    DelimiterAtColon(s, j);
  }

  /** A `[` line is closed at `j` when `j` holds its first `]` and no inline
      comment starts between the bracket and `j`. */
  predicate ClosesAt(s: string, j: nat)
    requires 1 <= j < |s|
  {
    && s[j] == ']'
    && (forall k | 1 <= k < j :: s[k] != ']')
    && (forall k | 2 <= k < j :: !CommentAt(s, k))
  }

  /** A line starting with `[` is an unclosed section exactly when no `]`
      closes it ahead of an inline comment. */
  lemma UnclosedSectionShape(s: string)
    requires '\0' !in s
    ensures Shape(s) == UnclosedSection <==>
      (s != [] && s[0] == '[' && forall j | 1 <= j < |s| :: !ClosesAt(s, j))
  {
    if s != [] && s[0] == '[' {
      var t := s[1..];
      var e := FindCharOrComment(t, ']');
      assert Shape(s) == (if e < |s| - 1 && s[1 + e] == ']' then Section(s[1..1 + e]) else UnclosedSection);
      forall j | 1 <= j < |s| && ClosesAt(s, j) ensures e == j - 1 {
        ClosedAtScan(s, j);
      }
      if e < |s| - 1 && s[1 + e] == ']' {
        forall k | 1 <= k < e + 1 ensures s[k] != ']' && (k >= 2 ==> !CommentAt(s, k)) {
          assert !HaltsAt(t, ']', k - 1);
          assert t[k - 1] == s[k];
        }
        assert ClosesAt(s, e + 1);
      }
    }
  }

  /** The bracket scan of a line closed at `j` stops at `j`. */
  lemma ClosedAtScan(s: string, j: nat)
    requires '\0' !in s && 1 <= j < |s| && ClosesAt(s, j)
    ensures FindCharOrComment(s[1..], ']') == j - 1
  {
    var t := s[1..];
    forall k | 0 <= k < j - 1 ensures !HaltsAt(t, ']', k) {
      assert t[k] == s[k + 1];
      assert s[k + 1] in s;
      if k > 0 {
        assert !CommentAt(s, k + 1);
        assert t[k - 1] == s[k];
      }
    }
    assert t[j - 1] == s[j];
    FindAt(t, ']', j - 1);
  }

  /** A line that is not blank, a comment or a section has no delimiter
      exactly when every `=` and every `:` in it follows an inline comment. */
  lemma NoDelimiterShape(s: string)
    requires '\0' !in s
    ensures Shape(s) == NoDelimiter <==>
      (&& s != [] && s[0] != ';' && s[0] != '#' && s[0] != '['
       && (forall j | 0 <= j < |s| && s[j] == '=' :: !NoCommentBefore(s, j))
       && (forall j | 0 <= j < |s| && s[j] == ':' :: !NoCommentBefore(s, j)))
  {
    if s != [] && s[0] != ';' && s[0] != '#' && s[0] != '[' {
      assert Shape(s) == (if Delimiter(s) < |s| && (s[Delimiter(s)] == '=' || s[Delimiter(s)] == ':') then Pair(StripRight(s[..Delimiter(s)]), ValueOf(s[Delimiter(s) + 1..])) else NoDelimiter);
      FoundIffUsable(s, '=');
      FoundIffUsable(s, ':');
    }
  }

  /** The scan for `c` stops on a `c` exactly when some `c` comes before
      every inline comment. */
  lemma FoundIffUsable(s: string, c: char)
    requires '\0' !in s && c != ';'
    ensures var i := FindCharOrComment(s, c);
      (i < |s| && s[i] == c) <==> !(forall j | 0 <= j < |s| && s[j] == c :: !NoCommentBefore(s, j))
  {
    var i := FindCharOrComment(s, c);
    if i < |s| && s[i] == c {
      ScanStopUsable(s, c);
      assert s[i] == c && NoCommentBefore(s, i);
    }
    forall j | 0 <= j < |s| && s[j] == c && NoCommentBefore(s, j) ensures i < |s| && s[i] == c {
      ScanFindsUsable(s, c, j);
    }
  }

  /** A usable delimiter stops the scan for it, at that place or earlier. */
  lemma ScanFindsUsable(s: string, c: char, j: nat)
    requires '\0' !in s && c != ';' && j < |s| && s[j] == c && NoCommentBefore(s, j)
    ensures FindCharOrComment(s, c) <= j && s[FindCharOrComment(s, c)] == c
  {
    var i := FindCharOrComment(s, c);
    assert HaltsAt(s, c, j);
    assert s[i] in s;
    assert 0 < i < j ==> !CommentAt(s, i);
  }

  /** A scan that stops on its character passed no inline comment. */
  lemma ScanStopUsable(s: string, c: char)
    requires FindCharOrComment(s, c) < |s| && s[FindCharOrComment(s, c)] == c
    ensures NoCommentBefore(s, FindCharOrComment(s, c))
  {
    forall k | 0 < k < FindCharOrComment(s, c) ensures !CommentAt(s, k) {
      assert !HaltsAt(s, c, k);
    }
  }

  /** What a pair line hands to the handler: a name with no surrounding
      whitespace and no `=`, and a value with no surrounding whitespace and
      no inline comment left in it. */
  lemma PairShape(s: string)
    requires Stripped(s)
    requires Shape(s).Pair?
    ensures Stripped(Shape(s).name) && '=' !in Shape(s).name
    ensures Stripped(Shape(s).value) && NoCommentBefore(Shape(s).value, |Shape(s).value|)
  {
    var e := Delimiter(s);
    PairKind(s);
    PairFields(s, e);
    assert Shape(s) == Pair(StripRight(s[..e]), ValueOf(s[e + 1..]));
  }

  lemma PairFields(s: string, e: nat)
    requires Stripped(s) && s != [] && e == Delimiter(s) && e < |s|
    ensures Stripped(StripRight(s[..e])) && '=' !in StripRight(s[..e])
    ensures Stripped(ValueOf(s[e + 1..])) && NoCommentBefore(ValueOf(s[e + 1..]), |ValueOf(s[e + 1..])|)
  {
    NameShape(s);
    PrefixKeepsNoNul(s, s[..e]);
    PrefixKeepsNoNul(s[..e], StripRight(s[..e]));
    SuffixKeepsNoNul(s, s[e + 1..]);
    ValueShape(s[e + 1..]);
  }

  /** Only a non-empty, non-section line whose delimiter scan ends on `=` or
      `:` is a pair line. */
  lemma PairKind(s: string)
    requires Shape(s).Pair?
    ensures var e := Delimiter(s);
      s != [] && s[0] != '[' && s[0] != ';' && s[0] != '#' && e < |s| && (s[e] == '=' || s[e] == ':')
  {
  }

  /** The name of a pair line: the text before the delimiter holds no `=`,
      so neither does its right-stripped form, which starts where the line
      does. */
  lemma NameShape(s: string)
    requires s != [] && !IsSpace(s[0])
    ensures var name := StripRight(s[..Delimiter(s)]);
      && (name == [] || (!IsSpace(name[0]) && !IsSpace(name[|name| - 1])))
      && '=' !in name
  {
    var e := Delimiter(s);
    var name := StripRight(s[..e]);
    var eq := FindCharOrComment(s, '=');
    if !(eq < |s| && s[eq] == '=') && eq < |s| {
      assert HaltsAt(s, ':', eq);
    }
    assert e <= eq;
    forall k | 0 <= k < |name|
      ensures name[k] != '='
    {
      assert name[k] == s[k];
      assert !HaltsAt(s, '=', k);
    }
    assert name == [] || name[0] == s[0];
  }

  /** The value of a pair line has no surrounding whitespace and no inline
      comment: it is a prefix of the text before the first comment. */
  lemma ValueShape(rest: string)
    requires '\0' !in rest
    ensures Stripped(ValueOf(rest)) && NoCommentBefore(ValueOf(rest), |ValueOf(rest)|)
  {
    var v0 := SkipLeft(rest);
    SuffixKeepsNoNul(rest, v0);
    var v1 := CutComment(v0);
    var value := StripRight(v1);
    assert value == ValueOf(rest);
    PrefixKeepsNoComment(v1, value);
    PrefixKeepsNoNul(v0, v1);
    PrefixKeepsNoNul(v1, value);
  }

  lemma PrefixKeepsNoNul(s: string, t: string)
    requires '\0' !in s && t <= s
    ensures '\0' !in t
  {
    forall k | 0 <= k < |t| ensures t[k] != '\0' {
      assert s[k] in s;
    }
  }

  lemma SuffixKeepsNoNul(s: string, t: string)
    requires '\0' !in s && |t| <= |s| && t == s[|s| - |t|..]
    ensures '\0' !in t
  {
    forall k | 0 <= k < |t| ensures t[k] != '\0' {
      assert t[k] == s[|s| - |t| + k];
      assert s[|s| - |t| + k] in s;
    }
  }

  /** Cutting a value at its first inline comment leaves a prefix that holds
      none and still starts with the same character. */
  lemma CutComment(v0: string) returns (v1: string)
    requires '\0' !in v0
    ensures var c := FindCharOrComment(v0, '\0');
      v1 == (if c < |v0| && v0[c] == ';' then v0[..c] else v0)
    ensures v1 <= v0 && NoCommentBefore(v1, |v1|)
  {
    var c := FindCharOrComment(v0, '\0');
    if c < |v0| {
      assert v0[c] in v0;
    }
    v1 := if c < |v0| && v0[c] == ';' then v0[..c] else v0;
    assert v1 == v0[..c];
    forall k | 0 < k < c ensures !CommentAt(v1, k) {
      assert !HaltsAt(v0, '\0', k);
    }
  }

  lemma PrefixKeepsNoComment(s: string, t: string)
    requires t <= s && NoCommentBefore(s, |s|)
    ensures NoCommentBefore(t, |t|)
  {
    forall k | 0 < k < |t| ensures !CommentAt(t, k) {
      assert t[k] == s[k] && t[k - 1] == s[k - 1];
      assert !CommentAt(s, k);
    }
  }

  // ------------------------------------------------------------ whole file

  /** Once recorded, the first error's line number never changes. */
  lemma {:induction false} RunKeepsError(flags: Flags, h: Handler, st: State, lines: seq<Line>)
    requires st.error != 0
    ensures Run(flags, h, st, lines).error == st.error
    decreases |lines|
  {
    if lines != [] {
      StepAgrees(flags, h, st, lines[0]);
      var next := Step(flags, h, st, lines[0]);
      if !(flags.stopOnFirstError && next.error != 0) {
        RunKeepsError(flags, h, next, lines[1..]);
      }
    }
  }

  lemma {:induction false} RunFindsFirstFailure(flags: Flags, h: Handler, st: State, lines: seq<Line>)
    requires st.error == 0
    ensures Run(flags, h, st, lines).error == FirstFailure(flags, h, st.lineno, ContextOf(st), lines)
    decreases |lines|
  {
    if lines != [] {
      StepAgrees(flags, h, st, lines[0]);
      var next := Step(flags, h, st, lines[0]);
      if next.error != 0 {
        if !flags.stopOnFirstError {
          RunKeepsError(flags, h, next, lines[1..]);
        }
      } else {
        RunFindsFirstFailure(flags, h, next, lines[1..]);
      }
    }
  }

  /** `ini_parse_file_core` returns the number of the first line in error:
      a `[` without `]`, a line without delimiter, or a handler returning 0;
      and 0 when there is none. This holds with and without
      stop-on-first-error. */
  lemma ReturnsFirstErrorLine(flags: Flags, h: Handler, lines: seq<string>)
    ensures ParseLines(flags, h, lines).error == FirstFailure(flags, h, 0, Context("", ""), PrepareAll(flags, lines))
  {
    RunFindsFirstFailure(flags, h, Initial, PrepareAll(flags, lines));
  }

  lemma {:induction false} RunCalls(flags: Flags, h: Handler, st: State, lines: seq<Line>)
    requires !flags.stopOnFirstError
    ensures Calls(Run(flags, h, st, lines).trace) == Calls(st.trace) + AllCalls(flags, ContextOf(st), lines)
    decreases |lines|
  {
    if lines != [] {
      StepAgrees(flags, h, st, lines[0]);
      RunCalls(flags, h, Step(flags, h, st, lines[0]), lines[1..]);
    }
  }

  /** Without stop-on-first-error every pair and continuation line reaches
      the handler, in file order, whatever the handler returned before:
      `AllCalls` does not depend on the handler. */
  lemma HandlerCallsIgnoreErrors(flags: Flags, h: Handler, lines: seq<string>)
    requires !flags.stopOnFirstError
    ensures Calls(ParseLines(flags, h, lines).trace) == AllCalls(flags, Context("", ""), PrepareAll(flags, lines))
  {
    RunCalls(flags, h, Initial, PrepareAll(flags, lines));
  }

  lemma {:induction false} RunReportsLateFaults(flags: Flags, h: Handler, st: State, lines: seq<Line>)
    requires !flags.stopOnFirstError
    ensures Notes(Run(flags, h, st, lines).trace)
         == Notes(st.trace) + LateReports(flags, h, ContextOf(st), st.error != 0, lines)
    decreases |lines|
  {
    if lines != [] {
      StepAgrees(flags, h, st, lines[0]);
      RunReportsLateFaults(flags, h, Step(flags, h, st, lines[0]), lines[1..]);
    }
  }

  /** Without stop-on-first-error each malformed line after the first error
      is reported once, in file order, as an `EILSEQ` from the branch that
      rejected it, and nothing else is reported. */
  lemma LaterErrorsAreNotified(flags: Flags, h: Handler, lines: seq<string>)
    requires !flags.stopOnFirstError
    ensures Notes(ParseLines(flags, h, lines).trace) == LateReports(flags, h, Context("", ""), false, PrepareAll(flags, lines))
  {
    RunReportsLateFaults(flags, h, Initial, PrepareAll(flags, lines));
  }

  /** Before the first failing line nothing is late, so a file without
      errors is reported through `error_code` not at all. */
  lemma {:induction false} NoFailureNoLateFaults(flags: Flags, h: Handler, before: nat, ctx: Context, lines: seq<Line>)
    requires FirstFailure(flags, h, before, ctx, lines) == 0
    ensures LateReports(flags, h, ctx, false, lines) == []
    decreases |lines|
  {
    if lines != [] {
      NoFailureNoLateFaults(flags, h, before + 1, Advance(flags, ctx, lines[0]), lines[1..]);
    }
  }

  /** A parse in which no line fails reports nothing, with or without
      stop-on-first-error. */
  lemma CleanParseNotifiesNothing(flags: Flags, h: Handler, lines: seq<string>)
    requires FirstFailure(flags, h, 0, Context("", ""), PrepareAll(flags, lines)) == 0
    ensures Notes(ParseLines(flags, h, lines).trace) == []
  {
    if flags.stopOnFirstError {
      StopOnFirstErrorNeverNotifies(flags, h, lines);
    } else {
      LaterErrorsAreNotified(flags, h, lines);
      NoFailureNoLateFaults(flags, h, 0, Context("", ""), PrepareAll(flags, lines));
    }
  }

  /** The handler calls of the lines up to and including the first failing
      one. */
  function CallsUntil(flags: Flags, h: Handler, ctx: Context, lines: seq<Line>): seq<Event>
    decreases |lines|
  {
    if lines == [] then []
    else
      CallOf(flags, ctx, lines[0])
      + (if Fails(flags, h, ctx, lines[0]) then [] else CallsUntil(flags, h, Advance(flags, ctx, lines[0]), lines[1..]))
  }

  lemma {:induction false} RunCallsUntil(flags: Flags, h: Handler, st: State, lines: seq<Line>)
    requires flags.stopOnFirstError && st.error == 0
    ensures Calls(Run(flags, h, st, lines).trace) == Calls(st.trace) + CallsUntil(flags, h, ContextOf(st), lines)
    decreases |lines|
  {
    if lines != [] {
      StepAgrees(flags, h, st, lines[0]);
      var next := Step(flags, h, st, lines[0]);
      if next.error == 0 {
        RunCallsUntil(flags, h, next, lines[1..]);
      }
    }
  }

  /** `CallsUntil` is `AllCalls` over the lines up to the first failure. */
  lemma {:induction false} CallsUntilFirstFailure(flags: Flags, h: Handler, before: nat, ctx: Context, lines: seq<Line>)
    ensures var k := FirstFailure(flags, h, before, ctx, lines);
      var read := if k == 0 then |lines| else k - before;
      read <= |lines| && CallsUntil(flags, h, ctx, lines) == AllCalls(flags, ctx, lines[..read])
    decreases |lines|
  {
    if lines == [] {
      assert lines[..0] == [];
    } else {
      var l := lines[0];
      var next := Advance(flags, ctx, l);
      if Fails(flags, h, ctx, l) {
        assert lines[..1][1..] == [];
        assert AllCalls(flags, ctx, lines[..1]) == CallOf(flags, ctx, l) + AllCalls(flags, next, []);
      } else {
        CallsUntilFirstFailure(flags, h, before + 1, next, lines[1..]);
        var k := FirstFailure(flags, h, before + 1, next, lines[1..]);
        var read := if k == 0 then |lines| - 1 else k - before - 1;
        assert lines[..read + 1][1..] == lines[1..][..read];
        assert lines[..read + 1][0] == l;
      }
    }
  }

  lemma {:induction false} RunStopsBeforeNotifying(flags: Flags, h: Handler, st: State, lines: seq<Line>)
    requires flags.stopOnFirstError && st.error == 0
    ensures Notes(Run(flags, h, st, lines).trace) == Notes(st.trace)
    decreases |lines|
  {
    if lines != [] {
      StepAgrees(flags, h, st, lines[0]);
      var next := Step(flags, h, st, lines[0]);
      if next.error == 0 {
        RunStopsBeforeNotifying(flags, h, next, lines[1..]);
      }
    }
  }

  /** With stop-on-first-error the scan ends on the first failing line: the
      handler sees only the lines up to it (all lines when none fails), and
      `error_code` is never called by `ini_parse_file_core`. */
  lemma StopOnFirstErrorNeverNotifies(flags: Flags, h: Handler, lines: seq<string>)
    requires flags.stopOnFirstError
    ensures var k := FirstFailure(flags, h, 0, Context("", ""), PrepareAll(flags, lines));
      var read := if k == 0 then |lines| else k;
      && ParseLines(flags, h, lines).lineno == read
      && Calls(ParseLines(flags, h, lines).trace) == AllCalls(flags, Context("", ""), PrepareAll(flags, lines)[..read])
      && Notes(ParseLines(flags, h, lines).trace) == []
  {
    StopReadsToFirstFailure(flags, h, lines);
    StopCallsToFirstFailure(flags, h, lines);
    RunStopsBeforeNotifying(flags, h, Initial, PrepareAll(flags, lines));
  }

  lemma StopReadsToFirstFailure(flags: Flags, h: Handler, lines: seq<string>)
    requires flags.stopOnFirstError
    ensures var k := FirstFailure(flags, h, 0, Context("", ""), PrepareAll(flags, lines));
      ParseLines(flags, h, lines).lineno == if k == 0 then |lines| else k
  {
    ReturnsFirstErrorLine(flags, h, lines);
  }

  lemma StopCallsToFirstFailure(flags: Flags, h: Handler, lines: seq<string>)
    requires flags.stopOnFirstError
    ensures var k := FirstFailure(flags, h, 0, Context("", ""), PrepareAll(flags, lines));
      var read := if k == 0 then |lines| else k;
      Calls(ParseLines(flags, h, lines).trace) == AllCalls(flags, Context("", ""), PrepareAll(flags, lines)[..read])
  {
    StopCallsOver(flags, h, PrepareAll(flags, lines));
  }

  lemma StopCallsOver(flags: Flags, h: Handler, ls: seq<Line>)
    requires flags.stopOnFirstError
    ensures var k := FirstFailure(flags, h, 0, Context("", ""), ls);
      var read := if k == 0 then |ls| else k;
      Calls(Run(flags, h, Initial, ls).trace) == AllCalls(flags, Context("", ""), ls[..read])
  {
    RunCallsUntil(flags, h, Initial, ls);
    assert Calls(Initial.trace) == [];
    CallsUntilFirstFailure(flags, h, 0, Context("", ""), ls);
  }

  lemma {:induction false} RunKeepsBuffersShort(flags: Flags, h: Handler, st: State, lines: seq<Line>)
    requires |st.section| < MaxSection && |st.prevName| < MaxName
    ensures var r := Run(flags, h, st, lines); |r.section| < MaxSection && |r.prevName| < MaxName
    decreases |lines|
  {
    if lines != [] {
      StepAgrees(flags, h, st, lines[0]);
      var next := Step(flags, h, st, lines[0]);
      if !(flags.stopOnFirstError && next.error != 0) {
        RunKeepsBuffersShort(flags, h, next, lines[1..]);
      }
    }
  }

  /** The section handed to the handler and the stored previous name never
      exceed 49 characters: both are cut to fit their 50-byte buffers. */
  lemma BuffersStayShort(flags: Flags, h: Handler, lines: seq<string>)
    ensures |ParseLines(flags, h, lines).section| <= MaxSection - 1
    ensures |ParseLines(flags, h, lines).prevName| <= MaxName - 1
  {
    RunKeepsBuffersShort(flags, h, Initial, PrepareAll(flags, lines));
  }

  /** Every notification in a trace names the given function. */
  predicate ReportsAs(t: seq<Event>, op: string) {
    forall i | 0 <= i < |t| && t[i].Notify? :: t[i].op == op
  }

  lemma ApplyReportsAsCore(h: Handler, st: State, kind: LineKind)
    requires st.lineno > 0 && ReportsAs(st.trace, CoreOp)
    ensures ReportsAs(Apply(h, st, kind).trace, CoreOp)
  {
  }

  lemma {:induction false} RunReportsAsCore(flags: Flags, h: Handler, st: State, lines: seq<Line>)
    requires ReportsAs(st.trace, CoreOp)
    ensures ReportsAs(Run(flags, h, st, lines).trace, CoreOp)
    decreases |lines|
  {
    if lines != [] {
      ApplyReportsAsCore(h, st.(lineno := st.lineno + 1), KindOf(flags, ContextOf(st), lines[0]));
      var next := Step(flags, h, st, lines[0]);
      if !(flags.stopOnFirstError && next.error != 0) {
        RunReportsAsCore(flags, h, next, lines[1..]);
      }
    }
  }

  /** Every `error_code` call `ini_parse(filename)` makes names either the
      core loop or `ini_parse` itself. */
  lemma ReportsOnlyParserNames(flags: Flags, h: Handler, f: FileAccess)
    ensures ReportsAmong(ParseFile(flags, h, f).trace, CoreOp, ParseOp)
  {
    match f
    case OpenFailed(errno) =>
    case Opened(lines, closeErrno) =>
      var core := ParseLines(flags, h, lines);
      RunReportsAsCore(flags, h, Initial, PrepareAll(flags, lines));
      AppendReport(core.trace, Notify(core.error, ParseOp, 203), CoreOp, ParseOp);
      AppendReport(core.trace, Notify(closeErrno, ParseOp, 207), CoreOp, ParseOp);
      assert ReportsAmong(core.trace, CoreOp, ParseOp);
  }

  /** Every notification in a trace names one of two functions. */
  predicate ReportsAmong(t: seq<Event>, a: string, b: string) {
    forall i | 0 <= i < |t| && t[i].Notify? :: t[i].op == a || t[i].op == b
  }

  lemma AppendReport(t: seq<Event>, e: Event, a: string, b: string)
    requires ReportsAs(t, a) && e.Notify? && e.op == b
    ensures ReportsAmong(t + [e], a, b)
  {
  }

  /** `ini_parse(filename)` returns 0 exactly when the file opened, no line
      failed and it closed cleanly; a failing line is reported once more,
      with its number as the code, after everything the core reported. */
  lemma ParseFileOutcome(flags: Flags, h: Handler, f: FileAccess)
    ensures ParseFile(flags, h, f).code == 0
        <==> f.Opened? && FirstFailure(flags, h, 0, Context("", ""), PrepareAll(flags, f.lines)) == 0 && f.closeErrno == 0
    ensures f.Opened? && FirstFailure(flags, h, 0, Context("", ""), PrepareAll(flags, f.lines)) != 0 ==>
      ParseFile(flags, h, f).trace
        == ParseLines(flags, h, f.lines).trace + [Notify(FirstFailure(flags, h, 0, Context("", ""), PrepareAll(flags, f.lines)), ParseOp, 203)]
    ensures f.Opened? && FirstFailure(flags, h, 0, Context("", ""), PrepareAll(flags, f.lines)) == 0 && f.closeErrno != 0 ==>
      ParseFile(flags, h, f).trace == ParseLines(flags, h, f.lines).trace + [Notify(f.closeErrno, ParseOp, 207)]
  {
    if f.Opened? {
      ReturnsFirstErrorLine(flags, h, f.lines);
    }
  }

  /** The continuation branch as written reports a successful handler call
      through `error_code`; the corrected branch leaves the state alone. */
  lemma ContinuationFinding(st: State, rc: int)
    requires st.lineno > 0 && rc != 0
    ensures ContinueAsWritten(st, rc).trace == st.trace + [Notify(EILSEQ, CoreOp, 118)]
    ensures |Notes(ContinueAsWritten(st, rc).trace)| == |Notes(st.trace)| + 1
    ensures Continue(st, rc) == st
  {
    CallsAppend(st.trace, Notify(EILSEQ, CoreOp, 118));
  }
}
