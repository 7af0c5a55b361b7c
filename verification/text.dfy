/** Character and string helpers shared by the INI scanner, the logger and the
    configuration callback. Characters stand for C `char` bytes; classification
    and case mapping follow the "C" locale. */
module Text {

  /** `isspace` in the "C" locale: space, and \t, \n, \v, \f and \r,
      which are the codes 9 to 13. */
  predicate IsSpace(c: char) {
    c == ' ' || '\t' <= c <= '\r'
  }

  /** The C string held by a buffer: its characters before the first NUL. */
  function CString(buf: string): (s: string)
    ensures s <= buf
    ensures '\0' !in s
    ensures |s| < |buf| ==> buf[|s|] == '\0'
  {
    if buf == [] || buf[0] == '\0' then [] else [buf[0]] + CString(buf[1..])
  }

  /** `rstrip`: drop the trailing whitespace and nothing else. */
  function StripRight(s: string): (r: string)
    ensures r <= s
    ensures r == [] || !IsSpace(r[|r| - 1])
    ensures forall i | |r| <= i < |s| :: IsSpace(s[i])
  {
    if s != [] && IsSpace(s[|s| - 1]) then StripRight(s[..|s| - 1]) else s
  }

  /** `lskip`: the suffix that starts at the first non-whitespace character. */
  function SkipLeft(s: string): (r: string)
    ensures |r| <= |s| && r == s[|s| - |r|..]
    ensures r == [] || !IsSpace(r[0])
    ensures forall i | 0 <= i < |s| - |r| :: IsSpace(s[i])
  {
    if s != [] && IsSpace(s[0]) then SkipLeft(s[1..]) else s
  }

  /** Both ends stripped, the right one first: trailing whitespace is
      removed one character at a time, then `SkipLeft` drops the leading
      run. This is `lskip(rstrip(s))` and the logger's `ltrim(rtrim(s))`
      (`TrimIsSkipStrip`). The result is the slice of `s` that starts and
      ends at its outermost non-whitespace characters. */
  function Trim(s: string): (r: string)
    ensures IsTrimOf(s, r)
  {
    if s != [] && IsSpace(s[|s| - 1]) then
      var r := Trim(s[..|s| - 1]);
      TrailingSpace(s, s[..|s| - 1], r);
      r
    else
      var r := SkipLeft(s);
      LeadingOnly(s, r);
      r
  }

  /** `r` is a slice of `s` cut out by removing whitespace only, with no
      whitespace left at either end. */
  predicate IsTrimOf(s: string, r: string) {
    && (exists a | 0 <= a <= |s| - |r| :: TrimmedAt(s, r, a))
    && (r == [] || (!IsSpace(r[0]) && !IsSpace(r[|r| - 1])))
  }

  /** A trailing whitespace character left behind by trimming the rest. */
  lemma TrailingSpace(s: string, p: string, r: string)
    requires s != [] && IsSpace(s[|s| - 1]) && p == s[..|s| - 1]
    requires IsTrimOf(p, r)
    ensures IsTrimOf(s, r)
  {
    var a :| 0 <= a <= |p| - |r| && TrimmedAt(p, r, a);
    assert r == s[a..a + |r|] by {
      assert p[a..a + |r|] == s[a..a + |r|];
    }
    forall i | 0 <= i < a ensures IsSpace(s[i]) {
      assert s[i] == p[i];
    }
    forall i | a + |r| <= i < |s| ensures IsSpace(s[i]) {
      if i < |s| - 1 { assert s[i] == p[i]; }
    }
    assert TrimmedAt(s, r, a);
  }

  /** `SkipLeft` of a text without trailing whitespace is its trimmed slice. */
  lemma LeadingOnly(s: string, r: string)
    requires s == [] || !IsSpace(s[|s| - 1])
    requires |r| <= |s| && r == s[|s| - |r|..]
    requires forall i | 0 <= i < |s| - |r| :: IsSpace(s[i])
    requires r == [] || !IsSpace(r[0])
    ensures IsTrimOf(s, r)
  {
    var a := |s| - |r|;
    assert s[a..] == s[a..a + |r|];
    assert TrimmedAt(s, r, a);
    if r != [] {
      assert r[|r| - 1] == s[|s| - 1];
    }
  }

  /** `Trim` is `lskip` after `rstrip`. */
  lemma {:induction false} TrimIsSkipStrip(s: string)
    ensures Trim(s) == SkipLeft(StripRight(s))
    decreases |s|
  {
    if s != [] && IsSpace(s[|s| - 1]) {
      TrimIsSkipStrip(s[..|s| - 1]);
    }
  }

  /** `lskip` moves past the start of `rstrip(s)` exactly when something
      is left and `s` begins with whitespace. */
  lemma Indentation(s: string)
    ensures |Trim(s)| < |StripRight(s)| <==> Trim(s) != [] && s != [] && IsSpace(s[0])
  {
    TrimIsSkipStrip(s);
    var p := StripRight(s);
    if p != [] {
      assert p[0] == s[0];
    }
  }

  /** A text without whitespace at either end is its own trim. */
  lemma TrimOfStripped(s: string)
    requires s == [] || (!IsSpace(s[0]) && !IsSpace(s[|s| - 1]))
    ensures Trim(s) == s
  {
    assert s[0..|s|] == s;
    TrimUnique(s, s, 0);
  }

  /** Trimming cuts a slice, so it brings in no NUL. */
  lemma TrimKeepsNoNul(s: string)
    requires '\0' !in s
    ensures '\0' !in Trim(s)
  {
    var r := Trim(s);
    var a := TrimAt(s);
    forall k | 0 <= k < |r| ensures r[k] != '\0' {
      assert r[k] == s[a + k];
    }
  }

  /** Where the trimmed text starts in `s`. */
  lemma TrimAt(s: string) returns (a: nat)
    ensures a + |Trim(s)| <= |s| && TrimmedAt(s, Trim(s), a)
  {
    var r := Trim(s);
    a :| a <= |s| - |r| && TrimmedAt(s, r, a);
  }

  /** `r` is `s` with `a` whitespace characters removed in front and only
      whitespace removed behind. */
  predicate TrimmedAt(s: string, r: string, a: nat)
    requires a + |r| <= |s|
  {
    && r == s[a..a + |r|]
    && (forall i | 0 <= i < a :: IsSpace(s[i]))
    && (forall i | a + |r| <= i < |s| :: IsSpace(s[i]))
  }

  /** `Trim` is the only way to cut whitespace from both ends that leaves
      none at either end: any slice with that property is the trimmed text. */
  lemma TrimUnique(s: string, r: string, a: nat)
    requires a + |r| <= |s| && TrimmedAt(s, r, a)
    requires r == [] || (!IsSpace(r[0]) && !IsSpace(r[|r| - 1]))
    ensures Trim(s) == r
  {
    var t := Trim(s);
    var b :| 0 <= b <= |s| - |t| && TrimmedAt(s, t, b);
    SameTrim(s, r, a, t, b);
  }

  /** Trimming a text that is itself a whitespace-trimmed slice of `w`
      gives what trimming `w` gives. */
  lemma TrimOfTrimmed(w: string, s: string, off: nat)
    requires off + |s| <= |w| && TrimmedAt(w, s, off)
    ensures Trim(w) == Trim(s)
  {
    var r, a := TrimWithin(w, s, off);
    TrimUnique(w, r, off + a);
  }

  /** Where `Trim(s)` sits in `w`, when `s` is a trimmed slice of `w`. */
  lemma TrimWithin(w: string, s: string, off: nat) returns (r: string, a: nat)
    requires off + |s| <= |w| && TrimmedAt(w, s, off)
    ensures r == Trim(s)
    ensures off + a + |r| <= |w| && TrimmedAt(w, r, off + a)
    ensures r == [] || (!IsSpace(r[0]) && !IsSpace(r[|r| - 1]))
  {
    r := Trim(s);
    a := TrimAt(s);
    TrimmedCompose(w, s, off, r, a);
  }

  /** A trimmed slice of a trimmed slice is a trimmed slice. */
  lemma TrimmedCompose(w: string, s: string, off: nat, r: string, a: nat)
    requires off + |s| <= |w| && TrimmedAt(w, s, off)
    requires a + |r| <= |s| && TrimmedAt(s, r, a)
    ensures off + a + |r| <= |w| && TrimmedAt(w, r, off + a)
  {
    forall k | 0 <= k < |r| ensures w[off + a + k] == r[k] {
      assert r[k] == s[a + k] && s[a + k] == w[off + a + k];
    }
    assert w[off + a..off + a + |r|] == r;
    forall i | 0 <= i < off + a ensures IsSpace(w[i]) {
      if i >= off { assert w[i] == s[i - off]; }
    }
    forall i | off + a + |r| <= i < |w| ensures IsSpace(w[i]) {
      if i < off + |s| { assert w[i] == s[i - off]; }
    }
  }

  /** Two whitespace-free-ended slices left by trimming the same string are
      equal. */
  lemma SameTrim(s: string, r: string, a: nat, t: string, b: nat)
    requires a + |r| <= |s| && TrimmedAt(s, r, a)
    requires r == [] || (!IsSpace(r[0]) && !IsSpace(r[|r| - 1]))
    requires b + |t| <= |s| && TrimmedAt(s, t, b)
    requires t == [] || (!IsSpace(t[0]) && !IsSpace(t[|t| - 1]))
    ensures r == t
  {
    EmptyIffAllSpace(s, r, a);
    EmptyIffAllSpace(s, t, b);
    if r != [] {
      assert s[a] == r[0] && s[b] == t[0];
      SameEdge(s, a, b);
      assert s[a + |r| - 1] == r[|r| - 1] && s[b + |t| - 1] == t[|t| - 1];
      SameLastEdge(s, a + |r| - 1, b + |t| - 1);
    }
  }

  lemma EmptyIffAllSpace(s: string, r: string, a: nat)
    requires a + |r| <= |s| && TrimmedAt(s, r, a)
    requires r == [] || (!IsSpace(r[0]) && !IsSpace(r[|r| - 1]))
    ensures r == [] <==> forall i | 0 <= i < |s| :: IsSpace(s[i])
  {
    if r != [] {
      assert s[a] == r[0];
    }
  }

  /** Two positions that are each the first non-space are the same. */
  lemma SameEdge(s: string, a: nat, b: nat)
    requires a < |s| && b < |s| && !IsSpace(s[a]) && !IsSpace(s[b])
    requires forall i | 0 <= i < a :: IsSpace(s[i])
    requires forall i | 0 <= i < b :: IsSpace(s[i])
    ensures a == b
  {
  }

  /** Two positions that are each the last non-space are the same. */
  lemma SameLastEdge(s: string, a: nat, b: nat)
    requires a < |s| && b < |s| && !IsSpace(s[a]) && !IsSpace(s[b])
    requires forall i | a < i < |s| :: IsSpace(s[i])
    requires forall i | b < i < |s| :: IsSpace(s[i])
    ensures a == b
  {
  }

  /** `tolower` on one character. */
  function LowerChar(c: char): char {
    if 'A' <= c <= 'Z' then (c as int + 32) as char else c
  }

  /** `toupper` on one character. */
  function UpperChar(c: char): char {
    if 'a' <= c <= 'z' then (c as int - 32) as char else c
  }

  /** `std::transform(..., ::tolower)` over a whole string. */
  function Lower(s: string): (r: string)
    ensures |r| == |s|
    ensures forall i | 0 <= i < |s| :: r[i] == LowerChar(s[i])
  {
    seq(|s|, i requires 0 <= i < |s| => LowerChar(s[i]))
  }

  /** `std::transform(..., ::toupper)` over a whole string. */
  function Upper(s: string): (r: string)
    ensures |r| == |s|
    ensures forall i | 0 <= i < |s| :: r[i] == UpperChar(s[i])
  {
    seq(|s|, i requires 0 <= i < |s| => UpperChar(s[i]))
  }

  /** Lower-casing twice is lower-casing once. */
  lemma LowerIdempotent(s: string)
    ensures Lower(Lower(s)) == Lower(s)
  {
    assert forall i | 0 <= i < |s| :: LowerChar(LowerChar(s[i])) == LowerChar(s[i]);
  }

  /** `strncpy0(dest, bufSize, src, bufSize)` into a zero-initialised buffer of
      `bufSize` bytes: the longest prefix of `src` that leaves room for the
      terminating NUL. Both call sites pass the buffer's own size as the copy
      length, so the copy length is always clamped to `bufSize - 1`. */
  function CopyTruncated(src: string, bufSize: nat): (r: string)
    requires bufSize > 0
    ensures r <= src
    ensures |r| == if |src| < bufSize then |src| else bufSize - 1
  {
    if |src| >= bufSize then src[..bufSize - 1] else src
  }

  predicate IsDigit(c: char) {
    '0' <= c <= '9'
  }

  function DigitChar(d: nat): (c: char)
    requires d < 10
    ensures IsDigit(c)
  {
    ('0' as int + d) as char
  }

  function DigitValue(c: char): nat
    requires IsDigit(c)
  {
    c as int - '0' as int
  }

  /** The number a string of decimal digits denotes. */
  function DigitsValue(s: string): nat
    requires forall i | 0 <= i < |s| :: IsDigit(s[i])
  {
    if s == [] then 0
    else DigitsValue(s[..|s| - 1]) * 10 + DigitValue(s[|s| - 1])
  }

  /** `%u`: the decimal digits of `n`, without leading zeros. */
  function NatToDecimal(n: nat): (s: string)
    ensures 1 <= |s|
    ensures forall i | 0 <= i < |s| :: IsDigit(s[i])
    ensures |s| > 1 ==> s[0] != '0'
  {
    if n < 10 then [DigitChar(n)] else NatToDecimal(n / 10) + [DigitChar(n % 10)]
  }

  /** The digits of a `%d` text: all of it but a leading minus sign. */
  function DigitPart(s: string): string
    requires s != []
  {
    if s[0] == '-' then s[1..] else s
  }

  /** A `%d` text: an optional minus sign, then at least one digit. */
  predicate IsDecimal(s: string) {
    && s != []
    && DigitPart(s) != []
    && forall i | 0 <= i < |DigitPart(s)| :: IsDigit(DigitPart(s)[i])
  }

  /** The number a `%d` text denotes. */
  function DecimalValue(s: string): int
    requires IsDecimal(s)
  {
    var v: int := DigitsValue(DigitPart(s));
    if s[0] == '-' then -v else v
  }

  /** `%d`: a leading minus sign for negative values, then the digits of the
      magnitude, which read back as the magnitude. */
  function IntToDecimal(n: int): (s: string)
    ensures s != [] && (s[0] == '-' <==> n < 0)
    ensures var d := if n < 0 then s[1..] else s;
      && d != []
      && (forall i | 0 <= i < |d| :: IsDigit(d[i]))
      && DigitsValue(d) == (if n < 0 then -n else n)
    ensures IsDecimal(s) && DecimalValue(s) == n
  {
    var m: nat := if n < 0 then -n else n;
    var d := NatToDecimal(m);
    DecimalRoundTrip(m);
    var s := if n < 0 then "-" + d else d;
    assert n < 0 ==> s[1..] == d;
    assert n >= 0 ==> s[0] == d[0] && IsDigit(d[0]);
    s
  }

  /** Reading the digits `%u` prints gives back the number. */
  lemma {:induction false} DecimalRoundTrip(n: nat)
    ensures DigitsValue(NatToDecimal(n)) == n
  {
    if n >= 10 {
      var s := NatToDecimal(n);
      assert s[..|s| - 1] == NatToDecimal(n / 10);
      DecimalRoundTrip(n / 10);
    }
  }

  /** A text with whitespace added around it is a trimmed slice of the
      result. */
  lemma Padded(pre: string, s: string, post: string, w: string)
    requires forall i | 0 <= i < |pre| :: IsSpace(pre[i])
    requires forall i | 0 <= i < |post| :: IsSpace(post[i])
    requires w == pre + s + post
    ensures |pre| + |s| <= |w| && TrimmedAt(w, s, |pre|)
  {
    assert w[|pre|..|pre| + |s|] == s;
    forall i | 0 <= i < |pre| ensures IsSpace(w[i]) {
      assert w[i] == pre[i];
    }
    forall i | |pre| + |s| <= i < |w| ensures IsSpace(w[i]) {
      assert w[i] == post[i - |pre| - |s|];
    }
  }

  /** Concatenating three texts does not depend on the grouping. */
  lemma ConcatAssoc(a: string, b: string, c: string)
    ensures a + (b + c) == (a + b) + c
  {
  }
}
