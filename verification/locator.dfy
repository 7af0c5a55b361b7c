/** `find_program_path`: the directories listed in an environment variable,
    split as `strtok_r(..., ":")` splits them, are tried in order with the
    program name appended, and the first candidate that `stat` reports as a
    regular file or a symbolic link is the result. */
module Locator {
  import opened Wrappers
  import opened FileModes

  /** `kPathSeparator`. */
  const Separator: char := '/'

  /** The delimiter handed to `strtok_r`. */
  const ListSeparator: char := ':'

  /** `find_program_path_exception` and the text it carries. */
  datatype LocateError = LocateError(message: string)

  function NoVariableMessage(varName: string): string {
    "there is no " + varName + " environment variable defined"
  }

  function NotFoundMessage(prog: string, varName: string): string {
    "could not locate program '" + prog + "' via " + varName + " environment variable"
  }

  // ---------------------------------------------------------------- strtok

  /** The length of the run of non-delimiter characters at the front. */
  function RunLength(s: string): (n: nat)
    ensures n <= |s|
    ensures forall i | 0 <= i < n :: s[i] != ListSeparator
    ensures n < |s| ==> s[n] == ListSeparator
  {
    if s == [] || s[0] == ListSeparator then 0 else 1 + RunLength(s[1..])
  }

  /** The tokens `strtok_r` returns, in order: the maximal runs of
      non-delimiter characters. Empty fields produce no token. */
  function Tokens(s: string): (ts: seq<string>)
    ensures forall i | 0 <= i < |ts| :: ts[i] != [] && ListSeparator !in ts[i]
    decreases |s|
  {
    if s == [] then []
    else if s[0] == ListSeparator then Tokens(s[1..])
    else
      var n := RunLength(s);
      assert forall i | 0 <= i < n :: s[..n][i] == s[i];
      [s[..n]] + Tokens(s[n..])
  }

  /** The tokens joined with single delimiters. */
  function JoinTokens(ts: seq<string>): string {
    if ts == [] then []
    else if |ts| == 1 then ts[0]
    else ts[0] + [ListSeparator] + JoinTokens(ts[1..])
  }

  /** All the tokens' characters, in order. */
  function Concat(ts: seq<string>): string {
    if ts == [] then [] else ts[0] + Concat(ts[1..])
  }

  /** The text with every delimiter removed. */
  function Undelimited(s: string): string {
    if s == [] then []
    else (if s[0] == ListSeparator then [] else [s[0]]) + Undelimited(s[1..])
  }

  // ------------------------------------------------------------ candidates

  /** The path tried for a directory: the separator is inserted only when the
      directory does not already end with one. */
  function Candidate(dir: string, prog: string): (c: string)
    ensures exists p :: c == p + prog && p != [] && p[|p| - 1] == Separator && dir <= p && |p| <= |dir| + 1
    ensures |c| == |dir| + 1 + |prog| ==> dir == [] || dir[|dir| - 1] != Separator
  {
    if dir != [] && dir[|dir| - 1] == Separator then
      assert dir + prog == dir + prog;
      dir + prog
    else
      assert dir + [Separator] + prog == (dir + [Separator]) + prog;
      dir + [Separator] + prog
  }

  function Candidates(dirs: seq<string>, prog: string): (cs: seq<string>)
    ensures |cs| == |dirs|
    ensures forall i | 0 <= i < |dirs| :: cs[i] == Candidate(dirs[i], prog)
  {
    seq(|dirs|, i requires 0 <= i < |dirs| => Candidate(dirs[i], prog))
  }

  /** What the test after `stat` accepts: the call succeeded and the file
      type is regular or a symbolic link. */
  predicate Accepts(mode: Option<bv32>) {
    mode.Some? && (FileType(mode.value) == RegularType || FileType(mode.value) == LinkType)
  }

  /** `find_program_path(prog, varName)`: `env` is what `getenv` returns
      (`None` for a null pointer) and `stat` what `stat` reports for a path.
      `probes` lists the candidates in the order they were tried. */
  method FindProgramPath(prog: string, varName: string, env: Option<string>, stat: string -> Option<bv32>)
    returns (r: Result<string, LocateError>, probes: seq<string>)
    ensures env.None? || env.value == [] ==>
      r == Failure(LocateError(NoVariableMessage(varName))) && probes == []
    ensures env.Some? && env.value != [] ==>
      var cands := Candidates(Tokens(env.value), prog);
      && probes <= cands
      && (forall k | 0 <= k < |probes| - 1 :: !Accepts(stat(probes[k])))
      && (r.Success? ==> probes != [] && r.value == probes[|probes| - 1] && Accepts(stat(r.value)))
      && (r.Failure? ==> probes == cands && r.error == LocateError(NotFoundMessage(prog, varName)))
      && (r.Failure? ==> forall k | 0 <= k < |cands| :: !Accepts(stat(cands[k])))
  {
    if env.None? || env.value == [] {
      return Failure(LocateError(NoVariableMessage(varName))), [];
    }
    var found;
    found, probes := Search(prog, env.value, stat);
    if found {
      r := Success(probes[|probes| - 1]);
    } else {
      r := Failure(LocateError(NotFoundMessage(prog, varName)));
    }
  }

  /** The `strtok_r` loop over the variable's value: candidates are tried
      in field order until one is accepted. */
  method Search(prog: string, value: string, stat: string -> Option<bv32>)
    returns (found: bool, probes: seq<string>)
    ensures probes <= Candidates(Tokens(value), prog)
    ensures forall k | 0 <= k < |probes| - 1 :: !Accepts(stat(probes[k]))
    ensures found ==> probes != [] && Accepts(stat(probes[|probes| - 1]))
    ensures !found ==> probes == Candidates(Tokens(value), prog)
    ensures !found ==> forall k | 0 <= k < |probes| :: !Accepts(stat(probes[k]))
  {
    probes := [];
    ghost var tried: seq<string> := [];
    var rest := value;
    while rest != []
      invariant Tokens(value) == tried + Tokens(rest)
      invariant probes == Candidates(tried, prog)
      invariant forall k | 0 <= k < |probes| :: !Accepts(stat(probes[k]))
      decreases |rest|
    {
      if rest[0] == ListSeparator {
        SkipDelimiter(rest);
        rest := rest[1..];
      } else {
        var n := RunLength(rest);
        var dir := rest[..n];
        TakeToken(value, tried, rest, prog);
        var cand := Candidate(dir, prog);
        tried := tried + [dir];
        probes := probes + [cand];
        if Accepts(stat(cand)) {
          CandidatesPrefix(tried, Tokens(rest[n..]), prog);
          return true, probes;
        }
        rest := rest[n..];
      }
    }
    assert tried + [] == tried;
    found := false;
  }

  /** Taking the run at the front of `rest` moves one token from the ones
      still to come to the ones tried, and adds its candidate. */
  lemma TakeToken(value: string, tried: seq<string>, rest: string, prog: string)
    requires rest != [] && rest[0] != ListSeparator
    requires Tokens(value) == tried + Tokens(rest)
    ensures var dir := rest[..RunLength(rest)];
      && Tokens(value) == (tried + [dir]) + Tokens(rest[RunLength(rest)..])
      && Candidates(tried + [dir], prog) == Candidates(tried, prog) + [Candidate(dir, prog)]
  {
    var dir := rest[..RunLength(rest)];
    NextToken(rest);
    AppendAssoc(tried, dir, Tokens(rest[RunLength(rest)..]));
    CandidatesAppend(tried, dir, prog);
  }

  lemma SkipDelimiter(rest: string)
    requires rest != [] && rest[0] == ListSeparator
    ensures Tokens(rest) == Tokens(rest[1..])
  {
  }

  lemma NextToken(rest: string)
    requires rest != [] && rest[0] != ListSeparator
    ensures Tokens(rest) == [rest[..RunLength(rest)]] + Tokens(rest[RunLength(rest)..])
  {
  }

  lemma AppendAssoc(a: seq<string>, x: string, b: seq<string>)
    ensures a + ([x] + b) == (a + [x]) + b
  {
  }

  lemma CandidatesAppend(dirs: seq<string>, dir: string, prog: string)
    ensures Candidates(dirs + [dir], prog) == Candidates(dirs, prog) + [Candidate(dir, prog)]
  {
  }

  lemma CandidatesPrefix(a: seq<string>, b: seq<string>, prog: string)
    ensures Candidates(a, prog) <= Candidates(a + b, prog)
  {
    assert forall i | 0 <= i < |a| :: (a + b)[i] == a[i];
  }

  // ------------------------------------------------------------ properties

  /** No character is lost or invented by the split: the tokens hold
      exactly the non-delimiter characters, in order. */
  lemma {:induction false} TokensKeepCharacters(s: string)
    ensures Concat(Tokens(s)) == Undelimited(s)
    decreases |s|
  {
    if s != [] && s[0] != ListSeparator {
      var n := RunLength(s);
      TokensKeepCharacters(s[n..]);
      RunUndelimited(s, n);
    } else if s != [] {
      TokensKeepCharacters(s[1..]);
    }
  }

  /** The run at the front survives removal of delimiters unchanged. */
  lemma {:induction false} RunUndelimited(s: string, n: nat)
    requires n <= |s| && forall i | 0 <= i < n :: s[i] != ListSeparator
    ensures Undelimited(s) == s[..n] + Undelimited(s[n..])
    decreases n
  {
    if n > 0 {
      RunUndelimited(s[1..], n - 1);
      assert s[1..][n - 1..] == s[n..];
      assert s[..n] == [s[0]] + s[1..][..n - 1];
    }
  }

  /** Joining non-empty, delimiter-free names and splitting again gives the
      names back. */
  lemma {:induction false} SplitJoin(ts: seq<string>)
    requires forall i | 0 <= i < |ts| :: ts[i] != [] && ListSeparator !in ts[i]
    ensures Tokens(JoinTokens(ts)) == ts
    decreases |ts|
  {
    if ts != [] {
      var t := ts[0];
      var rest := if |ts| == 1 then [] else [ListSeparator] + JoinTokens(ts[1..]);
      assert JoinTokens(ts) == t + rest;
      RunOf(t, rest);
      if |ts| > 1 {
        SplitJoin(ts[1..]);
        assert rest[1..] == JoinTokens(ts[1..]);
      }
    }
  }

  /** A delimiter-free word followed by a delimiter (or nothing) is the
      first token. */
  lemma RunOf(t: string, rest: string)
    requires t != [] && ListSeparator !in t
    requires rest == [] || rest[0] == ListSeparator
    ensures Tokens(t + rest) == [t] + Tokens(rest)
  {
    var s := t + rest;
    RunLengthOf(t, rest);
    assert s[..|t|] == t && s[|t|..] == rest;
  }

  lemma {:induction false} RunLengthOf(t: string, rest: string)
    requires ListSeparator !in t
    requires rest == [] || rest[0] == ListSeparator
    ensures RunLength(t + rest) == |t|
    decreases |t|
  {
    if t != [] {
      assert (t + rest)[1..] == t[1..] + rest;
      RunLengthOf(t[1..], rest);
    } else {
      assert t + rest == rest;
    }
  }

  /** Empty fields are invisible: an extra delimiter anywhere leaves the
      tokens unchanged. */
  lemma DoubledDelimiter(a: string, b: string)
    ensures Tokens(a + [ListSeparator, ListSeparator] + b) == Tokens(a + [ListSeparator] + b)
  {
    ExtraDelimiter(a, [ListSeparator] + b);
    assert a + [ListSeparator, ListSeparator] + b == a + [ListSeparator] + ([ListSeparator] + b);
    assert a + [ListSeparator] + b == a + ([ListSeparator] + b);
  }

  /** A delimiter at the front produces no empty first field. */
  lemma LeadingDelimiter(s: string)
    ensures Tokens([ListSeparator] + s) == Tokens(s)
  {
    assert ([ListSeparator] + s)[1..] == s;
  }

  /** A delimiter at the end produces no empty last field. */
  lemma {:induction false} TrailingDelimiter(s: string)
    ensures Tokens(s + [ListSeparator]) == Tokens(s)
    decreases |s|
  {
    var t := s + [ListSeparator];
    if s == [] {
      assert t == [ListSeparator] && t[1..] == [];
    } else if s[0] == ListSeparator {
      assert t[1..] == s[1..] + [ListSeparator];
      TrailingDelimiter(s[1..]);
    } else {
      var n := RunLength(s);
      if n < |s| {
        RunPrefix(s, n, [ListSeparator]);
        assert t[..n] == s[..n] && t[n..] == s[n..] + [ListSeparator];
        TrailingDelimiter(s[n..]);
      } else {
        RunLengthOf(s, [ListSeparator]);
        assert t[..|s|] == s && t[|s|..] == [ListSeparator];
        assert [ListSeparator][1..] == [];
        assert s[..|s|] == s && s[|s|..] == [];
      }
    }
  }

  /** A delimiter in front of another is dropped, wherever it stands. */
  lemma {:induction false} ExtraDelimiter(a: string, b: string)
    requires b != [] && b[0] == ListSeparator
    ensures Tokens(a + [ListSeparator] + b) == Tokens(a + b)
    decreases |a|
  {
    if a == [] {
      assert [ListSeparator] + b == a + [ListSeparator] + b;
      assert ([ListSeparator] + b)[1..] == b;
      assert a + b == b;
    } else if a[0] == ListSeparator {
      assert (a + [ListSeparator] + b)[1..] == a[1..] + [ListSeparator] + b;
      assert (a + b)[1..] == a[1..] + b;
      ExtraDelimiter(a[1..], b);
    } else {
      var n := RunLength(a);
      if n < |a| {
        RunPrefix(a, n, [ListSeparator] + b);
        RunPrefix(a, n, b);
        assert a + [ListSeparator] + b == a + ([ListSeparator] + b);
        assert (a + ([ListSeparator] + b))[..n] == a[..n] && (a + b)[..n] == a[..n];
        assert (a + ([ListSeparator] + b))[n..] == a[n..] + [ListSeparator] + b;
        assert (a + b)[n..] == a[n..] + b;
        ExtraDelimiter(a[n..], b);
      } else {
        RunLengthOf(a, [ListSeparator] + b);
        RunLengthOf(a, b);
        assert a + [ListSeparator] + b == a + ([ListSeparator] + b);
        assert (a + ([ListSeparator] + b))[..|a|] == a && (a + ([ListSeparator] + b))[|a|..] == [ListSeparator] + b;
        assert (a + b)[..|a|] == a && (a + b)[|a|..] == b;
        assert ([ListSeparator] + b)[1..] == b;
      }
    }
  }

  /** A run that ends inside `a` ends at the same place in `a + x`. */
  lemma {:induction false} RunPrefix(a: string, n: nat, x: string)
    requires n < |a| && n == RunLength(a)
    ensures RunLength(a + x) == n
    decreases n
  {
    if n > 0 {
      assert (a + x)[1..] == a[1..] + x;
      RunPrefix(a[1..], n - 1, x);
    }
  }
}
