/** The test suite's argument flattener: the arguments of a CLI test run,
    each absent, a single value or a tuple of values, become one
    separator-joined command line. */
module RunnerParams {

  /** A value passed to a CLI option or argument: a str, an int or a float. */
  datatype Param = Text(s: string) | Int(i: int) | Float(x: real)

  /** One test-run argument: None, a single value, or a tuple of values. */
  datatype Arg = Absent | Single(p: Param) | Tuple(elems: seq<Param>)

  /** Python's `str()` of a value; numbers use the renderer `showNumber`. */
  function Str(p: Param, showNumber: Param -> string): string {
    match p
    case Text(s) => s
    case _ => showNumber(p)
  }

  /** The tokens of a tuple's elements, in element order. */
  function ElementTokens(elems: seq<Param>, showNumber: Param -> string): (r: seq<string>)
    ensures |r| == |elems|
    ensures forall k :: 0 <= k < |elems| ==> r[k] == Str(elems[k], showNumber)
  {
    seq(|elems|, k requires 0 <= k < |elems| => Str(elems[k], showNumber))
  }

  /** The tokens one argument contributes: none for `None`, the `str()` of a
      single value, and the `str()` of each element of a tuple, in order. */
  function ArgTokens(a: Arg, showNumber: Param -> string): (r: seq<string>)
    ensures a.Absent? ==> r == []
    ensures a.Single? ==> r == [Str(a.p, showNumber)]
    ensures a.Tuple? ==> |r| == |a.elems| && forall k :: 0 <= k < |a.elems| ==> r[k] == Str(a.elems[k], showNumber)
  {
    match a
    case Absent => []
    case Single(p) => [Str(p, showNumber)]
    case Tuple(elems) => ElementTokens(elems, showNumber)
  }

  /** The tokens of all arguments, argument by argument: as many as there
      are single values plus tuple elements. */
  function Tokens(args: seq<Arg>, showNumber: Param -> string): (r: seq<string>)
    ensures |r| == SingleCount(args) + TupleLengthSum(args)
  {
    if args == [] then [] else ArgTokens(args[0], showNumber) + Tokens(args[1..], showNumber)
  }

  /** Python's `sep.join(tokens)`: the tokens with one `sep` between each
      neighbouring pair. */
  function Join(tokens: seq<string>, sep: string): (r: string)
    ensures tokens == [] ==> r == ""
    ensures |tokens| == 1 ==> r == tokens[0]
    ensures tokens != [] ==> |r| == TotalLength(tokens) + (|tokens| - 1) * |sep|
  {
    if tokens == [] then ""
    else if |tokens| == 1 then tokens[0]
    else tokens[0] + sep + Join(tokens[1..], sep)
  }

  /** The summed lengths of some tokens. */
  function TotalLength(tokens: seq<string>): nat {
    if tokens == [] then 0 else |tokens[0]| + TotalLength(tokens[1..])
  }

  /** `sanitize_runner_params`, with its loop: collect the tokens of every
      argument in order, then join them with `sep`, a single space unless
      given. */
  method SanitizeRunnerParams(args: seq<Arg>, showNumber: Param -> string, sep: string := " ")
    returns (line: string)
    ensures line == Join(Tokens(args, showNumber), sep)
  {
    var sanitized: seq<string> := [];
    var i := 0;
    while i < |args|
      invariant 0 <= i <= |args|
      invariant sanitized == Tokens(args[..i], showNumber)
    {
      var arg := args[i];
      if arg.Single? {
        sanitized := sanitized + [Str(arg.p, showNumber)];
      } else if arg.Tuple? {
        sanitized := ExtendWithElements(sanitized, arg.elems, showNumber);
      }
      TokensAppend(args[..i], [args[i]], showNumber);
      assert args[..i + 1] == args[..i] + [args[i]];
      i := i + 1;
    }
    assert args[..i] == args;
    line := Join(sanitized, sep);
  }

  /** `run_command`'s use of the flattener: the default separator, so the
      command line is the tokens joined by single spaces. */
  method RunCommandLine(args: seq<Arg>, showNumber: Param -> string) returns (line: string)
    ensures line == Join(Tokens(args, showNumber), " ")
  {
    line := SanitizeRunnerParams(args, showNumber);
  }

  /** The inner loop over a tuple argument: append the `str()` of each
      element, in element order. */
  method ExtendWithElements(sanitized: seq<string>, elems: seq<Param>, showNumber: Param -> string)
    returns (extended: seq<string>)
    ensures extended == sanitized + ElementTokens(elems, showNumber)
  {
    extended := sanitized;
    var j := 0;
    while j < |elems|
      invariant 0 <= j <= |elems|
      invariant extended == sanitized + ElementTokens(elems[..j], showNumber)
    {
      assert ElementTokens(elems[..j + 1], showNumber)
          == ElementTokens(elems[..j], showNumber) + [Str(elems[j], showNumber)];
      extended := extended + [Str(elems[j], showNumber)];
      j := j + 1;
    }
    assert elems[..j] == elems;
  }

  /** The tokens of two argument lists in a row are the tokens of the first
      followed by those of the second. */
  lemma {:induction false} TokensAppend(a: seq<Arg>, b: seq<Arg>, showNumber: Param -> string)
    ensures Tokens(a + b, showNumber) == Tokens(a, showNumber) + Tokens(b, showNumber)
  {
    if a == [] {
      assert a + b == b;
    } else {
      assert (a + b)[0] == a[0] && (a + b)[1..] == a[1..] + b;
      TokensAppend(a[1..], b, showNumber);
    }
  }

  /** The tokens of `a`, then of one argument `x`, then of `b`. */
  lemma Around(a: seq<Arg>, x: Arg, b: seq<Arg>, showNumber: Param -> string)
    ensures Tokens(a + [x] + b, showNumber)
         == Tokens(a, showNumber) + ArgTokens(x, showNumber) + Tokens(b, showNumber)
  {
    var ax := a + [x];
    assert ax + b == a + [x] + b;
    TokensAppend(ax, b, showNumber);
    TokensAppend(a, [x], showNumber);
    assert [x][1..] == [];
    assert Tokens([x], showNumber) == ArgTokens(x, showNumber);
  }

  /** A `None` argument contributes no token, wherever it stands. */
  lemma AbsentContributesNothing(a: seq<Arg>, b: seq<Arg>, showNumber: Param -> string)
    ensures Tokens(a + [Absent] + b, showNumber) == Tokens(a + b, showNumber)
  {
    Around(a, Absent, b, showNumber);
    TokensAppend(a, b, showNumber);
  }

  /** A single value contributes exactly its `str()`, in its place. */
  lemma SingleContributesOne(a: seq<Arg>, p: Param, b: seq<Arg>, showNumber: Param -> string)
    ensures Tokens(a + [Single(p)] + b, showNumber)
         == Tokens(a, showNumber) + [Str(p, showNumber)] + Tokens(b, showNumber)
  {
    Around(a, Single(p), b, showNumber);
  }

  /** A tuple contributes the `str()` of each element, in element order, in
      its place; an empty tuple contributes nothing. */
  lemma TupleContributesElements(a: seq<Arg>, elems: seq<Param>, b: seq<Arg>, showNumber: Param -> string)
    ensures Tokens(a + [Tuple(elems)] + b, showNumber)
         == Tokens(a, showNumber) + ElementTokens(elems, showNumber) + Tokens(b, showNumber)
    ensures elems == [] ==> Tokens(a + [Tuple(elems)] + b, showNumber) == Tokens(a + b, showNumber)
  {
    Around(a, Tuple(elems), b, showNumber);
    TokensAppend(a, b, showNumber);
  }

  /** Number of single-value arguments. */
  function SingleCount(args: seq<Arg>): nat {
    if args == [] then 0 else (if args[0].Single? then 1 else 0) + SingleCount(args[1..])
  }

  /** Sum of the tuple arguments' lengths. */
  function TupleLengthSum(args: seq<Arg>): nat {
    if args == [] then 0 else (if args[0].Tuple? then |args[0].elems| else 0) + TupleLengthSum(args[1..])
  }

  /** Joining two non-empty token lists in a row puts one separator between
      their joins. */
  lemma {:induction false} JoinAppend(a: seq<string>, b: seq<string>, sep: string)
    requires a != [] && b != []
    ensures Join(a + b, sep) == Join(a, sep) + sep + Join(b, sep)
  {
    assert (a + b)[0] == a[0] && (a + b)[1..] == a[1..] + b;
    if |a| > 1 {
      JoinAppend(a[1..], b, sep);
    }
  }

  /** Python's `s.split(c)` for a one-character separator `c`. */
  function SplitOn(s: string, c: char): (r: seq<string>)
    ensures |r| > 0
  {
    if s == [] then [""]
    else
      var rest := SplitOn(s[1..], c);
      if s[0] == c then [""] + rest else [[s[0]] + rest[0]] + rest[1..]
  }

  /** Splitting `t + s` where `t` holds no separator prefixes `t` to the
      first piece of `s`. */
  lemma {:induction false} SplitOnPrefix(t: string, s: string, c: char)
    requires c !in t
    ensures SplitOn(t + s, c) == [t + SplitOn(s, c)[0]] + SplitOn(s, c)[1..]
  {
    if t != [] {
      assert (t + s)[0] == t[0] && (t + s)[1..] == t[1..] + s;
      SplitOnPrefix(t[1..], s, c);
      assert [t[0]] + (t[1..] + SplitOn(s, c)[0]) == t + SplitOn(s, c)[0];
    } else {
      var parts := SplitOn(s, c);
      assert t + s == s && t + parts[0] == parts[0];
      assert parts == [parts[0]] + parts[1..];
    }
  }

  /** Tokens that do not contain a one-character separator come back out of
      splitting their join on it. */
  lemma {:induction false} SplitJoin(tokens: seq<string>, c: char)
    requires tokens != []
    requires forall k :: 0 <= k < |tokens| ==> c !in tokens[k]
    ensures SplitOn(Join(tokens, [c]), c) == tokens
  {
    if |tokens| == 1 {
      SplitOnPrefix(tokens[0], "", c);
      assert tokens[0] + "" == tokens[0];
    } else {
      var rest := Join(tokens[1..], [c]);
      SplitJoin(tokens[1..], c);
      assert Join(tokens, [c]) == tokens[0] + ([c] + rest);
      SplitOnPrefix(tokens[0], [c] + rest, c);
      assert ([c] + rest)[1..] == rest;
      assert SplitOn([c] + rest, c) == [""] + tokens[1..];
      assert tokens[0] + "" == tokens[0];
    }
  }
}
