/** How both member builders lay out a function's parameters: the five
    parameter kinds in calling-convention order, positional defaults
    right-aligned, positions numbered across both positional groups,
    keyword-only defaults paired one to one. */
module Signature {
  import opened Wrappers
  import opened PythonAst

  /** One parameter as the builders see it, before it gets a path. */
  datatype Param =
    | PositionalOnly(name: string, annotation: Option<Expr>, position: nat, default: Option<Expr>)
    | PositionalOrKeyword(name: string, annotation: Option<Expr>, position: nat, default: Option<Expr>)
    | VarPositional(name: string, annotation: Option<Expr>)
    | KeywordOnly(name: string, annotation: Option<Expr>, default: Option<Expr>)
    | VarKeyword(name: string, annotation: Option<Expr>)
  {
    predicate HasPosition() {
      PositionalOnly? || PositionalOrKeyword?
    }
  }

  function Min(a: int, b: int): int {
    if a <= b then a else b
  }

  /** `[None] * n`: Python repeats a list zero times when `n <= 0`. */
  function Nones(n: int): (r: seq<Option<Expr>>)
    ensures |r| == if n <= 0 then 0 else n
    ensures forall i :: 0 <= i < |r| ==> r[i].None?
  {
    if n <= 0 then [] else Nones(n - 1) + [None]
  }

  /** `[None] * (len(posonlyargs) + len(args) - len(defaults)) + defaults`. */
  function PaddedDefaults(a: Arguments): seq<Option<Expr>> {
    var ds := a.defaults;
    Nones(|a.posonlyargs| + |a.args| - |ds|) + seq(|ds|, i requires 0 <= i < |ds| => Some(ds[i]))
  }

  function PositionalParam(posOnly: bool, arg: Arg, position: nat, default: Option<Expr>): Param {
    if posOnly then PositionalOnly(arg.arg, arg.annotation, position, default)
    else PositionalOrKeyword(arg.arg, arg.annotation, position, default)
  }

  /** `enumerate(zip(args, defaults), start)`: zip stops at the shorter list,
      and the i-th pair gets position `start + i`. */
  function Positional(posOnly: bool, args: seq<Arg>, defaults: seq<Option<Expr>>, start: nat): (r: seq<Param>)
    ensures |r| == Min(|args|, |defaults|)
    ensures forall i :: 0 <= i < |r| ==> r[i] == PositionalParam(posOnly, args[i], start + i, defaults[i])
  {
    if args == [] || defaults == [] then []
    else [PositionalParam(posOnly, args[0], start, defaults[0])] + Positional(posOnly, args[1..], defaults[1..], start + 1)
  }

  /** `zip(kwonlyargs, kw_defaults)`: the i-th keyword-only parameter takes
      the i-th entry, `None` standing for "no default". */
  function KeywordOnlyParams(args: seq<Arg>, defaults: seq<Option<Expr>>): (r: seq<Param>)
    ensures |r| == Min(|args|, |defaults|)
    ensures forall i :: 0 <= i < |r| ==> r[i] == KeywordOnly(args[i].arg, args[i].annotation, defaults[i])
  {
    if args == [] || defaults == [] then []
    else [KeywordOnly(args[0].arg, args[0].annotation, defaults[0])] + KeywordOnlyParams(args[1..], defaults[1..])
  }

  function VarParam(arg: Option<Arg>, keyword: bool): seq<Param> {
    match arg
    case None => []
    case Some(a) => if keyword then [VarKeyword(a.arg, a.annotation)] else [VarPositional(a.arg, a.annotation)]
  }

  /** What follows the positional parameters: `*args`, the keyword-only
      parameters, `**kwargs`. */
  function Trailing(a: Arguments): seq<Param> {
    VarParam(a.vararg, false) + KeywordOnlyParams(a.kwonlyargs, a.kwDefaults) + VarParam(a.kwarg, true)
  }

  /** The parameters in the order the builders insert them into the
      `arguments` dict. */
  function Layout(a: Arguments): seq<Param> {
    var padded := PaddedDefaults(a);
    var cut := Min(|a.posonlyargs|, |padded|);
    Positional(true, a.posonlyargs, padded[..cut], 0)
    + Positional(false, a.args, padded[cut..], |a.posonlyargs|)
    + Trailing(a)
  }

  /** What Python's parser guarantees of every `ast.arguments`. */
  predicate WellFormed(a: Arguments) {
    |a.defaults| <= |a.posonlyargs| + |a.args| && |a.kwonlyargs| == |a.kwDefaults|
  }

  /** Reference rule for right alignment: of the N combined positional
      slots, the first N - D have no default and slot i >= N - D takes
      `defaults[i - (N - D)]`. */
  function AlignedDefault(a: Arguments, i: nat): Option<Expr>
    requires WellFormed(a) && i < |a.posonlyargs| + |a.args|
  {
    var gap := |a.posonlyargs| + |a.args| - |a.defaults|;
    if i < gap then None else Some(a.defaults[i - gap])
  }

  lemma PaddedDefaultsAligned(a: Arguments)
    requires WellFormed(a)
    ensures |PaddedDefaults(a)| == |a.posonlyargs| + |a.args|
    ensures forall i :: 0 <= i < |a.posonlyargs| + |a.args| ==> PaddedDefaults(a)[i] == AlignedDefault(a, i)
  {
  }

  /** Whatever the input, the padded list covers every positional slot. */
  lemma PaddedDefaultsCover(a: Arguments)
    ensures |PaddedDefaults(a)| >= |a.posonlyargs| + |a.args|
  {
  }

  /** The layout cut into its three runs: one positional-only parameter
      per declared one, one positional-or-keyword parameter per declared
      one, then the trailing parameters. */
  lemma LayoutParts(a: Arguments) returns (first: seq<Param>, second: seq<Param>)
    ensures |PaddedDefaults(a)| >= |a.posonlyargs| + |a.args|
    ensures first == Positional(true, a.posonlyargs, PaddedDefaults(a)[..|a.posonlyargs|], 0)
    ensures second == Positional(false, a.args, PaddedDefaults(a)[|a.posonlyargs|..], |a.posonlyargs|)
    ensures |first| == |a.posonlyargs| && |second| == |a.args|
    ensures Layout(a) == (first + second) + Trailing(a)
  {
    PaddedDefaultsCover(a);
    var padded := PaddedDefaults(a);
    var p := |a.posonlyargs|;
    assert Min(p, |padded|) == p;
    first := Positional(true, a.posonlyargs, padded[..p], 0);
    second := Positional(false, a.args, padded[p..], p);
  }

  /** Positional parameters come first, one per declared parameter, each
      with position equal to its index and the padded default of its slot. */
  lemma LayoutPositional(a: Arguments)
    ensures |Layout(a)| >= |a.posonlyargs| + |a.args|
    ensures forall i :: 0 <= i < |a.posonlyargs| ==>
      Layout(a)[i] == PositionalOnly(a.posonlyargs[i].arg, a.posonlyargs[i].annotation, i, PaddedDefaults(a)[i])
    ensures forall i :: |a.posonlyargs| <= i < |a.posonlyargs| + |a.args| ==>
      Layout(a)[i] == PositionalOrKeyword(a.args[i - |a.posonlyargs|].arg, a.args[i - |a.posonlyargs|].annotation, i, PaddedDefaults(a)[i])
  {
    var first, second := LayoutParts(a);
    forall i | 0 <= i < |a.posonlyargs|
      ensures Layout(a)[i] == PositionalOnly(a.posonlyargs[i].arg, a.posonlyargs[i].annotation, i, PaddedDefaults(a)[i])
    {
      PositionalOnlySlot(a, i);
    }
    forall i | |a.posonlyargs| <= i < |a.posonlyargs| + |a.args|
      ensures Layout(a)[i] == PositionalOrKeyword(a.args[i - |a.posonlyargs|].arg, a.args[i - |a.posonlyargs|].annotation, i, PaddedDefaults(a)[i])
    {
      PositionalOrKeywordSlot(a, i);
    }
  }

  lemma PositionalOnlySlot(a: Arguments, i: nat)
    requires i < |a.posonlyargs|
    ensures |PaddedDefaults(a)| > i && |Layout(a)| > i
    ensures Layout(a)[i] == PositionalOnly(a.posonlyargs[i].arg, a.posonlyargs[i].annotation, i, PaddedDefaults(a)[i])
  {
    var first, second := LayoutParts(a);
    var runs := first + second;
    assert Layout(a)[i] == runs[i] == first[i];
    assert first[i] == PositionalParam(true, a.posonlyargs[i], i, PaddedDefaults(a)[..|a.posonlyargs|][i]);
    assert PaddedDefaults(a)[..|a.posonlyargs|][i] == PaddedDefaults(a)[i];
  }

  lemma PositionalOrKeywordSlot(a: Arguments, i: nat)
    requires |a.posonlyargs| <= i < |a.posonlyargs| + |a.args|
    ensures |PaddedDefaults(a)| > i && |Layout(a)| > i
    ensures Layout(a)[i] == PositionalOrKeyword(a.args[i - |a.posonlyargs|].arg, a.args[i - |a.posonlyargs|].annotation, i, PaddedDefaults(a)[i])
  {
    var first, second := LayoutParts(a);
    var p := |a.posonlyargs|;
    var runs := first + second;
    var k := i - p;
    assert Layout(a)[i] == runs[i] == second[k];
    assert second[k] == PositionalParam(false, a.args[k], p + k, PaddedDefaults(a)[p..][k]);
    assert PaddedDefaults(a)[p..][k] == PaddedDefaults(a)[i];
  }

  /** Everything after the N positional slots: `*args`, the keyword-only
      parameters, `**kwargs`. */
  lemma LayoutAfterPositional(a: Arguments)
    ensures |Layout(a)| >= |a.posonlyargs| + |a.args|
    ensures Layout(a)[|a.posonlyargs| + |a.args|..] == Trailing(a)
  {
    var first, second := LayoutParts(a);
    assert |first + second| == |a.posonlyargs| + |a.args|;
  }

  /** What a layout holds after its N positional slots: `*args`, then
      the keyword-only parameters with their own defaults, then `**kwargs`. */
  ghost predicate TailShape(a: Arguments, l: seq<Param>)
    requires |a.kwonlyargs| == |a.kwDefaults|
  {
    var n := |a.posonlyargs| + |a.args|;
    var v := if a.vararg.Some? then 1 else 0;
    var w := if a.kwarg.Some? then 1 else 0;
    && |l| == n + v + |a.kwonlyargs| + w
    && (a.vararg.Some? ==> l[n] == VarPositional(a.vararg.value.arg, a.vararg.value.annotation))
    && (forall i :: 0 <= i < |a.kwonlyargs| ==>
          l[n + v + i] == KeywordOnly(a.kwonlyargs[i].arg, a.kwonlyargs[i].annotation, a.kwDefaults[i]))
    && (a.kwarg.Some? ==> l[|l| - 1] == VarKeyword(a.kwarg.value.arg, a.kwarg.value.annotation))
  }

  lemma LayoutTail(a: Arguments)
    requires |a.kwonlyargs| == |a.kwDefaults|
    ensures TailShape(a, Layout(a))
  {
    LayoutAfterPositional(a);
    TailIndices(Layout(a), |a.posonlyargs| + |a.args|, a);
  }

  lemma TailIndices(l: seq<Param>, n: nat, a: Arguments)
    requires |a.kwonlyargs| == |a.kwDefaults|
    requires n == |a.posonlyargs| + |a.args| <= |l|
    requires l[n..] == Trailing(a)
    ensures TailShape(a, l)
  {
    var va := VarParam(a.vararg, false);
    var kw := KeywordOnlyParams(a.kwonlyargs, a.kwDefaults);
    var ka := VarParam(a.kwarg, true);
    var tail := l[n..];
    assert tail == va + kw + ka;
    var v := if a.vararg.Some? then 1 else 0;
    var w := if a.kwarg.Some? then 1 else 0;
    assert |va| == v && |ka| == w && |kw| == |a.kwonlyargs|;
    assert |l| == n + v + |a.kwonlyargs| + w;
    assert forall i :: 0 <= i < |a.kwonlyargs| ==>
        l[n + v + i] == KeywordOnly(a.kwonlyargs[i].arg, a.kwonlyargs[i].annotation, a.kwDefaults[i]) by {
      forall i | 0 <= i < |a.kwonlyargs|
        ensures l[n + v + i] == kw[i]
      {
        assert l[n + v + i] == tail[v + i] == (va + kw + ka)[v + i];
      }
    }
    assert a.kwarg.Some? ==> l[|l| - 1] == VarKeyword(a.kwarg.value.arg, a.kwarg.value.annotation) by {
      if a.kwarg.Some? {
        assert l[|l| - 1] == tail[|tail| - 1] == ka[0];
      }
    }
    assert a.vararg.Some? ==> l[n] == VarPositional(a.vararg.value.arg, a.vararg.value.annotation) by {
      if a.vararg.Some? {
        assert l[n] == tail[0] == va[0];
      }
    }
  }

  /** The whole layout of a well-formed parameter list: the N positional
      slots carry positions 0..N-1 and right-aligned defaults. */
  lemma LayoutDefaults(a: Arguments)
    requires WellFormed(a)
    ensures var n := |a.posonlyargs| + |a.args|;
      && |Layout(a)| >= n
      && forall i :: 0 <= i < n ==>
           Layout(a)[i].HasPosition() && Layout(a)[i].position == i && Layout(a)[i].default == AlignedDefault(a, i)
  {
    PaddedDefaultsAligned(a);
    LayoutPositional(a);
  }

  /** Positions are dense: exactly the first N parameters carry one, and
      each carries its own index. */
  lemma PositionsDense(a: Arguments)
    ensures forall i :: 0 <= i < |Layout(a)| ==>
      (Layout(a)[i].HasPosition() <==> i < |a.posonlyargs| + |a.args|)
    ensures forall i :: 0 <= i < |Layout(a)| && Layout(a)[i].HasPosition() ==> Layout(a)[i].position == i
  {
    LayoutAfterPositional(a);
    TrailingUnpositioned(a);
    var n := |a.posonlyargs| + |a.args|;
    forall i | 0 <= i < |Layout(a)|
      ensures Layout(a)[i].HasPosition() <==> i < n
      ensures Layout(a)[i].HasPosition() ==> Layout(a)[i].position == i
    {
      if i < |a.posonlyargs| {
        PositionalOnlySlot(a, i);
      } else if i < n {
        PositionalOrKeywordSlot(a, i);
      } else {
        assert Layout(a)[i] == Layout(a)[n..][i - n];
      }
    }
  }

  /** No trailing parameter has a position. */
  lemma TrailingUnpositioned(a: Arguments)
    ensures forall j :: 0 <= j < |Trailing(a)| ==> !Trailing(a)[j].HasPosition()
  {
    var va := VarParam(a.vararg, false);
    var kw := KeywordOnlyParams(a.kwonlyargs, a.kwDefaults);
    var ka := VarParam(a.kwarg, true);
    forall j | 0 <= j < |Trailing(a)|
      ensures !Trailing(a)[j].HasPosition()
    {
      if j < |va| {
        assert Trailing(a)[j] == va[j];
      } else if j < |va| + |kw| {
        assert Trailing(a)[j] == kw[j - |va|];
      } else {
        assert Trailing(a)[j] == ka[j - |va| - |kw|];
      }
    }
  }

  /** No two parameters share a name (Python refuses such a definition). */
  ghost predicate DistinctNames(a: Arguments) {
    forall i, j :: 0 <= i < j < |Layout(a)| ==> Layout(a)[i].name != Layout(a)[j].name
  }
}
