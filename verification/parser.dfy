/** The rule grammar as a recursive-descent parser over the remaining input.

    Every parsing expression returns one of three outcomes: `Parsed` with the
    value and the unconsumed rest, `SoftFail` (the enclosing ordered choice
    tries its next alternative, an optional part is skipped, a repetition
    stops) or `CutFail` (a failure after a cut: no alternative is tried any
    more and the whole parse fails). There are two kinds of cut: the explicit
    one in `rhs` after `anchor .`, and the one TatSu's joins (`s.{e}+`) place
    right after each separator, so that a separator must be followed by
    another element.

    Each parser's contract says that what it accepts is exactly the surface
    text of the tree it returns, followed by the rest, and that the tree is
    well formed; the companion module `ParserProps` proves the converse. */
module Parser {
  import opened Text
  import opened Ast

  datatype PResult<+T> = Parsed(value: T, rest: string) | SoftFail | CutFail

  datatype CharClass = WordClass | ParamClass | CodeClass

  predicate InClass(c: char, k: CharClass) {
    match k
    case WordClass => IsWordChar(c)
    case ParamClass => IsParamChar(c)
    case CodeClass => IsCodeChar(c)
  }

  /** Length of the longest prefix of `s` inside the class. */
  function Span(s: string, k: CharClass): (n: nat)
    ensures n <= |s|
    ensures forall i :: 0 <= i < n ==> InClass(s[i], k)
    ensures n < |s| ==> !InClass(s[n], k)
  {
    if |s| > 0 && InClass(s[0], k) then 1 + Span(s[1..], k) else 0
  }

  /** A greedy regular-expression match of `k+`. */
  function Pattern(s: string, k: CharClass): (r: PResult<string>)
    ensures r.Parsed? ==> |r.value| > 0 && s == r.value + r.rest
    ensures r.Parsed? ==> forall i :: 0 <= i < |r.value| ==> InClass(r.value[i], k)
    ensures r.Parsed? ==> |r.rest| > 0 ==> !InClass(r.rest[0], k)
    ensures r.SoftFail? <==> |s| == 0 || !InClass(s[0], k)
    ensures !r.CutFail?
  {
    var n := Span(s, k);
    if n == 0 then SoftFail else Parsed(s[..n], s[n..])
  }

  /** `catalog_entry`: the pattern `\w+`. */
  function CatalogEntry(s: string): (r: PResult<string>)
    ensures r.Parsed? ==> IsWord(r.value) && s == r.value + r.rest
    ensures r.Parsed? ==> |r.rest| > 0 ==> !IsWordChar(r.rest[0])
    ensures r.SoftFail? <==> |s| == 0 || !IsWordChar(s[0])
    ensures !r.CutFail?
  {
    Pattern(s, WordClass)
  }

  /** `merge`: `<=`, `<+`, `<~`, `<-`, tried in that order. */
  function ParseMerge(s: string): (r: PResult<Merge>)
    ensures r.Parsed? ==> s == MergeText(r.value) + r.rest
    ensures r.SoftFail? <==> forall m :: !(MergeText(m) <= s)
    ensures !r.CutFail?
  {
    if "<=" <= s then Parsed(Now, s[2..])
    else if "<+" <= s then Parsed(Next, s[2..])
    else if "<~" <= s then Parsed(Async, s[2..])
    else if "<-" <= s then Parsed(Delete, s[2..])
    else SoftFail
  }

  /** `opname`: the six operator names, tried in grammar order. */
  function ParseOpName(s: string): (r: PResult<OpName>)
    ensures r.Parsed? ==> s == OpNameText(r.value) + r.rest
    ensures r.SoftFail? <==> forall n :: !(OpNameText(n) <= s)
    ensures !r.CutFail?
  {
    if "where" <= s then Parsed(OpWhere, s[5..])
    else if "project" <= s then Parsed(OpProject, s[7..])
    else if "map" <= s then Parsed(OpMap, s[3..])
    else if "cross" <= s then Parsed(OpCross, s[5..])
    else if "join" <= s then Parsed(OpJoin, s[4..])
    else if "groupby" <= s then Parsed(OpGroupBy, s[7..])
    else SoftFail
  }

  /** `lang`: `C++`, `c++`, `C`, `c`, `Python`, `python`, in that order. A
      result of `C` or `c` means the longer tag did not match. */
  function ParseLang(s: string): (r: PResult<string>)
    ensures r.Parsed? ==> r.value in LangTokens && s == r.value + r.rest
    ensures r.Parsed? && (r.value == "C" || r.value == "c") ==> !("++" <= r.rest)
    ensures r.SoftFail? <==> forall i :: 0 <= i < |LangTokens| ==> !(LangTokens[i] <= s)
    ensures !r.CutFail?
  {
    if "C++" <= s then Parsed("C++", s[3..])
    else if "c++" <= s then Parsed("c++", s[3..])
    else if "C" <= s then
      NoLongerTag(s, 'C');
      Parsed("C", s[1..])
    else if "c" <= s then
      NoLongerTag(s, 'c');
      Parsed("c", s[1..])
    else if "Python" <= s then Parsed("Python", s[6..])
    else if "python" <= s then Parsed("python", s[6..])
    else SoftFail
  }

  lemma NoLongerTag(s: string, c: char)
    requires [c] <= s && !([c, '+', '+'] <= s)
    ensures !("++" <= s[1..])
  {
    if |s| >= 3 {
      assert s[..3] != [c, '+', '+'];
      assert s[..3] == [c, s[1], s[2]];
      assert s[1..][..2] == [s[1], s[2]];
    }
  }

  /** `codeblock`: fence, language tag, body `[^'```']+`, fence. */
  function ParseCodeBlock(s: string): (r: PResult<CodeBlock>)
    ensures r.Parsed? ==> WfCodeBlock(r.value) && s == RenderCodeBlock(r.value) + r.rest
    ensures !r.CutFail?
  {
    if !(Fence <= s) then SoftFail
    else
      var lang := ParseLang(s[3..]);
      if !lang.Parsed? then SoftFail
      else
        var code := Pattern(lang.rest, CodeClass);
        if !code.Parsed? || !(Fence <= code.rest) then SoftFail
        else
          CodeBlockGlue(s, lang.value, lang.rest, code.value, code.rest);
          Parsed(CodeBlock(lang.value, code.value), code.rest[3..])
  }

  /** A fence, a tag, a body and a fence read in turn form a well-formed
      code block. */
  lemma CodeBlockGlue(s: string, lang: string, u: string, code: string, u2: string)
    requires Fence <= s && s[3..] == lang + u
    requires lang in LangTokens && ((lang == "C" || lang == "c") ==> !("++" <= u))
    requires |code| > 0 && (forall i :: 0 <= i < |code| ==> InClass(code[i], CodeClass))
    requires u == code + u2 && Fence <= u2
    ensures WfCodeBlock(CodeBlock(lang, code))
    ensures s == RenderCodeBlock(CodeBlock(lang, code)) + u2[3..]
  {
    CodeBlockWf(lang, code, u2);
    assert s == s[..3] + s[3..];
    assert u2 == Fence + u2[3..];
    calc {
      s;
      Fence + (lang + (code + (Fence + u2[3..])));
      { AppendAssoc(code, Fence, u2[3..]);
        AppendAssoc(lang, code + Fence, u2[3..]);
        AppendAssoc(Fence, lang + (code + Fence), u2[3..]); }
      (Fence + (lang + (code + Fence))) + u2[3..];
    }
    assert Fence + (lang + (code + Fence)) == Fence + lang + code + Fence;
  }

  lemma CodeBlockWf(lang: string, code: string, rest: string)
    requires lang in LangTokens
    requires |code| > 0 && forall i :: 0 <= i < |code| ==> InClass(code[i], CodeClass)
    requires (lang == "C" || lang == "c") ==> !("++" <= code + rest)
    ensures WfCodeBlock(CodeBlock(lang, code))
  {
    if lang == "C" || lang == "c" {
      NotPrefixOfPart("++", code, rest);
    }
  }

  lemma NotPrefixOfPart(p: string, a: string, b: string)
    requires !(p <= a + b)
    ensures !(p <= a)
  {
    if |p| <= |a| {
      assert (a + b)[..|p|] == a[..|p|];
    }
  }

  /** Parameter strings at odd positions, `","` at even positions: what
      follows the first parameter in a template-parameter list. */
  predicate WfParamTail(items: seq<string>) {
    && |items| % 2 == 0
    && forall i :: 0 <= i < |items| ==> (if i % 2 == 0 then items[i] == "," else IsParam(items[i]))
  }

  /** The repetition part of `','.{ /[\w ]+/ }+`: the repetition stops where
      no `,` follows; after a `,` the join has cut, so a missing parameter is
      a `CutFail`. */
  function ParamTail(s: string): (r: PResult<seq<string>>)
    ensures r.Parsed? ==> WfParamTail(r.value) && s == Concat(r.value) + r.rest
    ensures r.Parsed? ==> !("," <= r.rest)
    ensures !r.SoftFail?
    decreases |s|
  {
    if !("," <= s) then Parsed([], s)
    else
      var p := Pattern(s[1..], ParamClass);
      if !p.Parsed? then CutFail
      else
        var more := ParamTail(p.rest);
        if !more.Parsed? then CutFail
        else
          ParamTailStep(s, p.value, p.rest, more.value, more.rest);
          Parsed([",", p.value] + more.value, more.rest)
  }

  lemma ParamTailStep(s: string, v: string, t: string, tail: seq<string>, u: string)
    requires "," <= s && s[1..] == v + t
    requires |v| > 0 && forall i :: 0 <= i < |v| ==> InClass(v[i], ParamClass)
    requires WfParamTail(tail) && t == Concat(tail) + u
    ensures WfParamTail([",", v] + tail) && s == Concat([",", v] + tail) + u
  {
    var items := [",", v] + tail;
    assert items[1..][1..] == tail;
    assert Concat(items) == "," + (v + Concat(tail));
    assert s == [s[0]] + s[1..];
    assert IsParam(v) by {
      forall i | 0 <= i < |v| ensures IsParamChar(v[i]) { assert InClass(v[i], ParamClass); }
    }
    forall i | 0 <= i < |items|
      ensures if i % 2 == 0 then items[i] == "," else IsParam(items[i])
    {
      if i >= 2 { assert items[i] == tail[i - 2]; }
    }
  }

  /** `template_params`: `<`, one or more parameters joined by `,`, `>`. The
      list keeps its separators. Only the join can cut; a missing first
      parameter or closing `>` is a soft failure. */
  function ParseTemplateParams(s: string): (r: PResult<seq<string>>)
    ensures r.Parsed? ==> WfParams(r.value) && s == "<" + Concat(r.value) + ">" + r.rest
    ensures !("<" <= s) ==> r.SoftFail?
  {
    if !("<" <= s) then SoftFail
    else
      var first := Pattern(s[1..], ParamClass);
      if !first.Parsed? then SoftFail
      else
        var tail := ParamTail(first.rest);
        if !tail.Parsed? then CutFail
        else if !(">" <= tail.rest) then SoftFail
        else
          TemplateParamsGlue(s, first.value, first.rest, tail.value, tail.rest);
          Parsed([first.value] + tail.value, tail.rest[1..])
  }

  lemma TemplateParamsGlue(s: string, v: string, t: string, tail: seq<string>, u: string)
    requires "<" <= s && s[1..] == v + t
    requires |v| > 0 && forall i :: 0 <= i < |v| ==> InClass(v[i], ParamClass)
    requires WfParamTail(tail) && t == Concat(tail) + u && ">" <= u
    ensures WfParams([v] + tail) && s == "<" + Concat([v] + tail) + ">" + u[1..]
  {
    var items := [v] + tail;
    assert items[1..] == tail;
    assert s == [s[0]] + s[1..];
    assert u == [u[0]] + u[1..];
    assert IsParam(v) by {
      forall i | 0 <= i < |v| ensures IsParamChar(v[i]) { assert InClass(v[i], ParamClass); }
    }
    forall i | 0 <= i < |items|
      ensures if i % 2 == 0 then IsParam(items[i]) else items[i] == ","
    {
      if i > 0 { assert items[i] == tail[i - 1]; }
    }
  }

  /** The names after the first one in a `,`-joined list, each with the
      separator in front. */
  function SepPrefixed(names: seq<string>, sep: string): string {
    if |names| == 0 then "" else sep + names[0] + SepPrefixed(names[1..], sep)
  }

  /** The repetition part of `','.{ catalog_entry }+`. Only the entries are
      named in the tree, so only they are kept. The repetition stops where no
      `,` follows; a `,` without an entry after it is a `CutFail`. */
  function RefTail(s: string): (r: PResult<seq<string>>)
    ensures r.Parsed? ==> forall i :: 0 <= i < |r.value| ==> IsWord(r.value[i])
    ensures r.Parsed? ==> s == SepPrefixed(r.value, ",") + r.rest
    ensures r.Parsed? ==> !("," <= r.rest)
    ensures !r.SoftFail?
    decreases |s|
  {
    if !("," <= s) then Parsed([], s)
    else
      var w := CatalogEntry(s[1..]);
      if !w.Parsed? then CutFail
      else
        var more := RefTail(w.rest);
        if !more.Parsed? then CutFail
        else
          RefTailStep(s, w.value, w.rest, more.value, more.rest);
          Parsed([w.value] + more.value, more.rest)
  }

  lemma RefTailStep(s: string, w: string, t: string, names: seq<string>, u: string)
    requires "," <= s && s[1..] == w + t && IsWord(w)
    requires forall i :: 0 <= i < |names| ==> IsWord(names[i])
    requires t == SepPrefixed(names, ",") + u
    ensures forall i :: 0 <= i < |[w] + names| ==> IsWord(([w] + names)[i])
    ensures s == SepPrefixed([w] + names, ",") + u
  {
    assert ([w] + names)[1..] == names;
    assert s == [s[0]] + s[1..];
    forall i | 0 <= i < |[w] + names| ensures IsWord(([w] + names)[i]) {
      if i > 0 { assert ([w] + names)[i] == names[i - 1]; }
    }
  }

  lemma {:induction false} JoinSepPrefixed(w: string, names: seq<string>, sep: string)
    ensures Join([w] + names, sep) == w + SepPrefixed(names, sep)
    decreases |names|
  {
    if |names| > 0 {
      JoinSepPrefixed(names[0], names[1..], sep);
      assert [names[0]] + names[1..] == names;
      assert ([w] + names)[1..] == names;
    }
  }

  /** `op_args`: the lambda shape (a name, then a code block) is tried first,
      then one or more references joined by `,`. A reference list runs up to
      the first position where no `,` follows. */
  function ParseOpArgs(s: string): (r: PResult<OpArgs>)
    ensures r.Parsed? ==> WfArgs(r.value) && s == RenderArgs(r.value) + r.rest
    ensures r.Parsed? && r.value.Refs? ==> !("," <= r.rest)
    ensures r.SoftFail? <==> |s| == 0 || !IsWordChar(s[0])
  {
    var arg := CatalogEntry(s);
    var lambda := if arg.Parsed? then ParseCodeBlock(arg.rest) else SoftFail;
    if arg.Parsed? && lambda.Parsed? then
      LambdaGlue(s, arg.value, arg.rest, lambda.value, lambda.rest);
      Parsed(Lambda(arg.value, lambda.value), lambda.rest)
    else
      var first := CatalogEntry(s);
      if !first.Parsed? then SoftFail
      else
        var tail := RefTail(first.rest);
        if !tail.Parsed? then CutFail
        else
          RefsGlue(s, first.value, first.rest, tail.value, tail.rest);
          Parsed(Refs([first.value] + tail.value), tail.rest)
  }

  lemma LambdaGlue(s: string, arg: string, t: string, b: CodeBlock, u: string)
    requires IsWord(arg) && s == arg + t
    requires WfCodeBlock(b) && t == RenderCodeBlock(b) + u
    ensures WfArgs(Lambda(arg, b)) && s == RenderArgs(Lambda(arg, b)) + u
  {
  }

  lemma RefsGlue(s: string, w: string, t: string, names: seq<string>, u: string)
    requires IsWord(w) && s == w + t
    requires forall i :: 0 <= i < |names| ==> IsWord(names[i])
    requires t == SepPrefixed(names, ",") + u
    ensures WfArgs(Refs([w] + names)) && s == RenderArgs(Refs([w] + names)) + u
  {
    AllWords(w, names);
    JoinSepPrefixed(w, names, ",");
    Assoc(w, SepPrefixed(names, ","), u);
  }

  lemma Assoc(a: string, b: string, c: string)
    ensures a + (b + c) == (a + b) + c
  {
  }

  lemma AllWords(w: string, names: seq<string>)
    requires IsWord(w)
    requires forall i :: 0 <= i < |names| ==> IsWord(names[i])
    ensures forall i :: 0 <= i < |[w] + names| ==> IsWord(([w] + names)[i])
  {
    var all := [w] + names;
    forall i | 0 <= i < |all| ensures IsWord(all[i]) {
      if i > 0 { assert all[i] == names[i - 1]; }
    }
  }

  /** `op`: name, optional template parameters, `(`, optional arguments, `)`.
      A cut inside the optional parts is not absorbed by the option: it fails
      the operator, and with it the whole parse. */
  function ParseOp(s: string): (r: PResult<Op>)
    ensures r.Parsed? ==> WfOp(r.value) && s == RenderOp(r.value) + r.rest
    ensures ParseOpName(s).SoftFail? ==> r.SoftFail?
  {
    var name := ParseOpName(s);
    if !name.Parsed? then SoftFail
    else
      var params := ParseTemplateParams(name.rest);
      if params.CutFail? then CutFail
      else
        var plist := if params.Parsed? then Some(params.value) else None;
        var s2 := if params.Parsed? then params.rest else name.rest;
        if !("(" <= s2) then SoftFail
        else
          var a := ParseOpArgs(s2[1..]);
          if a.CutFail? then CutFail
          else
            var args := if a.Parsed? then Some(a.value) else None;
            var s4 := if a.Parsed? then a.rest else s2[1..];
            if !(")" <= s4) then SoftFail
            else
              OpGlue(s, name.value, name.rest, plist, s2, args, s4);
              Parsed(Op(name.value, plist, args), s4[1..])
  }

  /** The surface text of an operator, assembled from its parts. */
  lemma OpGlue(s: string, name: OpName, t: string, plist: Option<seq<string>>, s2: string,
               args: Option<OpArgs>, s4: string)
    requires s == OpNameText(name) + t
    requires plist.Some? ==> t == "<" + Concat(plist.value) + ">" + s2
    requires plist.None? ==> t == s2
    requires "(" <= s2
    requires args.Some? ==> s2[1..] == RenderArgs(args.value) + s4
    requires args.None? ==> s2[1..] == s4
    requires ")" <= s4
    ensures s == RenderOp(Op(name, plist, args)) + s4[1..]
  {
    var pt := if plist.Some? then "<" + Concat(plist.value) + ">" else "";
    var at := if args.Some? then RenderArgs(args.value) else "";
    assert t == pt + s2;
    assert s2[1..] == at + s4;
    BracketGlue(s, OpNameText(name), t, pt, s2, at, s4);
  }

  /** `s` read as a name, a parameter part, then an argument part in parentheses. */
  lemma BracketGlue(s: string, n: string, t: string, pt: string, s2: string, at: string, s4: string)
    requires s == n + t && t == pt + s2
    requires "(" <= s2 && s2[1..] == at + s4 && ")" <= s4
    ensures s == n + pt + "(" + at + ")" + s4[1..]
  {
    assert s2 == "(" + s2[1..];
    assert s4 == ")" + s4[1..];
  }

  /** Operator nodes at odd positions, `Dot` at even positions: what follows
      the first operator of a chain. */
  predicate WfChainTail(items: seq<ChainItem>) {
    && |items| % 2 == 0
    && forall i :: 0 <= i < |items| ==>
         (if i % 2 == 0 then items[i].Dot? else items[i].OpNode? && WfOp(items[i].op))
  }

  lemma RenderChainAppend(xs: seq<ChainItem>, ys: seq<ChainItem>)
    ensures RenderChain(xs + ys) == RenderChain(xs) + RenderChain(ys)
  {
    if |xs| > 0 {
      assert (xs + ys)[1..] == xs[1..] + ys;
      RenderChainAppend(xs[1..], ys);
    } else {
      assert xs + ys == ys;
    }
  }

  /** The repetition part of `'.'.{ op }+`: the repetition stops where no
      `.` follows; a `.` without an operator after it is a `CutFail`. */
  function ChainTail(s: string): (r: PResult<seq<ChainItem>>)
    ensures r.Parsed? ==> WfChainTail(r.value) && s == RenderChain(r.value) + r.rest
    ensures r.Parsed? ==> !("." <= r.rest)
    ensures !r.SoftFail?
    decreases |s|
  {
    if !("." <= s) then Parsed([], s)
    else
      var op := ParseOp(s[1..]);
      if !op.Parsed? then CutFail
      else
        var more := ChainTail(op.rest);
        if !more.Parsed? then CutFail
        else
          ChainTailStep(s, op.value, op.rest, more.value, more.rest);
          Parsed([Dot, OpNode(op.value)] + more.value, more.rest)
  }

  lemma ChainTailStep(s: string, op: Op, t: string, tail: seq<ChainItem>, u: string)
    requires "." <= s && s[1..] == RenderOp(op) + t && WfOp(op)
    requires WfChainTail(tail) && t == RenderChain(tail) + u
    ensures WfChainTail([Dot, OpNode(op)] + tail)
    ensures s == RenderChain([Dot, OpNode(op)] + tail) + u
  {
    ChainTailWf(op, tail);
    ChainTailRender(op, tail);
    var d, o, c := ".", RenderOp(op), RenderChain(tail);
    assert s == d + s[1..];
    calc {
      s;
      d + (o + (c + u));
      == { AppendAssoc(o, c, u); }
      d + ((o + c) + u);
      == { AppendAssoc(d, o + c, u); AppendAssoc(d, o, c); }
      ((d + o) + c) + u;
    }
  }

  lemma ChainTailWf(op: Op, tail: seq<ChainItem>)
    requires WfOp(op) && WfChainTail(tail)
    ensures WfChainTail([Dot, OpNode(op)] + tail)
  {
    var items := [Dot, OpNode(op)] + tail;
    forall i | 0 <= i < |items|
      ensures if i % 2 == 0 then items[i].Dot? else items[i].OpNode? && WfOp(items[i].op)
    {
      if i >= 2 { assert items[i] == tail[i - 2]; }
    }
  }

  lemma ChainTailRender(op: Op, tail: seq<ChainItem>)
    ensures RenderChain([Dot, OpNode(op)] + tail) == "." + RenderOp(op) + RenderChain(tail)
  {
    var items := [Dot, OpNode(op)] + tail;
    assert items[1..][1..] == tail;
    AppendAssoc(".", RenderOp(op), RenderChain(tail));
  }

  /** `opchain`: one or more operators joined by `.`, separators kept. A
      parsed chain runs up to the first position where no `.` follows. */
  function ParseOpChain(s: string): (r: PResult<seq<ChainItem>>)
    ensures r.Parsed? ==> WfChain(r.value) && s == RenderChain(r.value) + r.rest
    ensures r.Parsed? ==> !("." <= r.rest)
    ensures r.SoftFail? <==> ParseOp(s).SoftFail?
  {
    var first := ParseOp(s);
    if first.SoftFail? then SoftFail
    else if first.CutFail? then CutFail
    else
      var tail := ChainTail(first.rest);
      if !tail.Parsed? then CutFail
      else
        OpChainGlue(s, first.value, first.rest, tail.value, tail.rest);
        Parsed([OpNode(first.value)] + tail.value, tail.rest)
  }

  lemma OpChainGlue(s: string, op: Op, t: string, tail: seq<ChainItem>, u: string)
    requires s == RenderOp(op) + t && WfOp(op)
    requires WfChainTail(tail) && t == RenderChain(tail) + u
    ensures WfChain([OpNode(op)] + tail) && s == RenderChain([OpNode(op)] + tail) + u
  {
    var items := [OpNode(op)] + tail;
    assert items[1..] == tail;
    assert RenderChain(items) == RenderOp(op) + RenderChain(tail);
    AppendAssoc(RenderOp(op), RenderChain(tail), u);
    OpChainWf(op, tail);
  }

  lemma OpChainWf(op: Op, tail: seq<ChainItem>)
    requires WfOp(op) && WfChainTail(tail)
    ensures WfChain([OpNode(op)] + tail)
  {
    var items := [OpNode(op)] + tail;
    forall i | 0 <= i < |items|
      ensures if i % 2 == 0 then items[i].OpNode? && WfOp(items[i].op) else items[i].Dot?
    {
      if i > 0 { assert items[i] == tail[i - 1]; }
    }
  }

  /** `rhs`: (a) anchor `.` cut opchain, (b) opchain, (c) anchor. Once (a)
      has read its anchor and `.`, a failing opchain is a `CutFail`; a cut
      inside the opchain of (b) is one too. Whichever alternative succeeds,
      no `.` follows it. */
  function ParseRhs(s: string): (r: PResult<Rhs>)
    ensures r.Parsed? ==> WfRhs(r.value) && s == RenderRhs(r.value) + r.rest
    ensures r.Parsed? ==> !("." <= r.rest)
  {
    var anchor := CatalogEntry(s);
    if anchor.Parsed? && "." <= anchor.rest then
      var chain := ParseOpChain(anchor.rest[1..]);
      if chain.Parsed? then
        AnchoredGlue(s, anchor.value, anchor.rest, chain.value, chain.rest);
        Parsed(Rhs(Some(anchor.value), Some(chain.value)), chain.rest)
      else CutFail
    else
      var chain := ParseOpChain(s);
      if chain.Parsed? then
        assert RenderRhs(Rhs(None, Some(chain.value))) == RenderChain(chain.value);
        Parsed(Rhs(None, Some(chain.value)), chain.rest)
      else if chain.CutFail? then CutFail
      else if anchor.Parsed? then
        assert RenderRhs(Rhs(Some(anchor.value), None)) == anchor.value;
        Parsed(Rhs(Some(anchor.value), None), anchor.rest)
      else SoftFail
  }

  lemma AnchoredGlue(s: string, a: string, t: string, chain: seq<ChainItem>, u: string)
    requires IsWord(a) && s == a + t && "." <= t
    requires WfChain(chain) && t[1..] == RenderChain(chain) + u
    ensures WfRhs(Rhs(Some(a), Some(chain))) && s == RenderRhs(Rhs(Some(a), Some(chain))) + u
  {
    assert t == "." + t[1..];
  }

  /** `rule`: catalog entry, merge, rhs, `;`. */
  function ParseRule(s: string): (r: PResult<Rule>)
    ensures r.Parsed? ==> WfRule(r.value) && s == RenderRule(r.value) + r.rest
  {
    var lhs := CatalogEntry(s);
    if !lhs.Parsed? then SoftFail
    else
      var m := ParseMerge(lhs.rest);
      if !m.Parsed? then SoftFail
      else
        var rhs := ParseRhs(m.rest);
        if rhs.CutFail? then CutFail
        else if rhs.SoftFail? || !(";" <= rhs.rest) then SoftFail
        else
          RuleGlue(s, lhs.value, lhs.rest, m.value, m.rest, rhs.value, rhs.rest);
          Parsed(Rule(lhs.value, m.value, rhs.value), rhs.rest[1..])
  }

  lemma RuleGlue(s: string, lhs: string, t: string, m: Merge, t2: string, rhs: Rhs, u: string)
    requires s == lhs + t && t == MergeText(m) + t2 && t2 == RenderRhs(rhs) + u && ";" <= u
    ensures s == RenderRule(Rule(lhs, m, rhs)) + u[1..]
  {
    assert u == ";" + u[1..];
  }

  /** `start`: a rule followed by the end of the input. */
  function ParseStart(s: string): (r: PResult<Rule>)
    ensures r.Parsed? ==> WfRule(r.value) && s == RenderRule(r.value) && r.rest == ""
  {
    var rule := ParseRule(s);
    if rule.CutFail? then CutFail
    else if rule.SoftFail? || |rule.rest| > 0 then SoftFail
    else rule
  }
}
