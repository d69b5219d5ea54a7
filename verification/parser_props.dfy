/** The converse of the parser's contracts: every well-formed tree's surface
    text is read back as that tree, with the same rest. Together with the
    soundness ensures in `Parser`, this pins down the language `start`
    accepts: exactly the renderings of well-formed rules. */
module ParserProps {
  import opened Text
  import opened Ast
  import opened Parser

  // ---------------------------------------------------------------------
  // Tokens
  // ---------------------------------------------------------------------

  lemma {:induction false} SpanOf(x: string, t: string, k: CharClass)
    requires forall i :: 0 <= i < |x| ==> InClass(x[i], k)
    requires |t| == 0 || !InClass(t[0], k)
    ensures Span(x + t, k) == |x|
    decreases |x|
  {
    if |x| == 0 {
      assert x + t == t;
    } else {
      assert (x + t)[0] == x[0];
      assert (x + t)[1..] == x[1..] + t;
      SpanOf(x[1..], t, k);
    }
  }

  /** A greedy match stops exactly where the class ends. */
  lemma PatternComplete(x: string, t: string, k: CharClass)
    requires |x| > 0 && forall i :: 0 <= i < |x| ==> InClass(x[i], k)
    requires |t| == 0 || !InClass(t[0], k)
    ensures Pattern(x + t, k) == Parsed(x, t)
  {
    SpanOf(x, t, k);
    assert (x + t)[..|x|] == x;
    assert (x + t)[|x|..] == t;
  }

  lemma CatalogEntryComplete(w: string, t: string)
    requires IsWord(w)
    requires |t| == 0 || !IsWordChar(t[0])
    ensures CatalogEntry(w + t) == Parsed(w, t)
  {
    PatternComplete(w, t, WordClass);
  }

  /** Each merge token is read as itself, whatever follows it. */
  lemma MergeComplete(m: Merge, t: string)
    ensures ParseMerge(MergeText(m) + t) == Parsed(m, t)
  {
    var s := MergeText(m) + t;
    assert s[..2] == MergeText(m);
    assert s[2..] == t;
  }

  /** Each operator name is read as itself, whatever follows it. */
  lemma OpNameComplete(n: OpName, t: string)
    ensures ParseOpName(OpNameText(n) + t) == Parsed(n, t)
  {
    var w := OpNameText(n);
    var s := w + t;
    assert s[..|w|] == w;
    assert s[|w|..] == t;
    assert s[0] == w[0];
    if n == OpCross {
      assert s[1] == 'r';
    } else if n == OpGroupBy {
      assert s[0] == 'g';
    }
  }

  /** Each language tag is read as itself, unless a one-letter tag is
      followed by `++`, which the longer tag would take. */
  lemma LangComplete(lang: string, t: string)
    requires lang in LangTokens
    requires (lang == "C" || lang == "c") ==> !("++" <= t)
    ensures ParseLang(lang + t) == Parsed(lang, t)
  {
    var s := lang + t;
    assert s[..|lang|] == lang;
    assert s[|lang|..] == t;
    assert s[0] == lang[0];
    if lang == "C" || lang == "c" {
      if |s| >= 3 {
        assert s[1..3] == t[..2];
        assert s[..3] == [s[0]] + t[..2];
      }
    }
  }

  lemma NoPlusPlus(code: string, u: string)
    requires |code| > 0 && !("++" <= code)
    requires |u| > 0 && u[0] == '`'
    ensures !("++" <= code + u)
  {
    if |code| == 1 {
      assert (code + u)[1] == '`';
    } else {
      assert (code + u)[..2] == code[..2];
    }
  }

  lemma CodeBlockComplete(b: CodeBlock, t: string)
    requires WfCodeBlock(b)
    ensures ParseCodeBlock(RenderCodeBlock(b) + t) == Parsed(b, t)
  {
    var s := RenderCodeBlock(b) + t;
    var u := Fence + t;
    assert s == Fence + (b.lang + (b.code + u));
    assert s[..3] == Fence;
    assert s[3..] == b.lang + (b.code + u);
    if b.lang == "C" || b.lang == "c" {
      NoPlusPlus(b.code, u);
    }
    LangComplete(b.lang, b.code + u);
    assert forall i :: 0 <= i < |b.code| ==> InClass(b.code[i], CodeClass);
    assert u[0] == '`';
    PatternComplete(b.code, u, CodeClass);
    assert u[..3] == Fence;
    assert u[3..] == t;
  }

  // ---------------------------------------------------------------------
  // Template parameters and references
  // ---------------------------------------------------------------------

  /** A parameter list (or its tail) is followed by `,` or by what follows it. */
  lemma ParamTailHead(items: seq<string>, t: string)
    requires WfParamTail(items) && |items| > 0
    ensures (Concat(items) + t)[0] == ','
  {
    assert items[0] == ",";
    assert Concat(items) == "," + Concat(items[1..]);
  }

  lemma {:induction false} ParamTailComplete(items: seq<string>, t: string)
    requires WfParamTail(items) && ">" <= t
    ensures ParamTail(Concat(items) + t) == Parsed(items, t)
    decreases |items|
  {
    if |items| == 0 {
      assert Concat(items) + t == t;
      assert t[0] == '>';
    } else {
      var p := items[1];
      var rest := items[2..];
      var u := Concat(rest) + t;
      var s := Concat(items) + t;
      ParamTailSplit(items, t);
      assert Pattern(s[1..], ParamClass) == Parsed(p, u) by {
        assert IsParam(p);
        assert forall i :: 0 <= i < |p| ==> InClass(p[i], ParamClass);
        if |rest| > 0 {
          ParamTailHead(rest, t);
        } else {
          assert u == t;
        }
        PatternComplete(p, u, ParamClass);
      }
      ParamTailComplete(rest, t);
      ParamTailUnfold(s, p, u, rest, t);
      assert items == [",", p] + rest;
    }
  }

  /** The text of a non-empty parameter tail: `,`, the first parameter, the
      rest, which is a parameter tail itself. */
  lemma ParamTailSplit(items: seq<string>, t: string)
    requires WfParamTail(items) && |items| > 0
    ensures |items| >= 2 && items[0] == "," && WfParamTail(items[2..])
    ensures "," <= Concat(items) + t
    ensures (Concat(items) + t)[1..] == items[1] + (Concat(items[2..]) + t)
  {
    ParamTailRestWf(items);
    var c, p, r := items[0], items[1], Concat(items[2..]);
    ConcatTwo(items);
    AppendAssoc(c, p + r, t);
    AppendAssoc(p, r, t);
    DropFirst(c, (p + r) + t);
  }

  lemma ParamTailRestWf(items: seq<string>)
    requires WfParamTail(items) && |items| > 0
    ensures |items| >= 2 && items[0] == "," && WfParamTail(items[2..])
  {
    var rest := items[2..];
    forall i | 0 <= i < |rest| ensures if i % 2 == 0 then rest[i] == "," else IsParam(rest[i]) {
      assert rest[i] == items[i + 2];
    }
  }

  lemma ConcatTwo(items: seq<string>)
    requires |items| >= 2
    ensures Concat(items) == items[0] + (items[1] + Concat(items[2..]))
  {
    assert items[1..][1..] == items[2..];
  }

  lemma DropFirst(c: string, x: string)
    requires c == ","
    ensures "," <= c + x && (c + x)[1..] == x
  {
  }

  /** `ParamTail` in terms of the results of its parts. */
  lemma ParamTailUnfold(s: string, p: string, u: string, items: seq<string>, t: string)
    requires "," <= s && Pattern(s[1..], ParamClass) == Parsed(p, u) && ParamTail(u) == Parsed(items, t)
    ensures ParamTail(s) == Parsed([",", p] + items, t)
  {
  }

  /** `ParseTemplateParams` in terms of the results of its parts. */
  lemma TemplateParamsUnfold(s: string, p: string, u: string, items: seq<string>, gt: string)
    requires "<" <= s && Pattern(s[1..], ParamClass) == Parsed(p, u)
    requires ParamTail(u) == Parsed(items, gt) && ">" <= gt
    ensures ParseTemplateParams(s) == Parsed([p] + items, gt[1..])
  {
  }

  /** A template-parameter list is read back as itself, whatever follows. */
  lemma TemplateParamsComplete(items: seq<string>, t: string)
    requires WfParams(items)
    ensures ParseTemplateParams("<" + Concat(items) + ">" + t) == Parsed(items, t)
  {
    var p := items[0];
    var tail := items[1..];
    assert items == [p] + tail;
    assert WfParamTail(tail) by {
      forall i | 0 <= i < |tail| ensures if i % 2 == 0 then tail[i] == "," else IsParam(tail[i]) {
        assert tail[i] == items[i + 1];
      }
    }
    var gt := ">" + t;
    var u := Concat(tail) + gt;
    var s := "<" + Concat(items) + ">" + t;
    assert s[1..] == p + u by {
      assert Concat(items) == p + Concat(tail);
      assert s == "<" + (p + u);
    }
    assert Pattern(s[1..], ParamClass) == Parsed(p, u) by {
      assert IsParam(p);
      assert forall i :: 0 <= i < |p| ==> InClass(p[i], ParamClass);
      if |tail| > 0 {
        ParamTailHead(tail, gt);
      } else {
        assert u == gt;
      }
      PatternComplete(p, u, ParamClass);
    }
    assert ParamTail(u) == Parsed(tail, gt) by {
      ParamTailComplete(tail, gt);
    }
    assert gt[1..] == t;
    TemplateParamsUnfold(s, p, u, tail, gt);
  }

  lemma RefTailHead(names: seq<string>, t: string)
    requires |names| > 0
    ensures (SepPrefixed(names, ",") + t)[0] == ','
  {
  }

  lemma {:induction false} RefTailComplete(names: seq<string>, t: string)
    requires forall i :: 0 <= i < |names| ==> IsWord(names[i])
    requires ")" <= t
    ensures RefTail(SepPrefixed(names, ",") + t) == Parsed(names, t)
    decreases |names|
  {
    if |names| == 0 {
      assert SepPrefixed(names, ",") + t == t;
      assert t[0] == ')';
    } else {
      var w := names[0];
      var rest := names[1..];
      var u := SepPrefixed(rest, ",") + t;
      var s := SepPrefixed(names, ",") + t;
      RefTailSplit(names, t);
      assert CatalogEntry(s[1..]) == Parsed(w, u) by {
        if |rest| > 0 {
          RefTailHead(rest, t);
        } else {
          assert u == t;
        }
        CatalogEntryComplete(w, u);
      }
      assert RefTail(u) == Parsed(rest, t) by {
        forall i | 0 <= i < |rest| ensures IsWord(rest[i]) { assert rest[i] == names[i + 1]; }
        RefTailComplete(rest, t);
      }
      RefTailUnfold(s, w, u, rest, t);
      assert names == [w] + rest;
    }
  }

  /** The text of a non-empty reference tail: `,`, the first name, the rest. */
  lemma RefTailSplit(names: seq<string>, t: string)
    requires |names| > 0
    ensures "," <= SepPrefixed(names, ",") + t
    ensures (SepPrefixed(names, ",") + t)[1..] == names[0] + (SepPrefixed(names[1..], ",") + t)
  {
    var c, w, r := ",", names[0], SepPrefixed(names[1..], ",");
    assert SepPrefixed(names, ",") == c + w + r;
    AppendAssoc(c, w, r);
    AppendAssoc(c, w + r, t);
    AppendAssoc(w, r, t);
    assert (c + ((w + r) + t))[1..] == (w + r) + t;
  }

  /** `RefTail` in terms of the results of its parts. */
  lemma RefTailUnfold(s: string, w: string, u: string, names: seq<string>, t: string)
    requires "," <= s && CatalogEntry(s[1..]) == Parsed(w, u) && RefTail(u) == Parsed(names, t)
    ensures RefTail(s) == Parsed([w] + names, t)
  {
  }

  // ---------------------------------------------------------------------
  // Operators and chains
  // ---------------------------------------------------------------------

  /** Arguments are read back as themselves when the closing `)` follows. */
  lemma OpArgsComplete(a: OpArgs, t: string)
    requires WfArgs(a) && ")" <= t
    ensures ParseOpArgs(RenderArgs(a) + t) == Parsed(a, t)
  {
    match a
    case Lambda(arg, b) =>
      AppendAssoc(arg, RenderCodeBlock(b), t);
      LambdaArgsComplete(arg, b, t);
    case Refs(names) =>
      var w := names[0];
      var rest := names[1..];
      assert names == [w] + rest;
      JoinSepPrefixed(w, rest, ",");
      AppendAssoc(w, SepPrefixed(rest, ","), t);
      RefsArgsComplete(w, rest, t);
  }

  lemma LambdaArgsComplete(arg: string, b: CodeBlock, t: string)
    requires IsWord(arg) && WfCodeBlock(b) && ")" <= t
    ensures ParseOpArgs(arg + (RenderCodeBlock(b) + t)) == Parsed(Lambda(arg, b), t)
  {
    var u := RenderCodeBlock(b) + t;
    assert u[0] == '`';
    CatalogEntryComplete(arg, u);
    CodeBlockComplete(b, t);
    LambdaArgsSteps(arg + u, arg, u, b, t);
  }

  lemma RefsArgsComplete(w: string, rest: seq<string>, t: string)
    requires IsWord(w) && (forall i :: 0 <= i < |rest| ==> IsWord(rest[i])) && ")" <= t
    ensures ParseOpArgs(w + (SepPrefixed(rest, ",") + t)) == Parsed(Refs([w] + rest), t)
  {
    var u := SepPrefixed(rest, ",") + t;
    var c := RefsNext(rest, t);
    EntryBeforeSep(w, u);
    RefTailComplete(rest, t);
    RefsArgsSteps(w + u, w, u, rest, t);
  }

  /** A word followed by a separator or `)` is read as one catalog entry,
      and no code block follows it. */
  lemma EntryBeforeSep(w: string, u: string)
    requires IsWord(w) && |u| > 0 && (u[0] == ',' || u[0] == ')')
    ensures CatalogEntry(w + u) == Parsed(w, u)
    ensures !ParseCodeBlock(u).Parsed?
  {
    CatalogEntryComplete(w, u);
    NotFenced(u);
  }

  /** What follows a reference in a list: `,` before the next one, or the
      closing `)`. */
  lemma RefsNext(rest: seq<string>, t: string) returns (c: char)
    requires ")" <= t
    ensures |SepPrefixed(rest, ",") + t| > 0 && c == (SepPrefixed(rest, ",") + t)[0]
    ensures c == ',' || c == ')'
  {
    if |rest| > 0 {
      RefTailHead(rest, t);
    } else {
      assert SepPrefixed(rest, ",") + t == t;
      assert t[0] == ')';
    }
    c := (SepPrefixed(rest, ",") + t)[0];
  }

  /** A code block starts with its fence. */
  lemma NotFenced(u: string)
    requires |u| > 0 && u[0] != '`'
    ensures !ParseCodeBlock(u).Parsed?
  {
    assert !(Fence <= u);
  }

  lemma NoArgs(t: string)
    requires ")" <= t
    ensures ParseOpArgs(t) == SoftFail
  {
    assert t[0] == ')';
    assert CatalogEntry(t).SoftFail?;
    NoEntryNoArgs(t);
  }

  /** `ParseOpArgs` backs off when no catalog entry starts the text. */
  lemma NoEntryNoArgs(s: string)
    requires CatalogEntry(s).SoftFail?
    ensures ParseOpArgs(s) == SoftFail
  {
  }

  /** `ParseOpArgs` in terms of the results of its parts: the lambda
      alternative when a code block follows the entry. */
  lemma LambdaArgsSteps(s: string, arg: string, u: string, b: CodeBlock, t: string)
    requires CatalogEntry(s) == Parsed(arg, u) && ParseCodeBlock(u) == Parsed(b, t)
    ensures ParseOpArgs(s) == Parsed(Lambda(arg, b), t)
  {
  }

  /** `ParseOpArgs` in terms of the results of its parts: the reference
      list when no code block follows the first entry. */
  lemma RefsArgsSteps(s: string, w: string, u: string, rest: seq<string>, t: string)
    requires CatalogEntry(s) == Parsed(w, u) && !ParseCodeBlock(u).Parsed?
    requires RefTail(u) == Parsed(rest, t)
    ensures ParseOpArgs(s) == Parsed(Refs([w] + rest), t)
  {
  }

  lemma NoParams(t: string)
    requires "(" <= t
    ensures ParseTemplateParams(t) == SoftFail
  {
    assert t[0] == '(';
  }

  /** `ParseOp` in terms of the results of its parts. */
  lemma ParseOpSteps(s: string, n: OpName, u: string, plist: Option<seq<string>>, s2: string,
                     args: Option<OpArgs>, s4: string)
    requires ParseOpName(s) == Parsed(n, u)
    requires plist.Some? ==> ParseTemplateParams(u) == Parsed(plist.value, s2)
    requires plist.None? ==> ParseTemplateParams(u) == SoftFail && s2 == u
    requires "(" <= s2
    requires args.Some? ==> ParseOpArgs(s2[1..]) == Parsed(args.value, s4)
    requires args.None? ==> ParseOpArgs(s2[1..]) == SoftFail && s4 == s2[1..]
    requires ")" <= s4
    ensures ParseOp(s) == Parsed(Op(n, plist, args), s4[1..])
  {
  }

  /** Every well-formed operator is read back as itself, whatever follows. */
  lemma OpComplete(op: Op, t: string)
    requires WfOp(op)
    ensures ParseOp(RenderOp(op) + t) == Parsed(op, t)
  {
    var pt := if op.plist.Some? then "<" + Concat(op.plist.value) + ">" else "";
    var at := if op.args.Some? then RenderArgs(op.args.value) else "";
    var s4 := ")" + t;
    var s2 := "(" + (at + s4);
    var s := RenderOp(op) + t;
    assert s == OpNameText(op.opname) + (pt + s2);
    OpNameComplete(op.opname, pt + s2);
    if op.plist.Some? {
      assert pt + s2 == "<" + Concat(op.plist.value) + ">" + s2;
      TemplateParamsComplete(op.plist.value, s2);
    } else {
      assert pt + s2 == s2;
      NoParams(s2);
    }
    assert s2[1..] == at + s4;
    if op.args.Some? {
      OpArgsComplete(op.args.value, s4);
    } else {
      assert at + s4 == s4;
      NoArgs(s4);
    }
    assert s4[1..] == t;
    ParseOpSteps(s, op.opname, pt + s2, op.plist, s2, op.args, s4);
  }

  lemma RenderChainHead(items: seq<ChainItem>, t: string)
    requires WfChainTail(items) && |items| > 0
    ensures (RenderChain(items) + t)[0] == '.'
  {
    assert items[0] == Dot;
  }

  /** One round of `ChainTail`: a `.` and an operator, then the rest. */
  lemma ChainTailStepBack(s: string, op: Op, u: string, rest: seq<ChainItem>, t: string)
    requires "." <= s && ParseOp(s[1..]) == Parsed(op, u)
    requires ChainTail(u) == Parsed(rest, t)
    ensures ChainTail(s) == Parsed([Dot, OpNode(op)] + rest, t)
  {
  }

  lemma ChainTailRest(items: seq<ChainItem>)
    requires WfChainTail(items) && |items| > 0
    ensures |items| >= 2 && items[0] == Dot && items[1].OpNode? && WfOp(items[1].op)
    ensures items == [Dot, OpNode(items[1].op)] + items[2..]
    ensures WfChainTail(items[2..])
  {
    var rest := items[2..];
    forall i | 0 <= i < |rest|
      ensures if i % 2 == 0 then rest[i].Dot? else rest[i].OpNode? && WfOp(rest[i].op)
    {
      assert rest[i] == items[i + 2];
    }
  }

  lemma ChainTailText(op: Op, rest: seq<ChainItem>, t: string)
    ensures RenderChain([Dot, OpNode(op)] + rest) + t == "." + (RenderOp(op) + (RenderChain(rest) + t))
  {
    ChainTailRender(op, rest);
    var d, o, c := ".", RenderOp(op), RenderChain(rest);
    AppendAssoc(d, o, c);
    AppendAssoc(d, o + c, t);
    AppendAssoc(o, c, t);
  }

  lemma {:induction false} ChainTailComplete(items: seq<ChainItem>, t: string)
    requires WfChainTail(items) && ";" <= t
    ensures ChainTail(RenderChain(items) + t) == Parsed(items, t)
    decreases |items|
  {
    if |items| == 0 {
      assert RenderChain(items) + t == t;
      assert t[0] == ';';
    } else {
      ChainTailRest(items);
      var op := items[1].op;
      var rest := items[2..];
      ChainTailText(op, rest, t);
      var u := RenderChain(rest) + t;
      var s := RenderChain(items) + t;
      assert s[1..] == RenderOp(op) + u;
      OpComplete(op, u);
      ChainTailComplete(rest, t);
      ChainTailStepBack(s, op, u, rest, t);
    }
  }

  /** A chain is read back as itself when the rule's `;` follows. */
  lemma OpChainComplete(items: seq<ChainItem>, t: string)
    requires WfChain(items) && ";" <= t
    ensures ParseOpChain(RenderChain(items) + t) == Parsed(items, t)
  {
    var op := items[0].op;
    var tail := items[1..];
    assert items == [OpNode(op)] + tail;
    assert WfChainTail(tail) by {
      forall i | 0 <= i < |tail|
        ensures if i % 2 == 0 then tail[i].Dot? else tail[i].OpNode? && WfOp(tail[i].op)
      {
        assert tail[i] == items[i + 1];
      }
    }
    var u := RenderChain(tail) + t;
    assert RenderChain(items) + t == RenderOp(op) + u;
    OpComplete(op, u);
    ChainTailComplete(tail, t);
  }

  // ---------------------------------------------------------------------
  // Right-hand sides, rules and whole inputs
  // ---------------------------------------------------------------------

  lemma OpNameIsWord(n: OpName)
    ensures IsWord(OpNameText(n))
    ensures forall i :: 0 <= i < |OpNameText(n)| ==> IsLetter(OpNameText(n)[i])
  {
  }

  /** A chain's text starts with an operator name followed by `<` or `(`. */
  lemma ChainOpening(items: seq<ChainItem>, t: string)
    requires WfChain(items)
    ensures exists n: OpName, v: string ::
      RenderChain(items) + t == OpNameText(n) + v && |v| > 0 && (v[0] == '<' || v[0] == '(')
  {
    var op := items[0].op;
    var n := OpNameText(op.opname);
    var rest := OpAfterName(op);
    var r := RenderChain(items[1..]);
    assert RenderChain(items) == RenderOp(op) + r;
    AppendAssoc(n, rest, r);
    AppendAssoc(n, rest + r, t);
    AppendAssoc(rest, r, t);
    assert (rest + r + t)[0] == rest[0];
  }

  /** What follows an operator's name in its text: its parameters, if any,
      then its parenthesised arguments. */
  function OpAfterName(op: Op): (r: string)
    ensures RenderOp(op) == OpNameText(op.opname) + r
    ensures |r| > 0 && (r[0] == '<' || r[0] == '(')
  {
    var p := if op.plist.Some? then "<" + Concat(op.plist.value) + ">" else "";
    var a := if op.args.Some? then RenderArgs(op.args.value) else "";
    var n, o, c := OpNameText(op.opname), "(", ")";
    AppendAssoc(n, p, o);
    AppendAssoc(n, p + o, a);
    AppendAssoc(n, (p + o) + a, c);
    assert ((p + o) + a + c)[0] == (if |p| > 0 then p[0] else o[0]);
    ((p + o) + a) + c
  }

  /** An operator name is never the whole of a reference followed by `;`. */
  lemma LettersWithin(w: string, a: string, t: string)
    requires forall i :: 0 <= i < |w| ==> IsLetter(w[i])
    requires w <= a + t
    requires |t| > 0 && !IsLetter(t[0])
    ensures |w| <= |a|
  {
    assert (a + t)[|a|] == t[0];
    assert forall i :: 0 <= i < |w| ==> (a + t)[i] == w[i];
  }

  /** A bare reference followed by `;` does not start an operator. */
  lemma WordIsNoOp(a: string, t: string)
    requires IsWord(a) && ";" <= t
    ensures ParseOp(a + t) == SoftFail
  {
    var s := a + t;
    var name := ParseOpName(s);
    if name.Parsed? {
      var w := OpNameText(name.value);
      OpNameIsWord(name.value);
      LettersWithin(w, a, t);
      var k := |w|;
      assert name.rest == s[k..];
      assert s[k] == if k < |a| then a[k] else t[0];
      assert name.rest[0] != '<' && name.rest[0] != '(';
      NoParamsAt(name.rest);
    }
  }

  lemma NoParamsAt(u: string)
    requires |u| > 0 && u[0] != '<'
    ensures ParseTemplateParams(u) == SoftFail
  {
  }

  lemma AnchoredComplete(a: string, chain: seq<ChainItem>, t: string)
    requires IsWord(a) && WfChain(chain) && ";" <= t
    ensures ParseRhs(a + "." + RenderChain(chain) + t) == Parsed(Rhs(Some(a), Some(chain)), t)
  {
    var c := RenderChain(chain) + t;
    var u := "." + c;
    assert a + "." + RenderChain(chain) + t == a + u by {
      AppendAssoc(a + ".", RenderChain(chain), t);
      AppendAssoc(a, ".", c);
    }
    CatalogEntryComplete(a, u);
    assert u[1..] == c;
    OpChainComplete(chain, t);
    AnchoredSteps(a + u, a, u, chain, t);
  }

  /** `ParseRhs` in terms of its anchored alternative's parts. */
  lemma AnchoredSteps(s: string, a: string, u: string, chain: seq<ChainItem>, t: string)
    requires CatalogEntry(s) == Parsed(a, u) && "." <= u
    requires ParseOpChain(u[1..]) == Parsed(chain, t)
    ensures ParseRhs(s) == Parsed(Rhs(Some(a), Some(chain)), t)
  {
  }

  lemma ChainOnlyComplete(chain: seq<ChainItem>, t: string)
    requires WfChain(chain) && ";" <= t
    ensures ParseRhs(RenderChain(chain) + t) == Parsed(Rhs(None, Some(chain)), t)
  {
    var s := RenderChain(chain) + t;
    ChainOpening(chain, t);
    var n: OpName, v: string :| s == OpNameText(n) + v && |v| > 0 && (v[0] == '<' || v[0] == '(');
    OpNameIsWord(n);
    CatalogEntryComplete(OpNameText(n), v);
    OpChainComplete(chain, t);
  }

  lemma AnchorOnlyComplete(a: string, t: string)
    requires IsWord(a) && ";" <= t
    ensures ParseRhs(a + t) == Parsed(Rhs(Some(a), None), t)
  {
    CatalogEntryComplete(a, t);
    WordIsNoOp(a, t);
  }

  /** Each well-formed right-hand side is read back as itself when the rule's
      `;` follows, whichever of the three alternatives produced it. */
  lemma RhsComplete(r: Rhs, t: string)
    requires WfRhs(r) && ";" <= t
    ensures ParseRhs(RenderRhs(r) + t) == Parsed(r, t)
  {
    if r.anchor.Some? && r.chain.Some? {
      assert RenderRhs(r) == r.anchor.value + "." + RenderChain(r.chain.value);
      AnchoredComplete(r.anchor.value, r.chain.value, t);
    } else if r.chain.Some? {
      assert RenderRhs(r) == RenderChain(r.chain.value);
      ChainOnlyComplete(r.chain.value, t);
    } else {
      assert RenderRhs(r) == r.anchor.value;
      AnchorOnlyComplete(r.anchor.value, t);
    }
  }

  /** `ParseRule` in terms of the results of its parts. */
  lemma ParseRuleSteps(s: string, lhs: string, u: string, m: Merge, u2: string, rhs: Rhs, u3: string)
    requires CatalogEntry(s) == Parsed(lhs, u)
    requires ParseMerge(u) == Parsed(m, u2)
    requires ParseRhs(u2) == Parsed(rhs, u3) && ";" <= u3
    ensures ParseRule(s) == Parsed(Rule(lhs, m, rhs), u3[1..])
  {
  }

  /** Every well-formed rule is read back as itself, whatever follows. */
  lemma RuleComplete(r: Rule, t: string)
    requires WfRule(r)
    ensures ParseRule(RenderRule(r) + t) == Parsed(r, t)
  {
    var u3 := ";" + t;
    var u2 := RenderRhs(r.rhs) + u3;
    var u := MergeText(r.mtype) + u2;
    var s := RenderRule(r) + t;
    assert s == r.lhs + u by {
      RuleTextSplit(r.lhs, MergeText(r.mtype), RenderRhs(r.rhs), ";", t);
    }
    assert CatalogEntry(s) == Parsed(r.lhs, u) by {
      assert u[0] == '<';
      CatalogEntryComplete(r.lhs, u);
    }
    assert ParseMerge(u) == Parsed(r.mtype, u2) by {
      MergeComplete(r.mtype, u2);
    }
    assert ParseRhs(u2) == Parsed(r.rhs, u3) by {
      RhsComplete(r.rhs, u3);
    }
    assert u3[1..] == t;
    ParseRuleSteps(s, r.lhs, u, r.mtype, u2, r.rhs, u3);
  }

  /** Regrouping the four parts of a rule's text and what follows it. */
  lemma RuleTextSplit(a: string, b: string, c: string, d: string, t: string)
    ensures a + b + c + d + t == a + (b + (c + (d + t)))
  {
    AppendAssoc(a + b + c, d, t);
    AppendAssoc(a + b, c, d + t);
    AppendAssoc(a, b, c + (d + t));
  }

  /** The language of `start`: an input parses completely to `r` exactly when
      `r` is well formed and the input is its surface text. */
  lemma StartExact(s: string, r: Rule)
    ensures ParseStart(s) == Parsed(r, "") <==> WfRule(r) && s == RenderRule(r)
  {
    if WfRule(r) && s == RenderRule(r) {
      RuleComplete(r, "");
      assert RenderRule(r) + "" == s;
    }
  }

  /** Text after the closing `;` makes the whole input fail. */
  lemma TrailingTextRejected(r: Rule, t: string)
    requires WfRule(r) && |t| > 0
    ensures ParseStart(RenderRule(r) + t) == SoftFail
  {
    RuleComplete(r, t);
  }

  /** Distinct well-formed rules have distinct surface texts, so a parse is
      never ambiguous. */
  lemma RenderRuleInjective(r1: Rule, r2: Rule)
    requires WfRule(r1) && WfRule(r2) && RenderRule(r1) == RenderRule(r2)
    ensures r1 == r2
  {
    StartExact(RenderRule(r1), r1);
    StartExact(RenderRule(r1), r2);
  }

  /** The cut: once the anchor and its `.` are read, a chain that does not
      parse fails the whole input; the anchor-only alternative is never
      tried. */
  lemma CutIsFinal(lhs: string, m: Merge, a: string, t: string)
    requires IsWord(lhs) && IsWord(a)
    requires !ParseOpChain(t).Parsed?
    ensures ParseStart(lhs + MergeText(m) + a + "." + t) == CutFail
  {
    var u2 := a + "." + t;
    var u := MergeText(m) + u2;
    var s := lhs + MergeText(m) + a + "." + t;
    assert s == lhs + u by {
      AppendAssoc(lhs, MergeText(m), a + "." + t);
      assert lhs + MergeText(m) + a + "." + t == lhs + MergeText(m) + (a + "." + t);
    }
    assert u[0] == '<';
    CatalogEntryComplete(lhs, u);
    MergeComplete(m, u2);
    RhsCut(a, t);
    assert ParseRule(s) == CutFail;
  }

  /** Once `anchor.` is read, a chain that does not parse fails the
      right-hand side for good. */
  lemma RhsCut(a: string, t: string)
    requires IsWord(a) && !ParseOpChain(t).Parsed?
    ensures ParseRhs(a + "." + t) == CutFail
  {
    var u := "." + t;
    assert CatalogEntry(a + "." + t) == Parsed(a, u) by {
      assert a + "." + t == a + u;
      CatalogEntryComplete(a, u);
    }
    assert "." <= u && u[1..] == t;
  }

  // ---------------------------------------------------------------------
  // The cut after a join's separator
  // ---------------------------------------------------------------------

  /** A `,` in a template-parameter list with no parameter after it fails
      the list for good: the join does not stop before the separator. */
  lemma ParamsSeparatorCut(p: string, t: string)
    requires IsParam(p) && (|t| == 0 || !IsParamChar(t[0]))
    ensures ParseTemplateParams("<" + p + "," + t) == CutFail
  {
    var u := "," + t;
    var s := "<" + p + "," + t;
    assert s == "<" + (p + u) by {
      AppendAssoc("<" + p, ",", t);
      AppendAssoc("<", p, u);
    }
    assert s[1..] == p + u;
    assert forall i :: 0 <= i < |p| ==> InClass(p[i], ParamClass);
    assert !IsParamChar(',');
    PatternComplete(p, u, ParamClass);
    assert u[1..] == t;
    assert Pattern(t, ParamClass) == SoftFail;
  }

  /** A `,` in a reference list with no reference after it fails the
      arguments for good, although the first reference alone would do. */
  lemma RefsSeparatorCut(w: string, t: string)
    requires IsWord(w) && (|t| == 0 || !IsWordChar(t[0]))
    ensures ParseOpArgs(w + "," + t) == CutFail
  {
    var u := "," + t;
    assert w + "," + t == w + u;
    EntryBeforeSep(w, u);
    assert u[1..] == t;
    assert RefTail(u) == CutFail;
  }

  /** A `.` in a chain with no operator after it fails the chain for good,
      although the operators before it would form a chain. */
  lemma ChainSeparatorCut(op: Op, t: string)
    requires WfOp(op) && !ParseOp(t).Parsed?
    ensures ParseOpChain(RenderOp(op) + "." + t) == CutFail
  {
    var u := "." + t;
    assert RenderOp(op) + "." + t == RenderOp(op) + u;
    OpComplete(op, u);
    assert u[1..] == t;
    assert ChainTail(u) == CutFail;
  }

  /** A cut inside an operator's arguments is not absorbed by the optional
      argument part: the operator fails for good. */
  lemma ArgsCutFailsOp(n: OpName, a: string)
    requires ParseOpArgs(a) == CutFail
    ensures ParseOp(OpNameText(n) + "(" + a) == CutFail
  {
    var u := "(" + a;
    assert OpNameText(n) + "(" + a == OpNameText(n) + u;
    OpNameComplete(n, u);
    NoParamsAt(u);
    assert u[1..] == a;
  }

  /** `anchor.op(w,)` followed by anything fails the right-hand side for
      good: the dangling `,` cuts inside the arguments, and the cut reaches
      the rule. */
  lemma DanglingCommaFailsRhs(a: string, n: OpName, w: string, t: string)
    requires IsWord(a) && IsWord(w)
    ensures ParseRhs(a + "." + (OpNameText(n) + "(" + (w + "," + (")" + t)))) == CutFail
  {
    var c := ")" + t;
    assert c[0] == ')';
    RefsSeparatorCut(w, c);
    assert w + "," + c == w + ("," + c);
    ArgsCutFailsOp(n, w + "," + c);
    var chain := OpNameText(n) + "(" + (w + "," + c);
    assert ParseOpChain(chain) == CutFail;
    RhsCut(a, chain);
  }

  /** `t<=r.bogus;` fails hard: `bogus` is no operator name. */
  lemma CutExample()
    ensures ParseStart("t<=r.bogus;") == CutFail
  {
    assert "t<=r.bogus;" == "t" + MergeText(Now) + "r" + "." + "bogus;";
    var b := "bogus;";
    assert b[0] == 'b';
    assert ParseOpName(b) == SoftFail;
    CutIsFinal("t", Now, "r", "bogus;");
  }
}
