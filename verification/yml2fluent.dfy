/** The direct translator from a parsed rule to a Fluent C++ operator-chain
    expression: every rule becomes `lhs op (stage | stage | ...)`, where the
    stages are the wrapped anchor collection and the translated operators,
    in textual order. */
module Yml2Fluent {
  import opened Text
  import opened OrderedMaps
  import opened Ast
  import opened Parser
  import opened ParserProps

  // ---------------------------------------------------------------------
  // Merge operators and operator names
  // ---------------------------------------------------------------------

  /** `convert_mtype`, applied to the merge token the parser read. */
  function ConvertMtype(m: string): (r: string)
    ensures r == "+=" <==> m == "<+"
    ensures r == "-=" <==> m == "<-"
    ensures r == "<=" <==> m != "<+" && m != "<-"
  {
    if m == "<+" then "+=" else if m == "<-" then "-=" else "<="
  }

  /** The C++ merge operator each merge kind stands for. */
  function MergeOperator(m: Merge): string {
    match m
    case Now => "<="
    case Next => "+="
    case Async => "<="
    case Delete => "-="
  }

  /** The token-level translation agrees with the per-kind table; in
      particular asynchronous merges collapse onto immediate ones. */
  lemma ConvertMtypeOfMerge(m: Merge)
    ensures ConvertMtype(MergeText(m)) == MergeOperator(m)
    ensures ConvertMtype(MergeText(Async)) == ConvertMtype(MergeText(Now))
  {
  }

  /** The renaming in `translate_op`: `cross` and `where` get their Fluent
      names, every other name passes through. */
  function CppOpName(name: string): (r: string)
    ensures name == "cross" ==> r == "make_cross"
    ensures name == "where" ==> r == "filter"
    ensures name != "cross" && name != "where" ==> r == name
  {
    if name == "cross" then "make_cross" else if name == "where" then "filter" else name
  }

  /** No two operators of the grammar land on the same Fluent operator. */
  lemma CppOpNameInjective(a: OpName, b: OpName)
    requires CppOpName(OpNameText(a)) == CppOpName(OpNameText(b))
    ensures a == b
  {
  }

  // ---------------------------------------------------------------------
  // Collections and arguments
  // ---------------------------------------------------------------------

  /** `wrap_collection`: a collection reference as a Fluent source. */
  function WrapCollection(c: string, wrap: string): string {
    "lra::" + wrap + "(&" + c + ")"
  }

  /** Reads the collection name back out of a wrapped reference. */
  function UnwrapCollection(s: string, wrap: string): (r: Option<string>)
    ensures r.Some? ==> WrapCollection(r.value, wrap) == s
  {
    var head := "lra::" + wrap + "(&";
    if |s| >= |head| + 1 && head <= s && s[|s| - 1] == ')' then
      var c := s[|head|..|s| - 1];
      assert s == s[..|head|] + c + [s[|s| - 1]];
      Some(c)
    else None
  }

  lemma WrapCollectionRoundTrip(c: string, wrap: string)
    ensures UnwrapCollection(WrapCollection(c, wrap), wrap) == Some(c)
  {
    var head := "lra::" + wrap + "(&";
    var s := WrapCollection(c, wrap);
    assert s == head + c + ")";
    assert s[..|head|] == head;
    assert s[|head|..|s| - 1] == c;
  }

  function WrapAll(names: seq<string>, wrap: string): (r: seq<string>)
    ensures |r| == |names|
    ensures forall i :: 0 <= i < |names| ==> r[i] == WrapCollection(names[i], wrap)
  {
    if |names| == 0 then [] else [WrapCollection(names[0], wrap)] + WrapAll(names[1..], wrap)
  }

  /** The C++ lambda a code-block argument becomes. */
  function LambdaText(arg: string, code: string): string {
    "[&](const auto& " + arg + ")" + code
  }

  /** `translate_op_args`: the lambda shape, or each reference wrapped and
      the wrapped references joined by `, `. The language tag is dropped. */
  function TranslateOpArgs(a: OpArgs, wrap: string): (r: string)
    ensures a.Lambda? ==> |r| >= |a.block.code| && r[|r| - |a.block.code|..] == a.block.code
    ensures a.Refs? ==> (r == "" <==> |a.catitems| == 0)
  {
    match a
    case Lambda(arg, b) => LambdaText(arg, b.code)
    case Refs(names) => Join(WrapAll(names, wrap), ", ")
  }

  /** The reference list is one wrapped collection per reference, in order:
      splitting the translation at `,` gives them back. */
  lemma RefsArgsSplit(names: seq<string>, wrap: string)
    requires |names| > 0 && forall i :: 0 <= i < |names| ==> IsWord(names[i])
    requires !Contains(wrap, ',')
    ensures Split(TranslateOpArgs(Refs(names), wrap), ", ") == WrapAll(names, wrap)
  {
    WrapAllLacksComma(names, wrap);
    SplitJoin(WrapAll(names, wrap), ", ");
  }

  /** No wrapped reference holds a comma when neither the names nor the wrap
      do. */
  lemma WrapAllLacksComma(names: seq<string>, wrap: string)
    requires forall i :: 0 <= i < |names| ==> IsWord(names[i])
    requires !Contains(wrap, ',')
    ensures forall i :: 0 <= i < |names| ==> !Contains(WrapAll(names, wrap)[i], ',')
  {
    var ws := WrapAll(names, wrap);
    forall i | 0 <= i < |ws| ensures !Contains(ws[i], ',') {
      assert ws[i] == "lra::" + wrap + "(&" + names[i] + ")";
      forall j | 0 <= j < |ws[i]| ensures ws[i][j] != ',' {
        var k := |"lra::" + wrap + "(&"|;
        if |"lra::"| <= j < |"lra::"| + |wrap| {
          assert ws[i][j] == wrap[j - |"lra::"|];
        } else if k <= j < k + |names[i]| {
          assert ws[i][j] == names[i][j - k];
          assert IsWordChar(names[i][j - k]);
        }
      }
    }
  }

  // ---------------------------------------------------------------------
  // The catalog-item list as the rule grammar's tree library builds it
  // ---------------------------------------------------------------------

  /** A name given to a node repeatedly inside a `%{ }` join holds the bare
      node the first time and a list from the second time on. */
  datatype CatItem = Single(name: string) | Several(names: seq<string>)

  function CatItemOf(names: seq<string>): CatItem
    requires |names| > 0
  {
    if |names| == 1 then Single(names[0]) else Several(names)
  }

  /** Python's `for a in catitem`: a bare string is iterated one character
      at a time. */
  function IterateCatItem(c: CatItem): (r: seq<string>)
    ensures c.Single? ==> |r| == |c.name| && forall i :: 0 <= i < |r| ==> r[i] == [c.name[i]]
    ensures c.Several? ==> r == c.names
  {
    match c
    case Single(s) => seq(|s|, i requires 0 <= i < |s| => [s[i]])
    case Several(xs) => xs
  }

  /** `translate_op_args` as written: the references are whatever iterating
      the `catitem` node yields. */
  function TranslateOpArgsAsWritten(a: OpArgs, wrap: string): string
    requires a.Refs? ==> |a.catitems| > 0
  {
    match a
    case Lambda(arg, b) => LambdaText(arg, b.code)
    case Refs(names) => Join(WrapAll(IterateCatItem(CatItemOf(names)), wrap), ", ")
  }

  /** With two or more references, or a one-letter reference, the code as
      written produces the intended text. */
  lemma AsWrittenAgreesOnLists(a: OpArgs, wrap: string)
    requires a.Refs? ==> |a.catitems| > 1 || (|a.catitems| == 1 && |a.catitems[0]| == 1)
    ensures TranslateOpArgsAsWritten(a, wrap) == TranslateOpArgs(a, wrap)
  {
    if a.Refs? && |a.catitems| == 1 {
      var c := a.catitems[0];
      assert [c[0]] == c;
      assert IterateCatItem(CatItemOf(a.catitems)) == [c];
      assert a.catitems == [c];
    }
  }

  /** A single reference of two or more characters, such as `where(rel)`,
      is misread as written: the first wrapped collection is its first
      character alone, where the intended text names the whole reference. */
  lemma AsWrittenMisreadsSingleReference(c: string, wrap: string)
    requires IsWord(c) && |c| >= 2
    ensures TranslateOpArgsAsWritten(Refs([c]), wrap) != TranslateOpArgs(Refs([c]), wrap)
  {
    var h := "lra::" + wrap + "(&";
    var it := IterateCatItem(CatItemOf([c]));
    var ws := WrapAll(it, wrap);
    assert |ws| >= 2;
    var asWritten := Join(ws, ", ");
    assert asWritten == ws[0] + ", " + Join(ws[1..], ", ");
    assert ws[0] == h + [c[0]] + ")";
    assert asWritten[|h| + 1] == ')';
    var intended := TranslateOpArgs(Refs([c]), wrap);
    assert intended == h + c + ")";
    assert intended[|h| + 1] == c[1];
    assert IsWordChar(c[1]);
  }

  // ---------------------------------------------------------------------
  // Operators and chains
  // ---------------------------------------------------------------------

  function ParamsText(plist: Option<seq<string>>): string {
    if plist.Some? then "<" + Concat(plist.value) + ">" else ""
  }

  /** What a translated operator starts with: `lra::`, the Fluent name, the
      template parameters verbatim (separators included) and `(`. */
  function OpHead(op: Op): string {
    "lra::" + CppOpName(OpNameText(op.opname)) + ParamsText(op.plist) + "("
  }

  /** `translate_op`: the head, then the arguments, then `)`. The text
      between the parentheses is nothing for no arguments, the C++ lambda for
      a code block, and otherwise splits back at `, ` into the wrapped
      references, in order. */
  function TranslateOp(op: Op, wrap: string): (r: string)
    ensures |r| > |OpHead(op)| && r[..|OpHead(op)|] == OpHead(op) && r[|r| - 1] == ')'
    ensures op.args.None? ==> r == OpHead(op) + ")"
    ensures op.args.Some? && op.args.value.Lambda? ==>
              r[|OpHead(op)|..|r| - 1] == LambdaText(op.args.value.argname, op.args.value.block.code)
    ensures op.args.Some? && WfArgs(op.args.value) && op.args.value.Refs? && !Contains(wrap, ',') ==>
              Split(r[|OpHead(op)|..|r| - 1], ", ") == WrapAll(op.args.value.catitems, wrap)
  {
    var inner := if op.args.Some? then TranslateOpArgs(op.args.value, wrap) else "";
    HeadInnerClose(OpHead(op), inner);
    if op.args.Some? && WfArgs(op.args.value) && op.args.value.Refs? && !Contains(wrap, ',') then
      RefsArgsSplit(op.args.value.catitems, wrap);
      OpHead(op) + inner + ")"
    else
      OpHead(op) + inner + ")"
  }

  /** A text built as head, inner part and `)` gives its parts back. */
  lemma HeadInnerClose(h: string, x: string)
    ensures (h + x + ")")[..|h|] == h && (h + x + ")")[|h|..|h + x + ")"| - 1] == x
  {
  }

  /** `translate_op` as written: the arguments go through
      `TranslateOpArgsAsWritten`, which iterates the `catitem` node. */
  function TranslateOpAsWritten(op: Op, wrap: string): string
    requires op.args.Some? && op.args.value.Refs? ==> |op.args.value.catitems| > 0
  {
    OpHead(op) + (if op.args.Some? then TranslateOpArgsAsWritten(op.args.value, wrap) else "") + ")"
  }

  /** The operator as written and as corrected agree except on a single
      reference of two or more characters. */
  lemma AsWrittenOpAgrees(op: Op, wrap: string)
    requires op.args.Some? && op.args.value.Refs? ==>
               |op.args.value.catitems| > 1 || (|op.args.value.catitems| == 1 && |op.args.value.catitems[0]| == 1)
    ensures TranslateOpAsWritten(op, wrap) == TranslateOp(op, wrap)
  {
    if op.args.Some? {
      AsWrittenAgreesOnLists(op.args.value, wrap);
    }
  }

  /** An operator with a single reference of two or more characters, such
      as `join(bc)`, translates differently as written. */
  lemma AsWrittenOpMisreads(n: OpName, plist: Option<seq<string>>, c: string, wrap: string)
    requires IsWord(c) && |c| >= 2
    ensures TranslateOpAsWritten(Op(n, plist, Some(Refs([c]))), wrap) != TranslateOp(Op(n, plist, Some(Refs([c]))), wrap)
  {
    var op := Op(n, plist, Some(Refs([c])));
    var w := TranslateOpArgsAsWritten(Refs([c]), wrap);
    var x := TranslateOpArgs(Refs([c]), wrap);
    AsWrittenMisreadsSingleReference(c, wrap);
    HeadInnerClose(OpHead(op), w);
    HeadInnerClose(OpHead(op), x);
  }

  /** The template parameters are copied into the translation exactly as
      they appear in the parsed input: both texts carry the same
      characters between `<` and `>`, right after the operator's name. */
  lemma ParamsVerbatim(s: string, op: Op, t: string, wrap: string)
    requires ParseOp(s) == Parsed(op, t) && op.plist.Some?
    ensures ParamsEnclosedAt(s, |OpNameText(op.opname)|, Concat(op.plist.value))
    ensures ParamsEnclosedAt(TranslateOp(op, wrap), |"lra::" + CppOpName(OpNameText(op.opname))|, Concat(op.plist.value))
  {
    var name := OpNameText(op.opname);
    var head := "lra::" + CppOpName(name);
    var params := Concat(op.plist.value);
    var args := if op.args.Some? then RenderArgs(op.args.value) else "";
    var inner := if op.args.Some? then TranslateOpArgs(op.args.value, wrap) else "";
    var tr := TranslateOp(op, wrap);
    assert s == name + "<" + params + ">" + ("(" + args + ")" + t) by {
      assert s == RenderOp(op) + t;
      OpTextSplit(name, params, args, t);
    }
    assert tr == head + "<" + params + ">" + ("(" + inner + ")") by {
      assert OpHead(op) == head + ("<" + params + ">") + "(";
      assert tr == OpHead(op) + inner + ")";
      HeadTextSplit(head, params, inner);
    }
    EnclosedParams(s, name, params, "(" + args + ")" + t);
    EnclosedParams(tr, head, params, "(" + inner + ")");
  }

  /** An operator's text regrouped around its parameters. */
  lemma OpTextSplit(a: string, p: string, x: string, t: string)
    ensures a + ("<" + p + ">") + "(" + x + ")" + t == a + "<" + p + ">" + ("(" + x + ")" + t)
  {
  }

  /** A translated operator's text regrouped around its parameters. */
  lemma HeadTextSplit(h: string, p: string, x: string)
    ensures h + ("<" + p + ">") + "(" + x + ")" == h + "<" + p + ">" + ("(" + x + ")")
  {
  }

  /** Where `<`, the parameters and `>` sit in a text that carries them
      after a prefix. */
  lemma EnclosedParams(s: string, a: string, x: string, b: string)
    requires s == a + "<" + x + ">" + b
    ensures ParamsEnclosedAt(s, |a|, x)
  {
  }

  /** The text `w` carries `x` between a `<` at position `i` and the
      matching `>`. */
  predicate ParamsEnclosedAt(w: string, i: nat, x: string)
  {
    && i + |x| + 1 < |w| && w[i] == '<' && w[i + |x| + 1] == '>'
    && w[i + 1..i + |x| + 1] == x
  }


  /** The operator nodes of a chain, separators dropped. */
  function OpsOf(items: seq<ChainItem>): (r: seq<Op>)
    ensures |r| <= |items|
  {
    if |items| == 0 then []
    else if items[0].OpNode? then [items[0].op] + OpsOf(items[1..])
    else OpsOf(items[1..])
  }

  /** In a well-formed chain the operators sit at the even positions. */
  lemma {:induction false} OpsOfChain(items: seq<ChainItem>)
    requires WfChain(items)
    ensures |OpsOf(items)| == (|items| + 1) / 2
    ensures forall i :: 0 <= i < |OpsOf(items)| ==> OpsOf(items)[i] == items[2 * i].op
    decreases |items|
  {
    if |items| > 1 {
      var rest := items[2..];
      assert WfChain(rest) by {
        forall i | 0 <= i < |rest|
          ensures if i % 2 == 0 then rest[i].OpNode? && WfOp(rest[i].op) else rest[i].Dot?
        {
          assert rest[i] == items[i + 2];
        }
      }
      OpsOfChain(rest);
      assert items[1..][1..] == rest;
      assert OpsOf(items) == [items[0].op] + OpsOf(rest);
      forall i | 0 < i < |OpsOf(items)| ensures OpsOf(items)[i] == items[2 * i].op {
        assert OpsOf(items)[i] == OpsOf(rest)[i - 1];
        assert rest[2 * (i - 1)] == items[2 * i];
      }
    }
  }

  function TranslateOps(ops: seq<Op>, wrap: string): (r: seq<string>)
    ensures |r| == |ops|
    ensures forall i :: 0 <= i < |ops| ==> r[i] == TranslateOp(ops[i], wrap)
  {
    if |ops| == 0 then [] else [TranslateOp(ops[0], wrap)] + TranslateOps(ops[1..], wrap)
  }

  /** `translate_chain`: the operators' translations joined by ` | `. */
  function TranslateChain(items: seq<ChainItem>, wrap: string): string {
    Join(TranslateOps(OpsOf(items), wrap), " | ")
  }

  /** A chain translates operator by operator, following its structure: a
      lone operator gives its own translation, and a longer chain gives its
      first operator's translation, ` | `, and the translation of the chain
      after the first `.`. */
  lemma TranslateChainUnfold(items: seq<ChainItem>, wrap: string)
    requires WfChain(items)
    ensures |items| == 1 ==> TranslateChain(items, wrap) == TranslateOp(items[0].op, wrap)
    ensures |items| > 1 ==> WfChain(items[2..])
    ensures |items| > 1 ==>
              TranslateChain(items, wrap)
              == TranslateOp(items[0].op, wrap) + " | " + TranslateChain(items[2..], wrap)
  {
    assert items[0].OpNode?;
    if |items| == 1 {
      assert OpsOf(items) == [items[0].op] by {
        assert OpsOf(items[1..]) == [];
      }
    } else {
      var rest := items[2..];
      assert WfChain(rest) by {
        forall i | 0 <= i < |rest|
          ensures if i % 2 == 0 then rest[i].OpNode? && WfOp(rest[i].op) else rest[i].Dot?
        {
          assert rest[i] == items[i + 2];
        }
      }
      assert items[1].Dot?;
      assert OpsOf(items) == [items[0].op] + OpsOf(rest) by {
        assert items[1..][1..] == rest;
      }
      OpsOfChain(rest);
      var ts := TranslateOps(OpsOf(rest), wrap);
      assert |ts| > 0;
      assert TranslateOps(OpsOf(items), wrap) == [TranslateOp(items[0].op, wrap)] + ts by {
        assert ([items[0].op] + OpsOf(rest))[1..] == OpsOf(rest);
      }
      assert ([TranslateOp(items[0].op, wrap)] + ts)[1..] == ts;
    }
  }

  // ---------------------------------------------------------------------
  // Rules
  // ---------------------------------------------------------------------

  /** `expand_ruledict`. */
  function ExpandRule(r: Rule, wrap: string): string {
    r.lhs + " " + ConvertMtype(MergeText(r.mtype)) + " ("
      + (if r.rhs.anchor.Some? then WrapCollection(r.rhs.anchor.value, wrap) else "")
      + (if r.rhs.anchor.Some? && r.rhs.chain.Some? then " | " else "")
      + (if r.rhs.chain.Some? then TranslateChain(r.rhs.chain.value, wrap) else "")
      + ")"
  }

  /** The pipeline stages of a right-hand side: the wrapped anchor, then
      each operator of the chain, in the order they were written. */
  function Stages(rhs: Rhs, wrap: string): seq<string> {
    (if rhs.anchor.Some? then [WrapCollection(rhs.anchor.value, wrap)] else [])
      + (if rhs.chain.Some? then TranslateOps(OpsOf(rhs.chain.value), wrap) else [])
  }

  /** A translated rule is `lhs op (` followed by its stages joined by ` | `
      and `)`: the separator appears exactly between neighbouring stages. */
  lemma ExpandRuleStages(r: Rule, wrap: string)
    requires WfRule(r)
    ensures ExpandRule(r, wrap)
         == r.lhs + " " + MergeOperator(r.mtype) + " (" + Join(Stages(r.rhs, wrap), " | ") + ")"
  {
    ConvertMtypeOfMerge(r.mtype);
    var x := r.lhs + " " + ConvertMtype(MergeText(r.mtype)) + " (";
    var rhs := r.rhs;
    var a := if rhs.anchor.Some? then WrapCollection(rhs.anchor.value, wrap) else "";
    var sp := if rhs.anchor.Some? && rhs.chain.Some? then " | " else "";
    var c := if rhs.chain.Some? then TranslateChain(rhs.chain.value, wrap) else "";
    StagesJoin(rhs, wrap);
    AppendAssoc(x, a, sp);
    AppendAssoc(x, a + sp, c);
  }

  /** The text between the parentheses of a translated rule is its stages
      joined by ` | `. */
  lemma StagesJoin(rhs: Rhs, wrap: string)
    requires WfRhs(rhs)
    ensures (if rhs.anchor.Some? then WrapCollection(rhs.anchor.value, wrap) else "")
          + (if rhs.anchor.Some? && rhs.chain.Some? then " | " else "")
          + (if rhs.chain.Some? then TranslateChain(rhs.chain.value, wrap) else "")
         == Join(Stages(rhs, wrap), " | ")
  {
    if rhs.anchor.Some? && rhs.chain.Some? {
      var ops := TranslateOps(OpsOf(rhs.chain.value), wrap);
      OpsOfChain(rhs.chain.value);
      JoinAppend([WrapCollection(rhs.anchor.value, wrap)], ops, " | ");
    } else if rhs.anchor.Some? {
      assert Stages(rhs, wrap) == [WrapCollection(rhs.anchor.value, wrap)];
    } else {
      assert Stages(rhs, wrap) == TranslateOps(OpsOf(rhs.chain.value), wrap);
    }
  }

  /** The stage list of a rule with an anchor and a chain of n operators has
      n + 1 entries, the i-th operator at position i + 1 (`OpsOfChain` says
      where the i-th operator sits in the chain). */
  lemma StagesOrder(rhs: Rhs, wrap: string)
    requires WfRhs(rhs) && rhs.anchor.Some? && rhs.chain.Some?
    ensures |Stages(rhs, wrap)| == |OpsOf(rhs.chain.value)| + 1
    ensures Stages(rhs, wrap)[0] == WrapCollection(rhs.anchor.value, wrap)
    ensures forall i :: 0 <= i < |OpsOf(rhs.chain.value)| ==>
              Stages(rhs, wrap)[i + 1] == TranslateOp(OpsOf(rhs.chain.value)[i], wrap)
  {
    var ops := TranslateOps(OpsOf(rhs.chain.value), wrap);
    assert Stages(rhs, wrap) == [WrapCollection(rhs.anchor.value, wrap)] + ops;
  }

  /** The wrap the generator uses for bootstrap rules and for the steady-state
      rules. */
  const BootstrapWrap: string := "make_iterable"
  const SteadyWrap: string := "make_collection"

  /** One `auto k = ...;` line. */
  function RuleLine(k: string, r: Rule, wrap: string): string {
    "      auto " + k + " = " + ExpandRule(r, wrap) + ";\n"
  }

  /** Parses each rule text in order; the first text that does not parse
      stops the translation with its key. */
  function RuleLines(rules: ODict<string>, wrap: string): (r: Result<seq<string>, string>)
    ensures r.Ok? ==> |r.value| == |rules|
    ensures r.Ok? ==> forall i :: 0 <= i < |rules| ==>
              ParseStart(rules[i].1).Parsed? && r.value[i] == RuleLine(rules[i].0, ParseStart(rules[i].1).value, wrap)
    ensures r.Err? <==> exists i :: 0 <= i < |rules| && !ParseStart(rules[i].1).Parsed?
    ensures r.Err? ==> exists i :: 0 <= i < |rules| && rules[i].0 == r.error && !ParseStart(rules[i].1).Parsed?
  {
    var parsed := seq(|rules|, i requires 0 <= i < |rules| => ParseStart(rules[i].1));
    LinesOf(Keys(rules), parsed, wrap)
  }

  /** The lines of rules already parsed, each paired with its key; the
      first rule that did not parse stops the translation with its key. */
  function LinesOf(keys: seq<string>, parsed: seq<PResult<Rule>>, wrap: string): (r: Result<seq<string>, string>)
    requires |keys| == |parsed|
    ensures r.Ok? ==> |r.value| == |keys|
    ensures r.Ok? ==> forall i :: 0 <= i < |keys| ==>
              parsed[i].Parsed? && r.value[i] == RuleLine(keys[i], parsed[i].value, wrap)
    ensures r.Err? <==> exists i :: 0 <= i < |keys| && !parsed[i].Parsed?
    ensures r.Err? ==> exists i :: 0 <= i < |keys| && keys[i] == r.error && !parsed[i].Parsed?
  {
    if |keys| == 0 then Ok([])
    else if !parsed[0].Parsed? then Err(keys[0])
    else
      var rest := LinesOf(keys[1..], parsed[1..], wrap);
      if rest.Err? then
        var j :| 0 <= j < |keys[1..]| && keys[1..][j] == rest.error && !parsed[1..][j].Parsed?;
        assert keys[j + 1] == keys[1..][j] && parsed[j + 1] == parsed[1..][j];
        Err(rest.error)
      else
        assert forall i :: 1 <= i < |keys| ==> keys[i] == keys[1..][i - 1] && parsed[i] == parsed[1..][i - 1];
        Ok([RuleLine(keys[0], parsed[0].value, wrap)] + rest.value)
  }

  /** The closing line: the keys, in dictionary order, joined by `,`. */
  function ReturnLine(keys: seq<string>): string {
    "      return std::make_tuple(" + Join(keys, ",") + ");\n"
  }

  /** `translate_rules` without the file and parser plumbing: one line per
      rule in dictionary order, then the `make_tuple` of the rule names. */
  function TranslateRules(rules: ODict<string>, wrap: string): (r: Result<string, string>)
    ensures r.Ok? <==> forall i :: 0 <= i < |rules| ==> ParseStart(rules[i].1).Parsed?
  {
    var lines := RuleLines(rules, wrap);
    if lines.Err? then Err(lines.error) else Ok(Concat(lines.value) + ReturnLine(Keys(rules)))
  }

  /** The names in `make_tuple` are the rule keys, in the same order, when
      no key holds a comma. */
  lemma ReturnLineKeys(rules: ODict<string>)
    requires |rules| > 0
    requires forall i :: 0 <= i < |rules| ==> !Contains(rules[i].0, ',')
    ensures Split(Join(Keys(rules), ","), ",") == Keys(rules)
  {
    SplitJoin(Keys(rules), ",");
  }

  function RenderAll(rs: seq<Rule>): (r: seq<string>)
    ensures |r| == |rs|
    ensures forall i :: 0 <= i < |rs| ==> r[i] == RenderRule(rs[i])
  {
    if |rs| == 0 then [] else [RenderRule(rs[0])] + RenderAll(rs[1..])
  }

  /** Rule texts that are renderings of well-formed rules translate to the
      expansion of exactly those rules. */
  lemma TranslateRenderedRules(rules: ODict<string>, rs: seq<Rule>, wrap: string)
    requires |rs| == |rules|
    requires forall i :: 0 <= i < |rs| ==> WfRule(rs[i]) && rules[i].1 == RenderRule(rs[i])
    ensures RuleLines(rules, wrap).Ok?
    ensures forall i :: 0 <= i < |rs| ==> RuleLines(rules, wrap).value[i] == RuleLine(rules[i].0, rs[i], wrap)
  {
    forall i | 0 <= i < |rs| ensures ParseStart(rules[i].1) == Parsed(rs[i], "") {
      StartExact(rules[i].1, rs[i]);
    }
  }
}
