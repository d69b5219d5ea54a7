/** The semantic actions of the Bloom front-end. Each action receives its
    children already translated; the class-level registries the actions
    share (schema, rules, constant tuples and the tuple buffer) are an
    explicit state record that the stateful actions take and return.

    The grammar these actions are attached to is not part of this model. The
    model assumes it builds the trees of the rule grammar with the separators
    of `.`-chains and `<...>` lists dropped, so an operator chain reaches the
    `rhs` action as the list of translated operators and a parameter list
    reaches the `op` action as the list of parameter strings. */
module Bloom {
  import opened Text
  import opened OrderedMaps
  import opened Ast
  import opened Yml2Fluent
  import opened Schema

  /** The value texts of one constant tuple. */
  type Tuple = seq<string>

  /** The registries: declared collections, rule variables with their
      rule text, captured constant tuple sets, and the tuple buffer a
      tuple-set right-hand side fills for the rule that owns it. */
  datatype State = State(schema: SchemaDict, rules: ODict<string>, tups: ODict<seq<Tuple>>, tupbuf: seq<Tuple>)

  const Initial: State := State([], [], [], [])

  // ---------------------------------------------------------------------
  // Names, operators and merges
  // ---------------------------------------------------------------------

  /** `catalog_entry`: the entry's characters joined, the streams renamed. */
  function CatalogEntryAction(parts: seq<string>): (r: string)
    ensures Concat(parts) == "stdin" ==> r == "fluin"
    ensures Concat(parts) == "stdout" ==> r == "fluout"
    ensures !IsStream(Concat(parts)) ==> r == Concat(parts)
    ensures |parts| == 1 && !IsStream(parts[0]) ==> r == parts[0]
  {
    assert |parts| == 1 ==> Concat(parts) == parts[0] + "";
    TableName(Concat(parts))
  }

  /** `rhs_catalog_entry`: a collection reference as a Fluent source, with
      the wrap the translator was configured with. */
  function RhsCatalogEntry(cwrap: string, entry: string): string {
    cwrap + "(&" + entry + ")"
  }

  /** With the wrap given as `lra::` plus a Fluent wrap name, a reference
      reads the same as the YAML translator's. */
  lemma RhsCatalogEntryAgrees(wrap: string, entry: string)
    ensures RhsCatalogEntry("lra::" + wrap, entry) == WrapCollection(entry, wrap)
  {
  }

  /** `opname` over the `where` / `cross` actions: `lra::` and the Fluent
      name. */
  function OpNameAction(n: OpName): string {
    "lra::" + match n
      case OpWhere => "filter"
      case OpCross => "make_cross"
      case _ => OpNameText(n)
  }

  /** Both front-ends give an operator the same Fluent name, and no two
      operators share one. */
  lemma OpNameActionAgrees(n: OpName, m: OpName)
    ensures OpNameAction(n) == "lra::" + CppOpName(OpNameText(n))
    ensures OpNameAction(n) == OpNameAction(m) ==> n == m
  {
    if OpNameAction(n) == OpNameAction(m) {
      assert OpNameAction(n)[5..] == OpNameAction(m)[5..];
      CppOpNameInjective(n, m);
    }
  }

  /** The `now` / `next` / `async` / `delete` actions. */
  function MergeAction(m: Merge): string {
    match m
    case Now => "<="
    case Next => "+="
    case Async => "<="
    case Delete => "-="
  }

  /** Both front-ends give a merge the same C++ operator. */
  lemma MergeActionAgrees(m: Merge)
    ensures MergeAction(m) == MergeOperator(m) == ConvertMtype(MergeText(m))
  {
    ConvertMtypeOfMerge(m);
  }

  /** The argument shapes the `op` action sees: a list of references, a
      lambda, or nothing. */
  datatype BlArgs = ArgList(items: seq<string>) | LambdaArg(argname: string, code: string) | NoArgs

  function ArgsText(args: BlArgs): string {
    match args
    case ArgList(items) => Join(items, ", ")
    case LambdaArg(arg, code) => LambdaText(arg, code)
    case NoArgs => ""
  }

  /** `op`: the name, the parameters joined by `,` inside `<...>`, and the
      arguments in parentheses. */
  function OpAction(opname: string, plist: Option<seq<string>>, args: BlArgs): (r: string)
    ensures |r| >= |opname| + 2 && r[..|opname|] == opname && r[|r| - 1] == ')'
  {
    opname + (if plist.Some? then "<" + Join(plist.value, ",") + ">" else "") + "(" + ArgsText(args) + ")"
  }

  // ---------------------------------------------------------------------
  // Right-hand sides and rules
  // ---------------------------------------------------------------------

  /** The stages of a right-hand side: the anchor, then the chain. */
  function BlStages(anchor: Option<string>, chain: Option<seq<string>>): seq<string> {
    (if anchor.Some? then [anchor.value] else []) + (if chain.Some? then chain.value else [])
  }

  /** `rhs`: a tuple-set right-hand side fills the buffer and yields nothing;
      any other yields `(anchor | op1 | ... | opn)`. */
  function RhsAction(st: State, anchor: Option<string>, chain: Option<seq<string>>, tups: Option<seq<Tuple>>): (r: (State, Option<string>))
    requires chain.Some? ==> |chain.value| > 0
    ensures tups.Some? ==> r.0 == st.(tupbuf := tups.value) && r.1.None?
    ensures tups.None? ==> r.0 == st && r.1 == Some("(" + Join(BlStages(anchor, chain), " | ") + ")")
  {
    var inner := (if anchor.Some? then anchor.value else "")
      + (if anchor.Some? && chain.Some? then " | " else "")
      + (if chain.Some? then Join(chain.value, " | ") else "");
    var text := "(" + inner + ")";
    RhsStages(anchor, chain);
    if tups.Some? then (st.(tupbuf := tups.value), None) else (st, Some(text))
  }

  lemma RhsStages(anchor: Option<string>, chain: Option<seq<string>>)
    requires chain.Some? ==> |chain.value| > 0
    ensures (if anchor.Some? then anchor.value else "")
              + (if anchor.Some? && chain.Some? then " | " else "")
              + (if chain.Some? then Join(chain.value, " | ") else "")
         == Join(BlStages(anchor, chain), " | ")
  {
    if anchor.Some? && chain.Some? {
      JoinAppend([anchor.value], chain.value, " | ");
    } else if anchor.Some? {
      assert BlStages(anchor, chain) == [anchor.value];
    } else if chain.Some? {
      assert BlStages(anchor, chain) == chain.value;
    }
  }

  /** `rule`: without a right-hand side text (a tuple set) the buffered
      tuples are recorded under the left-hand side, the buffer is emptied and
      the rule reads the constant vector of that name. */
  function RuleAction(st: State, lhs: string, mtype: string, rhs: Option<string>): (r: (State, string))
    ensures rhs.Some? ==> r.0 == st
    ensures rhs.None? ==> r.0.tupbuf == [] && r.0.schema == st.schema && r.0.rules == st.rules
    ensures rhs.None? ==> Get(r.0.tups, lhs) == Some(st.tupbuf)
  {
    if rhs.None? then
      GetPutSame(st.tups, lhs, st.tupbuf);
      (st.(tups := Put(st.tups, lhs, st.tupbuf), tupbuf := []),
       lhs + " " + mtype + " " + WrapCollection(MakeCollectionName(lhs), BootstrapWrap))
    else (st, lhs + " " + mtype + " " + rhs.value)
  }

  /** A tuple-set rule: the tuples its right-hand side buffered end up
      registered under the rule's table, the buffer is left empty, and the
      rule reads the vector the constant-tuple block declares for that
      table. Other tables' tuple sets are untouched. */
  lemma TupleRuleCapture(st: State, lhs: string, mtype: string, tups: seq<Tuple>, other: string)
    requires other != lhs
    ensures var (s1, out) := RhsAction(st, None, None, Some(tups));
            var (s2, text) := RuleAction(s1, lhs, mtype, out);
            && Get(s2.tups, lhs) == Some(tups)
            && Get(s2.tups, other) == Get(st.tups, other)
            && s2.tupbuf == []
            && text == lhs + " " + mtype + " " + WrapCollection(MakeCollectionName(lhs), BootstrapWrap)
  {
    var s1 := st.(tupbuf := tups);
    assert RhsAction(st, None, None, Some(tups)) == (s1, None);
    GetPutOther(st.tups, lhs, tups, other);
  }

  /** `stmt`: a non-empty statement on its own indented line. */
  function StmtAction(s: string): (r: string)
    ensures s == "" <==> r == ""
    ensures s != "" ==> |r| == |s| + 8 && r[6..|r| - 2] == s
  {
    if s != "" then "      " + s + ";\n" else s
  }

  /** `ruledef`: registers the variable and declares it. */
  function RuleDefAction(st: State, name: string, rule: string): (r: (State, string))
    ensures Get(r.0.rules, name) == Some(rule)
    ensures r.0.schema == st.schema && r.0.tups == st.tups && r.0.tupbuf == st.tupbuf
  {
    GetPutSame(st.rules, name, rule);
    (st.(rules := Put(st.rules, name, rule)), "auto " + name + " = " + rule)
  }

  /** `logic`: the statements' text, in order. */
  function LogicAction(stmts: seq<string>): string {
    Concat(stmts)
  }

  /** The text of two runs of statements is the first run's text followed
      by the second's. */
  lemma LogicActionAppend(a: seq<string>, b: seq<string>)
    ensures LogicAction(a + b) == LogicAction(a) + LogicAction(b)
  {
    ConcatSplit(a, b);
  }

  // ---------------------------------------------------------------------
  // Schema registry
  // ---------------------------------------------------------------------

  /** `schemadef`: the streams are registered under their C++ names without
      a definition; any other collection with its kind and its columns,
      which are read as a dictionary display. */
  function SchemaDefAction(st: State, name: string, kind: string, cols: seq<(string, string)>): (r: (State, string))
    ensures r.1 == ""
    ensures Get(r.0.schema, TableName(name)) == Some(if IsStream(name) then None else Some(CollectionDef(kind, FromPairs(cols))))
    ensures r.0.rules == st.rules && r.0.tups == st.tups && r.0.tupbuf == st.tupbuf
  {
    var defn: Option<CollectionDef> := if IsStream(name) then None else Some(CollectionDef(kind, FromPairs(cols)));
    GetPutSame(st.schema, TableName(name), defn);
    (st.(schema := Put(st.schema, TableName(name), defn)), "")
  }

  /** `translate_schema` of the Bloom front-end: the stream entries back to
      `stdin()` / `stdout()`, every other entry declared from its
      definition; an entry without one is an error. */
  function BlTranslateSchema(schema: SchemaDict): (r: Result<seq<string>, string>)
    ensures r.Ok? <==> forall i :: 0 <= i < |schema| ==> schema[i].0 in {"fluin", "fluout"} || schema[i].1.Some?
    ensures r.Ok? ==> |r.value| == |schema|
  {
    if |schema| == 0 then Ok([])
    else
      var (name, defn) := schema[0];
      var rest := BlTranslateSchema(schema[1..]);
      assert forall i :: 1 <= i < |schema| ==> schema[i] == schema[1..][i - 1];
      if name == "fluin" then (if rest.Ok? then Ok(["stdin()"] + rest.value) else rest)
      else if name == "fluout" then (if rest.Ok? then Ok(["stdout()"] + rest.value) else rest)
      else if defn.None? then Err(name)
      else if rest.Ok? then Ok([CollectionLine(name, defn.value)] + rest.value)
      else rest
  }

  /** A schema declaration as the grammar hands it to `schemadef`. */
  datatype Decl = Decl(name: string, kind: string, cols: seq<(string, string)>)

  function RunSchemaDefs(st: State, decls: seq<Decl>): State
    decreases |decls|
  {
    if |decls| == 0 then st
    else RunSchemaDefs(SchemaDefAction(st, decls[0].name, decls[0].kind, decls[0].cols).0, decls[1..])
  }

  /** The registry entry `schemadef` makes of one declaration. */
  function BlEntry(d: Decl): (string, Option<CollectionDef>) {
    (TableName(d.name), if IsStream(d.name) then None else Some(CollectionDef(d.kind, d.cols)))
  }

  /** The YAML schema entry of one declaration. */
  function YmlEntry(d: Decl): (string, Option<CollectionDef>) {
    (d.name, if IsStream(d.name) then None else Some(CollectionDef(d.kind, d.cols)))
  }

  /** The same declarations as a YAML schema. */
  function YmlSchemaOf(decls: seq<Decl>): (r: SchemaDict)
    ensures |r| == |decls|
    ensures forall i :: 0 <= i < |decls| ==> r[i] == YmlEntry(decls[i])
  {
    if |decls| == 0 then [] else [YmlEntry(decls[0])] + YmlSchemaOf(decls[1..])
  }

  /** The same declarations as the Bloom registry holds them. */
  function BlSchemaOf(decls: seq<Decl>): (r: SchemaDict)
    ensures |r| == |decls|
    ensures forall i :: 0 <= i < |decls| ==> r[i] == BlEntry(decls[i])
  {
    if |decls| == 0 then [] else [BlEntry(decls[0])] + BlSchemaOf(decls[1..])
  }

  /** Declarations the two front-ends read alike: the C++ names are
      distinct, no collection is literally called `fluin` / `fluout`, and no
      collection repeats a column. */
  predicate PlainDecls(decls: seq<Decl>) {
    && (forall i, j :: 0 <= i < j < |decls| ==> TableName(decls[i].name) != TableName(decls[j].name))
    && (forall i :: 0 <= i < |decls| ==> decls[i].name != "fluin" && decls[i].name != "fluout")
    && (forall i :: 0 <= i < |decls| ==> DistinctKeys(decls[i].cols))
  }

  lemma PlainDeclsTail(decls: seq<Decl>)
    requires |decls| > 0 && PlainDecls(decls)
    ensures PlainDecls(decls[1..])
    ensures forall i :: 0 <= i < |decls[1..]| ==> TableName(decls[1..][i].name) != TableName(decls[0].name)
  {
    assert forall i :: 0 <= i < |decls[1..]| ==> decls[1..][i] == decls[i + 1];
  }

  /** One `schemadef` of a new name appends its entry. */
  lemma SchemaDefAppends(st: State, d: Decl)
    requires TableName(d.name) !in Keys(st.schema) && DistinctKeys(d.cols)
    ensures SchemaDefAction(st, d.name, d.kind, d.cols).0.schema == st.schema + [BlEntry(d)]
  {
    FromDistinctPairs(d.cols);
  }

  /** Registering distinct declarations in order appends one entry each. */
  lemma {:induction false} RunSchemaDefsAppends(st: State, decls: seq<Decl>)
    requires PlainDecls(decls)
    requires forall i :: 0 <= i < |decls| ==> TableName(decls[i].name) !in Keys(st.schema)
    ensures RunSchemaDefs(st, decls).schema == st.schema + BlSchemaOf(decls)
    decreases |decls|
  {
    if |decls| > 0 {
      var d := decls[0];
      var st1 := SchemaDefAction(st, d.name, d.kind, d.cols).0;
      RunSchemaDefsStep(st, decls);
      RunSchemaDefsAppends(st1, decls[1..]);
      assert BlSchemaOf(decls) == [BlEntry(d)] + BlSchemaOf(decls[1..]);
      AppendAssoc(st.schema, [BlEntry(d)], BlSchemaOf(decls[1..]));
    }
  }

  /** The first declaration appends its entry and leaves the rest new. */
  lemma RunSchemaDefsStep(st: State, decls: seq<Decl>)
    requires |decls| > 0 && PlainDecls(decls)
    requires forall i :: 0 <= i < |decls| ==> TableName(decls[i].name) !in Keys(st.schema)
    ensures SchemaDefAction(st, decls[0].name, decls[0].kind, decls[0].cols).0.schema == st.schema + [BlEntry(decls[0])]
    ensures PlainDecls(decls[1..])
    ensures forall i :: 0 <= i < |decls[1..]| ==>
      TableName(decls[1..][i].name) !in Keys(st.schema + [BlEntry(decls[0])])
  {
    var d := decls[0];
    SchemaDefAppends(st, d);
    PlainDeclsTail(decls);
    KeysAppend(st.schema, BlEntry(d));
    assert forall i :: 0 <= i < |decls[1..]| ==> decls[1..][i] == decls[i + 1];
  }

  lemma KeysAppend<V>(d: ODict<V>, e: (string, V))
    ensures Keys(d + [e]) == Keys(d) + [e.0]
  {
    assert forall i :: 0 <= i < |d| ==> (d + [e])[i] == d[i];
  }

  /** Both front-ends declare the same collections in the same order: the
      Bloom registry's declarations equal the YAML translator's for the same
      schema. */
  lemma SchemaFrontEndsAgree(decls: seq<Decl>)
    requires PlainDecls(decls)
    ensures RunSchemaDefs(Initial, decls).schema == BlSchemaOf(decls)
    ensures BlTranslateSchema(BlSchemaOf(decls)) == TranslateSchema(YmlSchemaOf(decls))
  {
    RunSchemaDefsAppends(Initial, decls);
    assert Initial.schema + BlSchemaOf(decls) == BlSchemaOf(decls);
    TranslateSchemasAgree(decls);
  }

  lemma {:induction false} TranslateSchemasAgree(decls: seq<Decl>)
    requires forall i :: 0 <= i < |decls| ==> decls[i].name != "fluin" && decls[i].name != "fluout"
    ensures BlTranslateSchema(BlSchemaOf(decls)) == TranslateSchema(YmlSchemaOf(decls))
    decreases |decls|
  {
    if |decls| > 0 {
      var d := decls[0];
      var b := BlSchemaOf(decls);
      var y := YmlSchemaOf(decls);
      assert forall i :: 0 <= i < |decls[1..]| ==> decls[1..][i] == decls[i + 1];
      TranslateSchemasAgree(decls[1..]);
      assert b[1..] == BlSchemaOf(decls[1..]);
      assert y[1..] == YmlSchemaOf(decls[1..]);
      assert b[0] == BlEntry(d) && y[0] == YmlEntry(d);
      var rest := TranslateSchema(y[1..]);
      if d.name == "stdin" {
        assert "stdin" + "()" == "stdin()";
        assert TranslateSchema(y) == if rest.Ok? then Ok(["stdin()"] + rest.value) else rest;
      } else if d.name == "stdout" {
        assert "stdout" + "()" == "stdout()";
        assert TranslateSchema(y) == if rest.Ok? then Ok(["stdout()"] + rest.value) else rest;
      } else {
        assert TranslateSchema(y) == if rest.Ok? then Ok([CollectionLine(d.name, CollectionDef(d.kind, d.cols))] + rest.value) else rest;
      }
    }
  }

  // ---------------------------------------------------------------------
  // Rule blocks (`register_rules`)
  // ---------------------------------------------------------------------

  /** A registered rule block: one `auto&` parameter and one `(void)` line
      per registered collection, in registry order, the rules' text, and
      the `make_tuple` of `names`. */
  function RuleBlock(schema: SchemaDict, bootp: string, rules: string, names: seq<string>): string {
    "  bloom = std::move(bloom)\n"
      + "    .Register" + bootp + "Rules([&](" + Join(Prefixed("auto& ", Keys(schema), ""), ", ") + ") {\n"
      + Join(Prefixed("      (void)", Keys(schema), ";"), "\n")
      + "\n      using namespace fluent::infix;\n\n      //////////////\n      // Bloom " + bootp + " Rules\n"
      + rules
      + "      return std::make_tuple(" + Join(names, ", ") + ");\n"
      + "      //////////////\n    })\n"
  }

  /** `register_rules` as written: nothing for a missing or empty block,
      otherwise a block whose `make_tuple` lists every variable in the one
      shared rule registry. */
  function RegisterRulesAsWritten(st: State, bootp: string, rules: Option<string>): (r: string)
    ensures rules.None? || rules.value == "" <==> r == ""
  {
    if rules.None? || rules.value == "" then "" else RuleBlock(st.schema, bootp, rules.value, Keys(st.rules))
  }

  /** Runs the `ruledef` and `stmt` actions over a block and the `logic`
      action over the result: the registry after the block, and its text. */
  function RunBlock(st: State, defs: seq<(string, string)>): (r: (State, string))
    ensures r.0.schema == st.schema
    decreases |defs|
  {
    if |defs| == 0 then (st, LogicAction([]))
    else
      var (st1, decl) := RuleDefAction(st, defs[0].0, defs[0].1);
      var (st2, text) := RunBlock(st1, defs[1..]);
      (st2, StmtAction(decl) + text)
  }

  /** The rule-block part of `start` as written: the bootstrap block and
      the steady-state block are both registered against the registry left
      after both blocks ran. */
  function StartRulesAsWritten(st: State, boot: seq<(string, string)>, logic: seq<(string, string)>): string {
    var (st1, btext) := RunBlock(st, boot);
    var (st2, ltext) := RunBlock(st1, logic);
    RegisterRulesAsWritten(st2, "Bootstrap", Some(btext)) + RegisterRulesAsWritten(st2, "", Some(ltext))
  }

  /** One `ruledef` of a new variable appends it to the registry. */
  lemma RuleDefAppends(st: State, name: string, rule: string)
    requires name !in Keys(st.rules)
    ensures Keys(RuleDefAction(st, name, rule).0.rules) == Keys(st.rules) + [name]
  {
  }

  /** With distinct variables, running a block registers exactly the
      block's variables after the ones already registered, in order. */
  lemma {:induction false} RunBlockRegisters(st: State, defs: seq<(string, string)>)
    requires DistinctKeys(defs)
    requires forall i :: 0 <= i < |defs| ==> defs[i].0 !in Keys(st.rules)
    ensures Keys(RunBlock(st, defs).0.rules) == Keys(st.rules) + Keys(defs)
    decreases |defs|
  {
    if |defs| > 0 {
      var st1 := RuleDefAction(st, defs[0].0, defs[0].1).0;
      RuleDefAppends(st, defs[0].0, defs[0].1);
      DistinctTail(defs);
      RunBlockRegisters(st1, defs[1..]);
      assert Keys(defs) == [defs[0].0] + Keys(defs[1..]);
      AppendAssoc(Keys(st.rules), [defs[0].0], Keys(defs[1..]));
    }
  }

  lemma DistinctTail<V>(defs: seq<(string, V)>)
    requires |defs| > 0 && DistinctKeys(defs)
    ensures DistinctKeys(defs[1..])
    ensures forall i :: 0 <= i < |defs[1..]| ==> defs[1..][i].0 != defs[0].0
  {
    assert forall i :: 0 <= i < |defs[1..]| ==> defs[1..][i] == defs[i + 1];
  }

  /** A non-empty block has non-empty text. */
  lemma RunBlockText(st: State, defs: seq<(string, string)>)
    requires |defs| > 0
    ensures RunBlock(st, defs).1 != ""
  {
    var decl := RuleDefAction(st, defs[0].0, defs[0].1).1;
    assert decl[..5] == "auto ";
  }

  /** A block registered against a registry of its own. */
  function OwnBlock(st: State, bootp: string, defs: seq<(string, string)>): string {
    var run := RunBlock(st.(rules := []), defs);
    RegisterRulesAsWritten(run.0, bootp, Some(run.1))
  }

  /** The rule-block part of `start` as intended: each block registered
      with a registry of its own. */
  function StartRules(st: State, boot: seq<(string, string)>, logic: seq<(string, string)>): string {
    OwnBlock(st, "Bootstrap", boot) + OwnBlock(st, "", logic)
  }

  /** As intended, the bootstrap block and the steady-state block each list
      exactly the variables they define. */
  lemma StartRulesOwnVars(st: State, boot: seq<(string, string)>, logic: seq<(string, string)>)
    requires DistinctKeys(boot) && DistinctKeys(logic) && |boot| > 0 && |logic| > 0
    ensures StartRules(st, boot, logic)
         == RuleBlock(st.schema, "Bootstrap", RunBlock(st.(rules := []), boot).1, Keys(boot))
          + RuleBlock(st.schema, "", RunBlock(st.(rules := []), logic).1, Keys(logic))
  {
    OwnBlockListsOwnVars(st, "Bootstrap", boot);
    OwnBlockListsOwnVars(st, "", logic);
  }

  /** As intended, a block's `make_tuple` lists exactly the variables the
      block defines, in definition order. */
  lemma OwnBlockListsOwnVars(st: State, bootp: string, defs: seq<(string, string)>)
    requires DistinctKeys(defs) && |defs| > 0
    ensures OwnBlock(st, bootp, defs) == RuleBlock(st.schema, bootp, RunBlock(st.(rules := []), defs).1, Keys(defs))
  {
    var st0 := st.(rules := []);
    var run := RunBlock(st0, defs);
    RunBlockRegisters(st0, defs);
    RunBlockText(st0, defs);
    assert Keys(run.0.rules) == Keys(defs) by {
      assert Keys(st0.rules) == [];
    }
    RegisterNonEmpty(run.0, bootp, run.1);
  }

  lemma RegisterNonEmpty(st: State, bootp: string, text: string)
    requires text != ""
    ensures RegisterRulesAsWritten(st, bootp, Some(text)) == RuleBlock(st.schema, bootp, text, Keys(st.rules))
  {
  }

  /** Splitting the variables of two blocks that share none. */
  lemma DistinctSplit(boot: seq<(string, string)>, logic: seq<(string, string)>)
    requires DistinctKeys(boot + logic)
    ensures DistinctKeys(boot) && DistinctKeys(logic)
    ensures forall i, k :: 0 <= i < |logic| && 0 <= k < |boot| ==> boot[k].0 != logic[i].0
  {
    var all := boot + logic;
    assert forall k :: 0 <= k < |boot| ==> all[k] == boot[k];
    assert forall i :: 0 <= i < |logic| ==> all[|boot| + i] == logic[i];
  }

  /** As written, the bootstrap block's `make_tuple` lists the steady-state
      variables too, which the bootstrap lambda never declares. */
  lemma AsWrittenBootstrapListsSteadyRules(boot: seq<(string, string)>, logic: seq<(string, string)>)
    requires |boot| > 0 && |logic| > 0
    requires DistinctKeys(boot + logic)
    ensures var names := Keys(RunBlock(RunBlock(Initial, boot).0, logic).0.rules);
            && StartRulesAsWritten(Initial, boot, logic)
               == RuleBlock([], "Bootstrap", RunBlock(Initial, boot).1, names)
                + RuleBlock([], "", RunBlock(RunBlock(Initial, boot).0, logic).1, names)
            && names == Keys(boot) + Keys(logic)
            && logic[0].0 !in Keys(boot)
  {
    var r1 := RunBlock(Initial, boot);
    var r2 := RunBlock(r1.0, logic);
    BootThenLogicRegisters(boot, logic);
    RunBlockText(Initial, boot);
    RunBlockText(r1.0, logic);
    RegisterNonEmpty(r2.0, "Bootstrap", r1.1);
    RegisterNonEmpty(r2.0, "", r2.1);
  }

  /** Running two blocks that share no variable registers the bootstrap
      variables, then the steady-state ones. */
  lemma BootThenLogicRegisters(boot: seq<(string, string)>, logic: seq<(string, string)>)
    requires |logic| > 0
    requires DistinctKeys(boot + logic)
    ensures Keys(RunBlock(RunBlock(Initial, boot).0, logic).0.rules) == Keys(boot) + Keys(logic)
    ensures logic[0].0 !in Keys(boot)
  {
    DistinctSplit(boot, logic);
    RunBlockRegisters(Initial, boot);
    var st1 := RunBlock(Initial, boot).0;
    assert Keys(st1.rules) == Keys(boot);
    assert forall i :: 0 <= i < |logic| ==> logic[i].0 !in Keys(boot);
    RunBlockRegisters(st1, logic);
  }

  // ---------------------------------------------------------------------
  // Constant tuples (the constant-tuple part of `start`)
  // ---------------------------------------------------------------------

  function StripAll(xs: seq<string>): (r: seq<string>)
    ensures |r| == |xs|
    ensures forall i :: 0 <= i < |xs| ==> r[i] == Strip(xs[i], Whitespace)
  {
    if |xs| == 0 then [] else [Strip(xs[0], Whitespace)] + StripAll(xs[1..])
  }

  /** One tuple as a `make_tuple` element of the initializer. */
  function TupleText(tup: Tuple): string {
    "    std::make_tuple(" + Join(StripAll(tup), ", ") + ")"
  }

  function TupleTexts(ts: seq<Tuple>): (r: seq<string>)
    ensures |r| == |ts|
    ensures forall i :: 0 <= i < |ts| ==> r[i] == TupleText(ts[i])
  {
    if |ts| == 0 then [] else [TupleText(ts[0])] + TupleTexts(ts[1..])
  }

  /** The initializer body as written: the elements joined by `;` and a
      newline, with one more `;` after the last. */
  function InitializerAsWritten(ts: seq<Tuple>): string {
    Join(TupleTexts(ts), ";\n") + ";"
  }

  /** The initializer body as intended: a comma-separated list. */
  function Initializer(ts: seq<Tuple>): string {
    Join(TupleTexts(ts), ",\n")
  }

  /** As written, every non-empty initializer ends in `;`, which a C++
      braced initializer list cannot hold. */
  lemma AsWrittenInitializerHoldsSemicolon(ts: seq<Tuple>)
    ensures var body := InitializerAsWritten(ts);
            |body| > 0 && body[|body| - 1] == ';' && Contains(body, ';')
  {
    var body := InitializerAsWritten(ts);
    assert body[|body| - 1] == ';';
  }

  /** As intended, the initializer holds no `;` when no value does, and a
      non-empty one ends with its last tuple's `)`. */
  lemma InitializerIsList(ts: seq<Tuple>)
    requires forall i, j :: 0 <= i < |ts| && 0 <= j < |ts[i]| ==> !Contains(ts[i][j], ';')
    ensures !Contains(Initializer(ts), ';')
    ensures |ts| > 0 ==> |Initializer(ts)| > 0 && Initializer(ts)[|Initializer(ts)| - 1] == ')'
  {
    var es := TupleTexts(ts);
    forall i | 0 <= i < |ts| ensures !Contains(es[i], ';') {
      TupleTextLacks(ts[i], ';');
    }
    JoinLacks(es, ",\n", ';');
    if |ts| > 0 {
      JoinEndsWithLast(es, ",\n");
    }
  }

  lemma TupleTextLacks(tup: Tuple, c: char)
    requires c !in Whitespace && c != '(' && c != ')' && c != ',' && c != ' '
    requires c !in "    std::make_tuple("
    requires forall j :: 0 <= j < |tup| ==> !Contains(tup[j], c)
    ensures !Contains(TupleText(tup), c)
  {
    var vs := StripAll(tup);
    forall j | 0 <= j < |vs| ensures !Contains(vs[j], c) {
      StripLacks(tup[j], c);
    }
    JoinLacks(vs, ", ", c);
    ContainsAppend("    std::make_tuple(", Join(vs, ", "), c);
    ContainsAppend("    std::make_tuple(" + Join(vs, ", "), ")", c);
  }

  lemma StripLacks(s: string, c: char)
    requires !Contains(s, c)
    ensures !Contains(Strip(s, Whitespace), c)
  {
    var l := StripLeft(s, Whitespace);
    assert forall i :: 0 <= i < |l| ==> l[i] == s[|s| - |l| + i];
    var r := StripRight(l, Whitespace);
    assert forall i :: 0 <= i < |r| ==> r[i] == l[i];
  }

  lemma {:induction false} JoinEndsWithLast(xs: seq<string>, sep: string)
    requires |xs| > 0 && |xs[|xs| - 1]| > 0
    ensures |Join(xs, sep)| > 0 && Join(xs, sep)[|Join(xs, sep)| - 1] == xs[|xs| - 1][|xs[|xs| - 1]| - 1]
    decreases |xs|
  {
    if |xs| > 1 {
      JoinEndsWithLast(xs[1..], sep);
      assert xs[1..][|xs[1..]| - 1] == xs[|xs| - 1];
    }
  }

  /** One table's declarations: the tuple type from the registered column
      types and the constant vector around the given initializer body. */
  function ConstantBlock(k: string, d: CollectionDef, body: string): string {
    DeclBlock(UsingLine(k, Values(d.cols), ", "), VectorLine(k), body)
  }

  /** The initializer body of a tuple set, as intended or as written. */
  function InitializerFor(ts: seq<Tuple>, intended: bool): string {
    if intended then Initializer(ts) else InitializerAsWritten(ts)
  }

  /** The constant-tuple part of `start`, parameterised by how a tuple set
      becomes the initializer body; a captured table missing from the
      registry, or registered without columns, is an error. */
  function ConstantTuplesWith(schema: SchemaDict, tups: ODict<seq<Tuple>>, intended: bool): (r: Result<string, string>)
    ensures r.Ok? <==> forall i :: 0 <= i < |tups| ==> HasDefinition(schema, tups[i].0)
  {
    if |tups| == 0 then Ok("")
    else
      var (k, ts) := tups[0];
      var rest := ConstantTuplesWith(schema, tups[1..], intended);
      assert forall i :: 1 <= i < |tups| ==> tups[i] == tups[1..][i - 1];
      if !HasDefinition(schema, k) then Err(k)
      else if rest.Err? then rest
      else Ok(ConstantBlock(k, DefOf(schema, k), InitializerFor(ts, intended)) + rest.value)
  }

  /** The block of each captured table, in capture order. */
  function ConstantBlocks(schema: SchemaDict, tups: ODict<seq<Tuple>>, intended: bool): (r: seq<string>)
    requires forall i :: 0 <= i < |tups| ==> HasDefinition(schema, tups[i].0)
    ensures |r| == |tups|
    ensures forall i :: 0 <= i < |tups| ==>
              r[i] == ConstantBlock(tups[i].0, DefOf(schema, tups[i].0), InitializerFor(tups[i].1, intended))
  {
    if |tups| == 0 then []
    else
      assert forall i :: 1 <= i < |tups| ==> tups[i] == tups[1..][i - 1];
      [ConstantBlock(tups[0].0, DefOf(schema, tups[0].0), InitializerFor(tups[0].1, intended))]
        + ConstantBlocks(schema, tups[1..], intended)
  }

  /** When every captured table is registered, the text is one block per
      table, one after the other in capture order; `ConstantBlockLines` and
      `ConstantBlockLinesAsWritten` give each block's lines. */
  lemma {:induction false} ConstantTuplesBlocks(schema: SchemaDict, tups: ODict<seq<Tuple>>, intended: bool)
    requires forall i :: 0 <= i < |tups| ==> HasDefinition(schema, tups[i].0)
    ensures ConstantTuplesWith(schema, tups, intended) == Ok(Concat(ConstantBlocks(schema, tups, intended)))
    decreases |tups|
  {
    if |tups| > 0 {
      var tail := tups[1..];
      assert forall i :: 0 <= i < |tail| ==> tail[i] == tups[i + 1];
      ConstantTuplesBlocks(schema, tail, intended);
      var bs := ConstantBlocks(schema, tups, intended);
      assert bs[1..] == ConstantBlocks(schema, tail, intended);
    }
  }

  /** As intended, a table's block line by line: the tuple type over the
      registered column types, the vector named after the table, one
      `make_tuple` line per tuple in order (each but the last followed by
      `,`), and the closing `};`. */
  lemma ConstantBlockLines(k: string, d: CollectionDef, ts: seq<Tuple>)
    ensures ConstantBlock(k, d, Initializer(ts))
         == Join([UsingLine(k, Values(d.cols), ", "), VectorLine(k)]
                 + (if |ts| == 0 then [""] else Punctuated(TupleTexts(ts), ","))
                 + ["  };", ""], "\n")
  {
    var lines := if |ts| == 0 then [""] else Punctuated(TupleTexts(ts), ",");
    assert Initializer(ts) == Join(lines, "\n") by {
      CommaNewline();
      JoinedLines(TupleTexts(ts), ",");
    }
    BlockLines(UsingLine(k, Values(d.cols), ", "), VectorLine(k), lines);
  }

  /** As written, every `make_tuple` line of a non-empty tuple set ends in
      `;`, the last one included, and an empty set leaves a lone `;` line. */
  lemma ConstantBlockLinesAsWritten(k: string, d: CollectionDef, ts: seq<Tuple>)
    ensures ConstantBlock(k, d, InitializerAsWritten(ts))
         == Join([UsingLine(k, Values(d.cols), ", "), VectorLine(k)]
                 + (if |ts| == 0 then [";"] else Terminated(TupleTexts(ts), ";"))
                 + ["  };", ""], "\n")
  {
    AsWrittenInitializerLines(ts);
    BlockLines(UsingLine(k, Values(d.cols), ", "), VectorLine(k),
               if |ts| == 0 then [";"] else Terminated(TupleTexts(ts), ";"));
  }

  lemma AsWrittenInitializerLines(ts: seq<Tuple>)
    ensures InitializerAsWritten(ts) == Join(if |ts| == 0 then [";"] else Terminated(TupleTexts(ts), ";"), "\n")
  {
    if |ts| > 0 {
      SemicolonNewline();
      JoinTerminated(TupleTexts(ts), ";", "\n");
    }
  }

  lemma SemicolonNewline()
    ensures ";\n" == ";" + "\n"
  {
  }

  /** As written: `;`-separated elements and a trailing `;`. */
  function ConstantTuplesAsWritten(st: State): (r: Result<string, string>)
    ensures (forall i :: 0 <= i < |st.tups| ==> HasDefinition(st.schema, st.tups[i].0))
            ==> r == Ok(Concat(ConstantBlocks(st.schema, st.tups, false)))
  {
    if forall i :: 0 <= i < |st.tups| ==> HasDefinition(st.schema, st.tups[i].0) then
      ConstantTuplesBlocks(st.schema, st.tups, false);
      ConstantTuplesWith(st.schema, st.tups, false)
    else ConstantTuplesWith(st.schema, st.tups, false)
  }

  /** As intended: a comma-separated initializer. */
  function ConstantTuples(st: State): (r: Result<string, string>)
    ensures (forall i :: 0 <= i < |st.tups| ==> HasDefinition(st.schema, st.tups[i].0))
            ==> r == Ok(Concat(ConstantBlocks(st.schema, st.tups, true)))
  {
    if forall i :: 0 <= i < |st.tups| ==> HasDefinition(st.schema, st.tups[i].0) then
      ConstantTuplesBlocks(st.schema, st.tups, true);
      ConstantTuplesWith(st.schema, st.tups, true)
    else ConstantTuplesWith(st.schema, st.tups, true)
  }

  // ---------------------------------------------------------------------
  // Rules from the tree: agreement with the YAML translator
  // ---------------------------------------------------------------------

  /** The parameter strings of a parameter list, separators dropped. */
  function ParamStrings(items: seq<string>): (r: seq<string>)
    decreases |items|
  {
    if |items| <= 1 then items else [items[0]] + ParamStrings(items[2..])
  }

  /** Joining the parameter strings with `,` gives back the text the
      parser read. */
  lemma {:induction false} ParamStringsJoin(items: seq<string>)
    requires WfParams(items)
    ensures Join(ParamStrings(items), ",") == Concat(items)
    decreases |items|
  {
    if |items| > 1 {
      var rest := items[2..];
      assert WfParams(rest) by {
        assert |rest| % 2 == 1;
        forall i | 0 <= i < |rest|
          ensures if i % 2 == 0 then IsParam(rest[i]) else rest[i] == ","
        {
          assert rest[i] == items[i + 2];
          assert (i + 2) % 2 == i % 2;
        }
      }
      ParamStringsJoin(rest);
      assert items[1] == ",";
      assert items[1..][1..] == rest;
      assert |ParamStrings(rest)| > 0;
    } else {
      assert Concat(items) == items[0] + Concat([]);
    }
  }

  /** The reference names of an argument list as translated references. */
  function RefTexts(names: seq<string>, cwrap: string): (r: seq<string>)
    ensures |r| == |names|
    ensures forall i :: 0 <= i < |names| ==> r[i] == RhsCatalogEntry(cwrap, TableName(names[i]))
  {
    if |names| == 0 then [] else [RhsCatalogEntry(cwrap, TableName(names[0]))] + RefTexts(names[1..], cwrap)
  }

  function BlArgsOf(a: Option<OpArgs>, cwrap: string): BlArgs {
    if a.None? then NoArgs
    else match a.value
      case Lambda(arg, b) => LambdaArg(arg, b.code)
      case Refs(names) => ArgList(RefTexts(names, cwrap))
  }

  /** The `op` action over an operator node. */
  function BlTranslateOp(op: Op, cwrap: string): string {
    OpAction(OpNameAction(op.opname),
             if op.plist.Some? then Some(ParamStrings(op.plist.value)) else None,
             BlArgsOf(op.args, cwrap))
  }

  function BlTranslateOps(ops: seq<Op>, cwrap: string): (r: seq<string>)
    ensures |r| == |ops|
    ensures forall i :: 0 <= i < |ops| ==> r[i] == BlTranslateOp(ops[i], cwrap)
  {
    if |ops| == 0 then [] else [BlTranslateOp(ops[0], cwrap)] + BlTranslateOps(ops[1..], cwrap)
  }

  /** The `rule` action over a parsed rule with a text right-hand side: the
      target (streams renamed), the merge operator, and the pipeline of the
      renamed anchor and the translated operators between parentheses. */
  function BlTranslateRule(r: Rule, cwrap: string): (t: string)
    requires WfRule(r)
    ensures var anchor := if r.rhs.anchor.Some? then Some(RhsCatalogEntry(cwrap, TableName(r.rhs.anchor.value))) else None;
            var chain := if r.rhs.chain.Some? then Some(BlTranslateOps(OpsOf(r.rhs.chain.value), cwrap)) else None;
            t == TableName(r.lhs) + " " + MergeAction(r.mtype) + " (" + Join(BlStages(anchor, chain), " | ") + ")"
  {
    var anchor := if r.rhs.anchor.Some? then Some(RhsCatalogEntry(cwrap, TableName(r.rhs.anchor.value))) else None;
    var chain := if r.rhs.chain.Some? then Some(BlTranslateOps(OpsOf(r.rhs.chain.value), cwrap)) else None;
    assert chain.Some? ==> |chain.value| > 0 by {
      if r.rhs.chain.Some? {
        OpsOfChain(r.rhs.chain.value);
      }
    }
    var rhs := RhsAction(Initial, anchor, chain, None).1;
    var a := TableName(r.lhs) + " " + MergeAction(r.mtype);
    var j := Join(BlStages(anchor, chain), " | ");
    assert a + " " + ("(" + j + ")") == a + " (" + j + ")";
    RuleAction(Initial, TableName(r.lhs), MergeAction(r.mtype), rhs).1
  }

  /** No stream name among an operator's collection references. */
  predicate RefsPlain(op: Op) {
    op.args.Some? && op.args.value.Refs? ==>
      forall j :: 0 <= j < |op.args.value.catitems| ==> !IsStream(op.args.value.catitems[j])
  }

  /** No stream name among a rule's collection references. */
  predicate NoStreams(r: Rule) {
    && !IsStream(r.lhs)
    && (r.rhs.anchor.Some? ==> !IsStream(r.rhs.anchor.value))
    && (r.rhs.chain.Some? ==> forall i :: 0 <= i < |r.rhs.chain.value| && r.rhs.chain.value[i].OpNode? ==>
          RefsPlain(r.rhs.chain.value[i].op))
  }

  /** One operator reads the same in both front-ends. */
  lemma OpAgrees(op: Op, wrap: string)
    requires WfOp(op) && RefsPlain(op)
    ensures BlTranslateOp(op, "lra::" + wrap) == TranslateOp(op, wrap)
  {
    OpNameActionAgrees(op.opname, op.opname);
    if op.plist.Some? {
      ParamStringsJoin(op.plist.value);
    }
    if op.args.Some? && op.args.value.Refs? {
      var names := op.args.value.catitems;
      assert RefTexts(names, "lra::" + wrap) == WrapAll(names, wrap);
    }
  }

  /** A chain's operators read the same in both front-ends. */
  lemma ChainAgrees(items: seq<ChainItem>, wrap: string)
    requires WfChain(items)
    requires forall i :: 0 <= i < |items| && items[i].OpNode? ==> RefsPlain(items[i].op)
    ensures BlTranslateOps(OpsOf(items), "lra::" + wrap) == TranslateOps(OpsOf(items), wrap)
  {
    OpsOfChain(items);
    var ops := OpsOf(items);
    forall i | 0 <= i < |ops| ensures BlTranslateOp(ops[i], "lra::" + wrap) == TranslateOp(ops[i], wrap) {
      assert ops[i] == items[2 * i].op;
      OpAgrees(ops[i], wrap);
    }
  }

  /** The Bloom front-end, with the wrap given as `lra::` plus a Fluent wrap
      name, translates every well-formed rule over ordinary names exactly as
      the YAML translator does. */
  lemma RuleFrontEndsAgree(r: Rule, wrap: string)
    requires WfRule(r) && NoStreams(r)
    ensures BlTranslateRule(r, "lra::" + wrap) == ExpandRule(r, wrap)
  {
    var cwrap := "lra::" + wrap;
    ExpandRuleStages(r, wrap);
    MergeActionAgrees(r.mtype);
    var anchor := if r.rhs.anchor.Some? then Some(RhsCatalogEntry(cwrap, TableName(r.rhs.anchor.value))) else None;
    var chain := if r.rhs.chain.Some? then Some(BlTranslateOps(OpsOf(r.rhs.chain.value), cwrap)) else None;
    if r.rhs.chain.Some? {
      ChainAgrees(r.rhs.chain.value, wrap);
    }
    assert BlStages(anchor, chain) == Stages(r.rhs, wrap);
  }
}
