/** The parse tree of one Bloom-style rule, as the rule grammar builds it,
    with the surface text each node was read from (`Render*`) and the shape
    constraints the grammar guarantees (`Wf*`).

    Two details follow the grammar's `%{ }+` joins, which keep their
    separators: an operator chain is a list of operator nodes with a `Dot`
    between neighbours, and a template-parameter list holds its `","`
    separators between the parameter strings. */
module Ast {
  import opened Text

  /** The four merge tokens `<=`, `<+`, `<~`, `<-`. */
  datatype Merge = Now | Next | Async | Delete

  /** The closed operator vocabulary. */
  datatype OpName = OpWhere | OpProject | OpMap | OpCross | OpJoin | OpGroupBy

  datatype CodeBlock = CodeBlock(lang: string, code: string)

  /** The two argument shapes: a lambda (parameter name and fenced code) or
      one or more collection references. */
  datatype OpArgs = Lambda(argname: string, block: CodeBlock) | Refs(catitems: seq<string>)

  datatype Op = Op(opname: OpName, plist: Option<seq<string>>, args: Option<OpArgs>)

  datatype ChainItem = OpNode(op: Op) | Dot

  datatype Rhs = Rhs(anchor: Option<string>, chain: Option<seq<ChainItem>>)

  datatype Rule = Rule(lhs: string, mtype: Merge, rhs: Rhs)

  // ---------------------------------------------------------------------
  // Fixed tokens
  // ---------------------------------------------------------------------

  function MergeText(m: Merge): string {
    match m
    case Now => "<="
    case Next => "<+"
    case Async => "<~"
    case Delete => "<-"
  }

  function OpNameText(n: OpName): string {
    match n
    case OpWhere => "where"
    case OpProject => "project"
    case OpMap => "map"
    case OpCross => "cross"
    case OpJoin => "join"
    case OpGroupBy => "groupby"
  }

  const Fence: string := "```"

  /** The language tags, in the order the grammar tries them. */
  const LangTokens: seq<string> := ["C++", "c++", "C", "c", "Python", "python"]

  /** A character the code-body pattern `[^'```']+` accepts: anything but a
      quote or a backtick. */
  predicate IsCodeChar(c: char) { c != '\'' && c != '`' }

  /** A character of the template-parameter pattern `[\w ]+`. */
  predicate IsParamChar(c: char) { IsWordChar(c) || c == ' ' }

  // ---------------------------------------------------------------------
  // Surface text of each node
  // ---------------------------------------------------------------------

  function RenderCodeBlock(b: CodeBlock): string {
    Fence + b.lang + b.code + Fence
  }

  function RenderArgs(a: OpArgs): string {
    match a
    case Lambda(arg, b) => arg + RenderCodeBlock(b)
    case Refs(names) => Join(names, ",")
  }

  function RenderOp(op: Op): string {
    OpNameText(op.opname)
      + (if op.plist.Some? then "<" + Concat(op.plist.value) + ">" else "")
      + "(" + (if op.args.Some? then RenderArgs(op.args.value) else "") + ")"
  }

  function RenderItem(item: ChainItem): string {
    match item
    case OpNode(op) => RenderOp(op)
    case Dot => "."
  }

  function RenderChain(items: seq<ChainItem>): string {
    if |items| == 0 then "" else RenderItem(items[0]) + RenderChain(items[1..])
  }

  function RenderRhs(r: Rhs): string {
    (if r.anchor.Some? then r.anchor.value else "")
      + (if r.anchor.Some? && r.chain.Some? then "." else "")
      + (if r.chain.Some? then RenderChain(r.chain.value) else "")
  }

  function RenderRule(r: Rule): string {
    r.lhs + MergeText(r.mtype) + RenderRhs(r.rhs) + ";"
  }

  // ---------------------------------------------------------------------
  // Well-formed trees: the ones the grammar can produce
  // ---------------------------------------------------------------------

  predicate IsParam(s: string) {
    |s| > 0 && forall i :: 0 <= i < |s| ==> IsParamChar(s[i])
  }

  predicate IsCode(s: string) {
    |s| > 0 && forall i :: 0 <= i < |s| ==> IsCodeChar(s[i])
  }

  /** Parameter strings at even positions, `","` at odd positions. */
  predicate WfParams(items: seq<string>) {
    && |items| % 2 == 1
    && forall i :: 0 <= i < |items| ==> (if i % 2 == 0 then IsParam(items[i]) else items[i] == ",")
  }

  /** A code block the grammar reads back unchanged: a known tag, a non-empty
      body, and no body that would extend a `C`/`c` tag to `C++`/`c++`. */
  predicate WfCodeBlock(b: CodeBlock) {
    && b.lang in LangTokens
    && IsCode(b.code)
    && ((b.lang == "C" || b.lang == "c") ==> !("++" <= b.code))
  }

  predicate WfArgs(a: OpArgs) {
    match a
    case Lambda(arg, b) => IsWord(arg) && WfCodeBlock(b)
    case Refs(names) => |names| > 0 && forall i :: 0 <= i < |names| ==> IsWord(names[i])
  }

  predicate WfOp(op: Op) {
    && (op.plist.Some? ==> WfParams(op.plist.value))
    && (op.args.Some? ==> WfArgs(op.args.value))
  }

  /** Operator nodes at even positions, `Dot` at odd positions. */
  predicate WfChain(items: seq<ChainItem>) {
    && |items| % 2 == 1
    && forall i :: 0 <= i < |items| ==>
         (if i % 2 == 0 then items[i].OpNode? && WfOp(items[i].op) else items[i].Dot?)
  }

  predicate WfRhs(r: Rhs) {
    && (r.anchor.Some? || r.chain.Some?)
    && (r.anchor.Some? ==> IsWord(r.anchor.value))
    && (r.chain.Some? ==> WfChain(r.chain.value))
  }

  predicate WfRule(r: Rule) {
    IsWord(r.lhs) && WfRhs(r.rhs)
  }
}
