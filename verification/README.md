# Fluent code generators, modelled in Dafny

This project models the code generators of the Fluent dataflow runtime.
These generators turn declarative specifications into C++ that builds Fluent
programs:

- **The rule grammar.** A rule is `lhs <merge> rhs;`. The right-hand side is an anchor collection, a chain of relational operators, or both. This is the TatSu-generated parser of `fluent.py`. It is modelled as a parser on the unconsumed suffix with three outcomes: parsed, soft failure (the next alternative may be tried) and failure after a cut (no alternative may be tried). There are two kinds of cut: the explicit `~` in `rhs` after `anchor.`, and the cut TatSu's joins (`sep.{element}+`) make right after each separator, so a separator that no element follows fails the whole parse. The second cut is not written in `fluent.py`: it is how TatSu's runtime executes `_positive_join`, which the generated parser calls at `fluent.py:146`, `:191` and `:215`.
- **The YAML front-end** (`yml2fluent.py`):
  - the schema declarations and the table-name helpers derived from them;
  - the preloaded constant tuples and the bootstrap rules that read them;
  - the check of the reserved `address` argument;
  - the translation of each parsed rule into a Fluent C++ expression.
- **The Bloom front-end** (`bl2fluent.py`). These are the semantic actions of `BloomSemantics`. The class-wide dictionaries become an explicit `State` record holding `schema`, `rules`, `tups` and `tupbuf`, which each action takes and returns. Also modelled:
  - the constant-tuple part of `start`;
  - `register_rules`;
  - its own `translate_schema`.
- **The gRPC shim generator** (`cpp_generator.cc`):
  - the header-guard identifier of a file name;
  - the field type and name lists of a message;
  - the channel column lists;
  - the `std::get<i+3>` arguments of a method's rule;
  - the parameter and `make_tuple` lists of the shim function;
  - the package namespaces opened in the includes and closed in the epilogue.
- **`MockToSql`** (`mock_to_sql.h`): the type names and value texts for `bool`, `char`, `std::string`, the integer types and `std::array`.

The modules follow the program's structure:

| file | module | models |
|---|---|---|
| `text.dfy` | `Text` | Python `join`/`split`/`strip` on strings, decimal rendering of integers, `Option`/`Result` |
| `ordered_map.dfy` | `OrderedMaps` | insertion-ordered `dict`: keys keep their first position, assignment replaces in place |
| `ast.dfy` | `Ast` | the parse tree of a rule, its rendering back to text and its well-formedness |
| `parser.dfy` | `Parser` | the grammar of `fluent.py`, one function per grammar rule |
| `parser_props.dfy` | `ParserProps` | the parser accepts exactly the renderings of well-formed rules |
| `yml2fluent.dfy` | `Yml2Fluent` | rule translation of the YAML front-end |
| `schema.dfy` | `Schema` | schema, table-name, preload and argument helpers of the YAML front-end |
| `bloom.dfy` | `Bloom` | the semantic actions, `register_rules` and constant tuples of the Bloom front-end |
| `shim.dfy` | `Shim` | the list logic of the gRPC shim generator |
| `mock_to_sql.dfy` | `MockToSql` | `MockToSql<T>::Type()` and `Value()` |

Where a function only computes, the property lives in a lemma that relates it to a partner:

- an inverse: parser and renderer, identifier encoder and decoder, a value text and its reader, wrap and unwrap;
- the other front-end: the Bloom actions against the YAML translator;
- the corrected definition, where the source has a defect (see Findings).

## Model

Paths are relative to the repository root.

| member | source | states |
|---|---|---|
| Parser.CatalogEntry | src/codegen/bl2fluent/fluent.py:99-101 | a catalog entry is the longest non-empty run of word characters; soft failure exactly when the text does not start with a word character; never a cut failure |
| Parser.ParseMerge | src/codegen/bl2fluent/fluent.py:103-114 | a parsed merge is a prefix token of the input; soft failure exactly when no merge token prefixes it |
| Parser.ParseOpName | src/codegen/bl2fluent/fluent.py:165-180 | a parsed operator name is a prefix token; soft failure exactly when none of the six names prefixes the input |
| Parser.ParseLang | src/codegen/bl2fluent/fluent.py:239-254 | the language tag is one of the six tokens; `C`/`c` is only taken when `++` does not follow, since `C++` is tried first; soft failure exactly when no tag prefixes the input |
| Parser.ParseCodeBlock | src/codegen/bl2fluent/fluent.py:222-237 | a parsed code block is well formed and the input is its rendering followed by the rest |
| Parser.ParseTemplateParams | src/codegen/bl2fluent/fluent.py:182-197 | parsed parameters are well formed and the input is `<`, the parameters with their separators, `>` and the rest; soft failure when the input does not start with `<`; a `,` without a parameter after it is a cut failure (`ParamsSeparatorCut`) |
| Parser.ParseOpArgs | src/codegen/bl2fluent/fluent.py:199-220 | parsed arguments are a well-formed lambda or reference list, and the input is their rendering followed by the rest; a parsed reference list is never followed by `,`; soft failure exactly when the input does not start with a word character; a dangling `,` is a cut failure (`RefsSeparatorCut`) |
| Parser.ParseOp | src/codegen/bl2fluent/fluent.py:148-163 | a parsed operator is well formed and the input is its rendering followed by the rest; soft failure when no operator name starts the input; a cut inside the optional parameters or arguments fails the operator (`ArgsCutFailsOp`) |
| Parser.ParseOpChain | src/codegen/bl2fluent/fluent.py:138-146 | a parsed chain is a well-formed dot-separated operator list, the input is its rendering followed by the rest, and no `.` follows it; soft failure exactly when the first operator soft-fails; a `.` without an operator after it is a cut failure (`ChainSeparatorCut`) |
| Parser.ParseRhs | src/codegen/bl2fluent/fluent.py:116-136 | a parsed right-hand side is well formed, the input is its rendering followed by the rest, and no `.` follows it, whichever alternative produced it; a cut inside the chain, such as a dangling `,` in an operator's arguments, fails the whole right-hand side (`DanglingCommaFailsRhs`) |
| Parser.ParseRule | src/codegen/bl2fluent/fluent.py:85-97 | a parsed rule is well formed and the input is its rendering, through `;`, followed by the rest |
| Parser.ParseStart | src/codegen/bl2fluent/fluent.py:80-83 | a successful parse consumes the whole input |
| ParserProps.CatalogEntryComplete | src/codegen/bl2fluent/fluent.py:99-101 | every word followed by a non-word character is read whole |
| ParserProps.MergeComplete | src/codegen/bl2fluent/fluent.py:103-114 | each merge token is read back as its merge |
| ParserProps.OpNameComplete | src/codegen/bl2fluent/fluent.py:165-180 | each operator name is read back as itself |
| ParserProps.LangComplete | src/codegen/bl2fluent/fluent.py:239-254 | each language tag is read back, except `C`/`c` directly before `++` |
| ParserProps.CodeBlockComplete | src/codegen/bl2fluent/fluent.py:222-237 | every well-formed code block is read back from its rendering |
| ParserProps.TemplateParamsComplete | src/codegen/bl2fluent/fluent.py:182-197 | every well-formed parameter list is read back from its rendering |
| ParserProps.OpArgsComplete | src/codegen/bl2fluent/fluent.py:199-220 | every well-formed argument list is read back from its rendering before `)` |
| ParserProps.NoArgs | src/codegen/bl2fluent/fluent.py:156-158 | an empty argument list is a soft failure, so the optional arguments are absent |
| ParserProps.OpComplete | src/codegen/bl2fluent/fluent.py:148-163 | every well-formed operator is read back from its rendering |
| ParserProps.OpChainComplete | src/codegen/bl2fluent/fluent.py:138-146 | every well-formed chain is read back from its rendering before `;` |
| ParserProps.WordIsNoOp | src/codegen/bl2fluent/fluent.py:126-131 | a bare word before `;` is no operator, so the third alternative (anchor only) is reached |
| ParserProps.AnchoredComplete | src/codegen/bl2fluent/fluent.py:119-125 | `anchor.chain` is read as an anchored chain |
| ParserProps.ChainOnlyComplete | src/codegen/bl2fluent/fluent.py:126-128 | a chain without anchor is read by the second alternative |
| ParserProps.AnchorOnlyComplete | src/codegen/bl2fluent/fluent.py:129-131 | a lone anchor is read by the third alternative |
| ParserProps.RhsComplete | src/codegen/bl2fluent/fluent.py:116-136 | every well-formed right-hand side is read back from its rendering before `;` |
| ParserProps.RuleComplete | src/codegen/bl2fluent/fluent.py:85-97 | every well-formed rule is read back from its rendering, whatever follows |
| ParserProps.StartExact | src/codegen/bl2fluent/fluent.py:80-97 | the start rule accepts a text as rule `r` exactly when `r` is well formed and the text is its rendering |
| ParserProps.TrailingTextRejected | src/codegen/bl2fluent/fluent.py:80-83 | text after a complete rule makes the start rule fail |
| ParserProps.RenderRuleInjective | src/codegen/bl2fluent/fluent.py:85-97 | distinct well-formed rules have distinct texts, so the grammar is unambiguous on them |
| ParserProps.CutIsFinal | src/codegen/bl2fluent/fluent.py:119-125 | after `anchor.` the cut commits: if no chain follows, the start rule fails without trying the other alternatives |
| ParserProps.CutExample | src/codegen/bl2fluent/fluent.py:119-125 | `t<=r.bogus;` is a cut failure |
| ParserProps.ParamsSeparatorCut | src/codegen/bl2fluent/fluent.py:183-191 | `<p,` with no parameter after the `,` is a cut failure, for every parameter `p` |
| ParserProps.RefsSeparatorCut | src/codegen/bl2fluent/fluent.py:199-216 | `w,` with no reference after the `,` is a cut failure of the arguments, for every word `w`, although `w` alone would parse |
| ParserProps.ChainSeparatorCut | src/codegen/bl2fluent/fluent.py:138-146 | `op.` with no operator after the `.` is a cut failure of the chain, for every well-formed operator |
| ParserProps.ArgsCutFailsOp | src/codegen/bl2fluent/fluent.py:148-163 | a cut inside the optional arguments fails the operator instead of leaving the arguments out |
| ParserProps.DanglingCommaFailsRhs | src/codegen/bl2fluent/fluent.py:116-125 | `anchor.op(w,)…` is a cut failure of the right-hand side, so no shorter alternative is tried |
| Yml2Fluent.ConvertMtype | src/codegen/yml2fluent/yml2fluent.py:233-239 | `<+` gives `+=`, `<-` gives `-=`, and every other text gives `<=` |
| Yml2Fluent.ConvertMtypeOfMerge | src/codegen/yml2fluent/yml2fluent.py:233-239 | on parsed merges the conversion agrees with the merge's operator; `<~` (async) maps like `<=` |
| Yml2Fluent.CppOpName | src/codegen/yml2fluent/yml2fluent.py:248-252 | `cross` becomes `make_cross`, `where` becomes `filter`, and other names are kept |
| Yml2Fluent.CppOpNameInjective | src/codegen/yml2fluent/yml2fluent.py:248-252 | distinct grammar operators get distinct C++ names |
| Yml2Fluent.WrapCollectionRoundTrip | src/codegen/yml2fluent/yml2fluent.py:262-263 | the wrapped text gives the collection name back |
| Yml2Fluent.UnwrapCollection | src/codegen/yml2fluent/yml2fluent.py:262-263 | whatever it reads back, wrapping gives the text again |
| Yml2Fluent.RefsArgsSplit | src/codegen/yml2fluent/yml2fluent.py:265-278 | the translated reference list splits at `, ` into one wrapped collection per reference, in order |
| Yml2Fluent.IterateCatItem | src/codegen/yml2fluent/yml2fluent.py:276-277 | iterating a lone reference string yields its characters; iterating a list yields the references |
| Yml2Fluent.AsWrittenAgreesOnLists | src/codegen/yml2fluent/yml2fluent.py:265-278 | the as-written translation is right on lambdas, on lists of two or more references and on one-letter references |
| Yml2Fluent.AsWrittenMisreadsSingleReference | src/codegen/yml2fluent/yml2fluent.py:276-277 | as written, a lone reference of two or more letters is translated wrongly |
| Yml2Fluent.TranslateOpArgs | src/codegen/yml2fluent/yml2fluent.py:265-277 | a code-block argument ends with the code block copied verbatim; a reference list translates to nothing exactly when it is empty |
| Yml2Fluent.TranslateOp | src/codegen/yml2fluent/yml2fluent.py:247-260 | the translation starts with `lra::`, the C++ name and the parameters, then `(`, and ends with `)`; with no arguments the parentheses are empty, a lambda argument sits whole between them, and a reference list between them splits at `, ` into one wrapped collection per reference |
| Yml2Fluent.ParamsVerbatim | src/codegen/yml2fluent/yml2fluent.py:253-255 | the parsed input and the translation carry the same characters between `<` and `>`, right after the operator's name |
| Yml2Fluent.AsWrittenOpAgrees | src/codegen/yml2fluent/yml2fluent.py:247-260 | the operator translated as written agrees with the corrected one on lambdas, on lists of two or more references and on one-letter references |
| Yml2Fluent.AsWrittenOpMisreads | src/codegen/yml2fluent/yml2fluent.py:257-258 | an operator whose only reference has two or more letters translates differently as written |
| Yml2Fluent.OpsOfChain | src/codegen/yml2fluent/yml2fluent.py:244-245 | the operators of a chain are its items at even positions, separators dropped |
| Yml2Fluent.TranslateOps | src/codegen/yml2fluent/yml2fluent.py:244-245 | one translation per operator, in chain order |
| Yml2Fluent.TranslateChainUnfold | src/codegen/yml2fluent/yml2fluent.py:244-245 | a lone operator translates to itself; a longer chain gives its first operator, ` \| `, and the translation of the chain after the first `.` |
| Yml2Fluent.ExpandRuleStages | src/codegen/yml2fluent/yml2fluent.py:280-292 | a translated rule is `lhs op (`, its stages joined by ` \| `, and `)`, with the separator exactly between neighbouring stages |
| Yml2Fluent.StagesOrder | src/codegen/yml2fluent/yml2fluent.py:280-292 | an anchored chain of n operators has n+1 stages: the wrapped anchor first, then operator i at position i+1 |
| Yml2Fluent.RuleLines | src/codegen/yml2fluent/yml2fluent.py:308-313 | one `auto k = ...;` line per rule in dictionary order; an error exactly when some rule does not parse, naming such a rule |
| Yml2Fluent.TranslateRules | src/codegen/yml2fluent/yml2fluent.py:294-315 | the block translates exactly when every rule parses |
| Yml2Fluent.ReturnLineKeys | src/codegen/yml2fluent/yml2fluent.py:314 | the `make_tuple` list splits at `,` back into the rule variables, in order |
| Yml2Fluent.TranslateRenderedRules | src/codegen/yml2fluent/yml2fluent.py:308-313 | rules given as renderings of well-formed rules always translate, each to the line of its own rule |
| Schema.TableName | src/codegen/bl2fluent/bl2fluent.py:163-170 | `stdin` becomes `fluin`, `stdout` becomes `fluout`, and other names are kept |
| Schema.TranslateSchema | src/codegen/yml2fluent/yml2fluent.py:335-362 | an error exactly when a non-stream entry has no definition, naming such an entry; otherwise one line per entry |
| Schema.TranslateSchemaLines | src/codegen/yml2fluent/yml2fluent.py:348-361 | a stream entry becomes `name()`; any other entry becomes its `template kind<types>("name", {{"cols"}})` line |
| Schema.ExtractTableName | src/codegen/yml2fluent/yml2fluent.py:155-172 | an error (the source's index error) exactly when the text is neither stream nor holds a `(` |
| Schema.CollectionLineRoundTrip | src/codegen/yml2fluent/yml2fluent.py:155-172 | the name is read back from a declaration line of any name without `(`, `,` or edge quotes and blanks |
| Schema.SchemaLineRoundTrip | src/codegen/yml2fluent/yml2fluent.py:155-172 | every line `translate_schema` produces gives back its entry's table name |
| Schema.StreamLineName | src/codegen/yml2fluent/yml2fluent.py:166-169 | `stdin()` and `stdout()` give `fluin` and `fluout` |
| Schema.TableNames | src/codegen/yml2fluent/yml2fluent.py:184 | the name list succeeds exactly when every line yields a name, and lists them in order |
| Schema.ArglistTablenames | src/codegen/yml2fluent/yml2fluent.py:174-184 | succeeds exactly when every table name can be extracted; when no name holds a comma, the list splits at `, ` into one `auto&` parameter per table, in table order |
| Schema.AvoidUnusedTableWarnings | src/codegen/yml2fluent/yml2fluent.py:186-195 | succeeds exactly when every table name can be extracted; when no name holds a line break, the text splits into one `(void)name;` line per table, in table order |
| Schema.TableListsFollowSchema | src/codegen/yml2fluent/yml2fluent.py:174-195 | on the schema's own lines, the argument list and the `(void)` lines name the schema's tables in order, streams renamed |
| Schema.ChainSchemaDefsLines | src/codegen/yml2fluent/yml2fluent.py:317-333 | the chain is the `    .`-prefixed definitions, one per line, newline-terminated |
| Schema.MakeCollectionName | src/codegen/yml2fluent/yml2fluent.py:197-198 | the vector name extends the table name by a fixed suffix |
| Schema.MakeCollectionNameInjective | src/codegen/yml2fluent/yml2fluent.py:197-198 | distinct tables get distinct vector names |
| Schema.PreloadTypes | src/codegen/yml2fluent/yml2fluent.py:200-219 | succeeds exactly when every preloaded table has a schema definition; an error names a table without one |
| Schema.PreloadTypesBlocks | src/codegen/yml2fluent/yml2fluent.py:207-219 | with every preloaded table defined, the text is the tables' blocks one after the other, in preload order |
| Schema.PreloadBlockLines | src/codegen/yml2fluent/yml2fluent.py:209-218 | a block's lines are the `using <table>_tuple_t = std::tuple<...>;` line over the definition's column types joined by `,`, the `std::vector<<table>_tuple_t> <table>_tuples = {` line, one `make_tuple` line per preloaded tuple in order with `,` after all but the last, and `};` |
| Schema.AddBootRulesOrder | src/codegen/yml2fluent/yml2fluent.py:221-231 | bootstrap rules already present keep their places, ahead of the new ones |
| Schema.AddBootRulesOther | src/codegen/yml2fluent/yml2fluent.py:221-231 | every key that is not a `_boot` key of a preloaded table keeps its rule |
| Schema.AddBootRulesReads | src/codegen/yml2fluent/yml2fluent.py:221-231 | with distinct tables, each `<tab>_boot` holds that table's preload rule |
| Schema.BootKeyInjective | src/codegen/yml2fluent/yml2fluent.py:230 | distinct tables get distinct bootstrap keys |
| Schema.PreloadRuleReadsVector | src/codegen/yml2fluent/yml2fluent.py:226-227 | the stored text is `tab <= tab_tuples;` with blanks around the merge; the grammar reads it back as that rule; its translation reads the constant vector through the bootstrap wrap |
| Schema.EnsureAddressArg | src/codegen/yml2fluent/yml2fluent.py:375-382 | on success `address` is `std::string`; an error exactly when `address` is declared with another type |
| Schema.EnsureAddressArgFrame | src/codegen/yml2fluent/yml2fluent.py:375-382 | every other argument keeps its type, and the declared order is kept |
| Schema.EnsureAddressArgIdempotent | src/codegen/yml2fluent/yml2fluent.py:375-382 | running the check again changes nothing |
| Bloom.RhsCatalogEntryAgrees | src/codegen/bl2fluent/bl2fluent.py:205-206 | with the wrap `lra::<name>`, a Bloom collection reference is the YAML front-end's wrapped collection |
| Bloom.OpNameActionAgrees | src/codegen/bl2fluent/bl2fluent.py:202-212 | an operator name becomes `lra::` plus the YAML front-end's C++ name, and distinct operators stay distinct |
| Bloom.MergeActionAgrees | src/codegen/bl2fluent/bl2fluent.py:214-224 | the merge actions give the same operator as the YAML front-end's conversion |
| Bloom.OpAction | src/codegen/bl2fluent/bl2fluent.py:186-200 | the translated operator starts with its name and ends with `)` |
| Bloom.RhsAction | src/codegen/bl2fluent/bl2fluent.py:172-184 | a tuple set is buffered in the state and yields no text; otherwise the state is unchanged and the text is the stages joined by ` \| ` in parentheses |
| Bloom.RhsStages | src/codegen/bl2fluent/bl2fluent.py:173-179 | the anchor, the conditional ` \| ` and the joined chain form exactly the stage list joined by ` \| ` |
| Bloom.RuleAction | src/codegen/bl2fluent/bl2fluent.py:154-161 | a rule without right-hand-side text records the buffered tuples under its table and empties the buffer; other rules leave the state alone |
| Bloom.TupleRuleCapture | src/codegen/bl2fluent/bl2fluent.py:154-161 | a tuple-set rule ends with its tuples under its table and the buffer empty, and reads the vector of that table; other tables' tuples are untouched |
| Bloom.StmtAction | src/codegen/bl2fluent/bl2fluent.py:144-148 | an empty statement stays empty; any other is indented and `;`-terminated around its unchanged text |
| Bloom.CatalogEntryAction | src/codegen/bl2fluent/bl2fluent.py:163-170 | the entry's pieces are joined; `stdin` and `stdout` become `fluin` and `fluout`, and any other name, a single piece in particular, is kept as read |
| Bloom.LogicActionAppend | src/codegen/bl2fluent/bl2fluent.py:141-142 | the text of two runs of statements is the first run's text followed by the second's |
| Bloom.RuleDefAction | src/codegen/bl2fluent/bl2fluent.py:150-152 | the variable is registered with its rule; schema and tuples are untouched |
| Bloom.SchemaDefAction | src/codegen/bl2fluent/bl2fluent.py:226-239 | the table (streams renamed) is registered with no definition for a stream and with kind and columns otherwise; no text; rules and tuples untouched |
| Bloom.RunSchemaDefsAppends | src/codegen/bl2fluent/bl2fluent.py:226-239 | declarations of distinct new tables append their entries to the registry in order |
| Bloom.BlTranslateSchema | src/codegen/bl2fluent/bl2fluent.py:511-528 | succeeds exactly when every entry other than `fluin`/`fluout` has a definition; one line per entry |
| Bloom.SchemaFrontEndsAgree | src/codegen/bl2fluent/bl2fluent.py:499-528 | the registry built by the schema actions is the declared schema, and its Bloom translation equals the YAML translation of the same declarations |
| Bloom.RegisterRulesAsWritten | src/codegen/bl2fluent/bl2fluent.py:117-119 | no text exactly when the rule text is missing or empty |
| Bloom.RunBlockRegisters | src/codegen/bl2fluent/bl2fluent.py:150-152 | running a block of distinct new rule definitions appends their variables to the registered rules, in order |
| Bloom.AsWrittenBootstrapListsSteadyRules | src/codegen/bl2fluent/bl2fluent.py:117-138 | as written, both blocks return every registered rule variable, so the bootstrap block returns steady-state variables it never declares |
| Bloom.OwnBlockListsOwnVars | src/codegen/bl2fluent/bl2fluent.py:117-138 | corrected, each block returns exactly the variables its own definitions declare |
| Bloom.StartRulesOwnVars | src/codegen/bl2fluent/bl2fluent.py:108-111 | corrected, `start` emits the bootstrap block and then the steady-state block, each returning exactly the variables it defines |
| Bloom.AsWrittenInitializerHoldsSemicolon | src/codegen/bl2fluent/bl2fluent.py:105-106 | as written, the constant initializer always ends in `;` |
| Bloom.InitializerIsList | src/codegen/bl2fluent/bl2fluent.py:105-106 | corrected, the initializer holds no `;` unless a value does, and a non-empty one ends with its last `make_tuple(...)` |
| Bloom.ConstantTuplesWith | src/codegen/bl2fluent/bl2fluent.py:98-106 | the constant-tuple declarations succeed exactly when every captured table is registered with columns |
| Bloom.ConstantTuplesBlocks | src/codegen/bl2fluent/bl2fluent.py:98-106 | with every captured table registered, the text is one block per table, one after the other in capture order |
| Bloom.ConstantBlockLines | src/codegen/bl2fluent/bl2fluent.py:99-106 | corrected, a block's lines are the `using` line over the registered column types joined by `, `, the vector line named after the table, one `make_tuple` line per tuple in order with `,` after all but the last, and `};` |
| Bloom.ConstantBlockLinesAsWritten | src/codegen/bl2fluent/bl2fluent.py:99-106 | as written, every `make_tuple` line ends in `;`, the last one included, and an empty tuple set leaves a lone `;` line |
| Bloom.ConstantTuples | src/codegen/bl2fluent/bl2fluent.py:98-106 | corrected, with every captured table registered, the output is the corrected blocks in capture order |
| Bloom.ConstantTuplesAsWritten | src/codegen/bl2fluent/bl2fluent.py:98-106 | as written, with every captured table registered, the output is the as-written blocks in capture order |
| Bloom.ParamStringsJoin | src/codegen/bl2fluent/bl2fluent.py:189 | comma-joining the parameter strings gives back the parameter text the parser read |
| Bloom.OpAgrees | src/codegen/bl2fluent/bl2fluent.py:186-200 | on references without streams, a Bloom operator translation equals the YAML one |
| Bloom.ChainAgrees | src/codegen/bl2fluent/bl2fluent.py:178-179 | the operator translations of a chain agree with the YAML front-end's, one by one |
| Bloom.RuleFrontEndsAgree | src/codegen/bl2fluent/bl2fluent.py:154-184 | with the wrap `lra::<name>`, every well-formed rule over non-stream names translates exactly as the YAML front-end translates it |
| Bloom.BlTranslateRule | src/codegen/bl2fluent/bl2fluent.py:154-184 | a translated rule is its target with streams renamed, the merge operator, and between parentheses the renamed anchor and the translated operators joined by ` \| ` |
| Shim.SignedNibbles | src/shim_gen/grpc/cpp_generator.cc:55-58 | the shift-and-mask nibbles of a signed `char` are the byte's two hexadecimal digits |
| Shim.FilenameIdentifier | src/shim_gen/grpc/cpp_generator.cc:48-62 | the loop computes the identifier: alphanumerics kept, any other byte as `_` and two hex digits; length grows by two per escape; only alphanumerics and `_` |
| Shim.DecodeIdentifier | src/shim_gen/grpc/cpp_generator.cc:48-62 | reading the identifier back gives the file name |
| Shim.IdentifierInjective | src/shim_gen/grpc/cpp_generator.cc:48-62 | distinct file names get distinct header guards |
| Shim.FieldNames | src/shim_gen/grpc/cpp_generator.cc:101-108 | one name per field, in field order |
| Shim.AsWrittenFieldTypesDropEnums | src/shim_gen/grpc/cpp_generator.cc:84-87 | as written, the type list is one shorter than the name list per enum field |
| Shim.AsWrittenFieldTypesAreNonEnumTypes | src/shim_gen/grpc/cpp_generator.cc:64-99 | as written, the type list is exactly the intended types of the non-enum fields, in field order: enum fields are skipped and nothing else changes |
| Shim.FieldTypes | src/shim_gen/grpc/cpp_generator.cc:64-99 | corrected, one type per field in field order: `std::string` for strings, the colon-separated type name for enums and messages, the category's name otherwise |
| Shim.FieldTypesAgreeWithoutEnums | src/shim_gen/grpc/cpp_generator.cc:64-99 | without enum fields, the as-written and corrected lists are the same |
| Shim.ChannelArity | src/shim_gen/grpc/cpp_generator.cc:314-341 | corrected, request and reply channels declare as many types as columns; as written, fewer when the message has an enum field |
| Shim.PrintSeparated | src/shim_gen/grpc/cpp_generator.cc:320-326 | the print-then-separator loop prints the items joined by the separator |
| Shim.PrintColumns | src/shim_gen/grpc/cpp_generator.cc:315-327 | a channel's column list is the fixed and field columns quoted and `, `-separated; with no fields, a trailing `, ` remains |
| Shim.GetArgs | src/shim_gen/grpc/cpp_generator.cc:403-409 | one `std::get<i+3>(t)` per request field |
| Shim.PrintMethodRuleArgs | src/shim_gen/grpc/cpp_generator.cc:403-409 | the client call's arguments are those `get`s, `, `-separated |
| Shim.GetArgReadsField | src/shim_gen/grpc/cpp_generator.cc:403-405 | argument i reads tuple position i+3, which the request channel gives to field i |
| Shim.ChannelParams | src/shim_gen/grpc/cpp_generator.cc:441-448 | one request-and-reply parameter pair per method, in method order |
| Shim.ChannelParamsFlat | src/shim_gen/grpc/cpp_generator.cc:441-448 | the parameter list is one `auto&` parameter per channel, request before reply, method by method |
| Shim.PrintFluentParams | src/shim_gen/grpc/cpp_generator.cc:441-448 | the printed parameter list is the channels' parameter pairs, method by method, separated by `, ` |
| Shim.PrintMakeTuple | src/shim_gen/grpc/cpp_generator.cc:461-469 | the returned tuple lists the method names, `, `-separated, and splits back into them |
| Shim.OpenCloseBalanced | src/shim_gen/grpc/cpp_generator.cc:168-175 | opening the package parts and then closing them in reverse leaves the open scopes as they were |
| Shim.NamespacesBalanced | src/shim_gen/grpc/cpp_generator.cc:493-501 | the epilogue closes the namespaces the includes opened, innermost first, leaving none open |
| Shim.NamespaceLines | src/shim_gen/grpc/cpp_generator.cc:168-175 | an empty package prints no namespace lines; otherwise the includes open each part, outermost first, and the epilogue closes each part, innermost first, each followed by a blank line |
| Shim.OpenLines | src/shim_gen/grpc/cpp_generator.cc:170-173 | line i opens the i-th package part |
| Shim.CloseLines | src/shim_gen/grpc/cpp_generator.cc:496-499 | line i closes the package part i places from the end |
| MockToSql.TypeName | src/lineagedb/mock_to_sql.h:23-93 | only array names start with `a`; every array name ends with `>` |
| MockToSql.TypeNameInjective | src/lineagedb/mock_to_sql.h:23-93 | distinct column types have distinct names, arrays included |
| MockToSql.ParseScalar | src/lineagedb/mock_to_sql.h:23-75 | whatever a value text reads back as has the column's type |
| MockToSql.ScalarRoundTrip | src/lineagedb/mock_to_sql.h:23-75 | the value text of every boolean, character, string and in-range integer reads back as the value |
| MockToSql.ArrayRoundTrip | src/lineagedb/mock_to_sql.h:95-101 | an array's bracketed, joined text reads back as the array when no element text holds the separator |
| MockToSql.IntArrayRoundTrip | src/lineagedb/mock_to_sql.h:95-101 | integer arrays always read back when the separator does not start with a digit or `-` |

## Left out

- **Parser whitespace, nameguard and Unicode.** TatSu's whitespace skipping and nameguard are not modelled. `\w` is ASCII letters, digits and `_`. Rules are therefore modelled without blanks between tokens.
- Schema.PreloadRuleReadsVector: a consequence of the previous point. The stored text has a blank on each side of `<=`. The lemma proves that the text equals the rendering with those blanks added, and that the grammar reads the blank-free rendering back.
- **The Bloom grammar.** The grammar the Bloom actions run on (`fluent2.tatsu`) is not part of this model. The actions take their children's values as the model's parse tree provides them:
  - chains and parameter lists arrive without their separators;
  - with the separator-keeping joins of `fluent.py`, the `','.join(plist)` of `op` would double the commas.
- **`translate_rules` of the YAML front-end.** It reads its grammar from `./fluent.ebnf` at each rule. That file is not part of this model, and the grammar of `fluent.py` stands in for it.
- **Output code fragments.** Code blocks are kept verbatim. The model does not check what they contain.
- **Reading and writing files.** YAML loading (`ordered_load`), `codegen`'s file output, `fullparse`, `main` and the command line are left out.
- **Generated-file headers and footers.** `fluent_prologue` and `fluent_epilogue` of both front-ends are fixed boilerplate and are left out.
- **Unused YAML helpers.** `input_schema` and the commented-out code of `yml2fluent.py` are left out.
- **Bloom copies of YAML helpers.** `bl2fluent.py` keeps its own copies of the YAML front-end's helpers at lines 324-497. They are modelled once, in `Schema`. Its own `translate_schema` is modelled separately, as `Bloom.BlTranslateSchema`.
- **Dictionaries in `start`.** The `args` dictionary built in `start` only feeds the header, which is left out.
- **Protobuf descriptors and printing.** In `cpp_generator.cc`:
  - descriptors are plain records;
  - `DotsToColons` is a function parameter;
  - the printer's indentation and fixed text are not modelled;
  - so are `GetApiFunction`, the rest of `GetPrologue`/`GetIncludes`, and the single-service check.
  - The `default:` branch of `FieldTypes` cannot be reached with the model's closed set of categories.
- Shim.FilenameIdentifier: `isalnum` is taken in the C locale on bytes below 128. Bytes of 128 and above count as non-alphanumeric. Calling `isalnum` on a negative `char` is undefined in C, and the model does not capture that.
- **The header-guard comment.** The guard `#ifndef` uses the `FLUENT_` prefix while the closing comment says `GRPC_`. This only affects a comment, so it is left out.
- **Floating point in `MockToSql`.** The `float` and `double` specialisations (`std::to_string` on floating point) are left out.
- **The array separator.** `Join` of `common/string_util.h` is not part of this model, so the element separator is a parameter.
- MockToSql.InRange: assumes 16-bit `short`, 32-bit `int` and 64-bit `long`, the common LP64 platform.
- **Tests.** `test.py` and `count_test.cc` are context only, and neither is modelled.
- Yml2Fluent.TranslateOp: it uses the corrected argument translation (see "Findings"). The operator as written is `TranslateOpAsWritten`. The two differ only on an operator whose single reference has two or more characters (`AsWrittenOpAgrees`, `AsWrittenOpMisreads`).
- Yml2Fluent.TranslateChain: it is built on the corrected `TranslateOp`, so it does not promise the as-written text for a single reference of two or more characters.
- Yml2Fluent.ExpandRule: the same holds for rules. For such a reference, the promised text is the corrected one.
- Yml2Fluent.RuleLines: the same holds for each rule line.
- Yml2Fluent.TranslateRules: the same holds for the translated block.
- **Exceptions.** Python exceptions (`KeyError`, `IndexError`, the reserved-`address` exception) are the `Err` side of a `Result`, naming the offending key where the source would fail on it.

## Findings

| source | as written | input that shows it | evidently intended | confidence | as-written member | corrected member |
|---|---|---|---|---|---|---|
| src/codegen/yml2fluent/yml2fluent.py:276-277 | `translate_op_args` iterates `args.catitem`, which TatSu keeps as a plain string when the join matched a single reference | `t <= a.join(bc);`: the lone reference `bc` is wrapped letter by letter, as `lra::make_collection(&b), lra::make_collection(&c)` | wrap the one reference as a whole | not executed; relies on TatSu binding a name matched once to a bare value | Yml2Fluent.TranslateOpArgsAsWritten, Yml2Fluent.AsWrittenMisreadsSingleReference, Yml2Fluent.AsWrittenOpMisreads | Yml2Fluent.TranslateOpArgs, Yml2Fluent.RefsArgsSplit, Yml2Fluent.TranslateOp |
| src/codegen/bl2fluent/bl2fluent.py:134 | `register_rules` returns `self.rules.keys()`, the class-wide registry of every rule definition in the program | a program with bootstrap rule `b` and steady-state rule `r`: the bootstrap lambda returns `make_tuple(b, r)` but never declares `r` | each block returns the variables it declares | not executed | Bloom.StartRulesAsWritten, Bloom.AsWrittenBootstrapListsSteadyRules | Bloom.StartRules, Bloom.OwnBlockListsOwnVars |
| src/shim_gen/grpc/cpp_generator.cc:84-87 | the enum case of `FieldTypes` breaks out of the `switch` before it appends the type | a request message with one enum field: the channel declares one type fewer than it has columns | append the enum's type, as the message case does | not executed | Shim.FieldTypesAsWritten, Shim.AsWrittenFieldTypesDropEnums, Shim.AsWrittenFieldTypesAreNonEnumTypes | Shim.FieldTypes, Shim.ChannelArity |
| src/codegen/bl2fluent/bl2fluent.py:105-106 | constant tuples are joined with `;` and a newline inside a braced initializer, and a `;` follows the last | a table with one constant tuple: `{ std::make_tuple(1); };`, which is not a valid initializer | comma-separated elements, as the YAML front-end writes them | not executed | Bloom.InitializerAsWritten, Bloom.AsWrittenInitializerHoldsSemicolon | Bloom.Initializer, Bloom.InitializerIsList |
