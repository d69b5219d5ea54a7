/** The schema side of the YAML front-end: collection declarations and the
    table names read back from them, the per-table argument lists of the
    rule blocks, the preloaded constant collections and the bootstrap rules
    that read them, and the reserved `address` argument. */
module Schema {
  import opened Text
  import opened OrderedMaps
  import opened Ast
  import opened Parser
  import opened ParserProps
  import opened Yml2Fluent

  /** A collection definition: its kind (`table`, `channel`, ...) and its
      columns, name to C++ type, in declaration order. */
  datatype CollectionDef = CollectionDef(kind: string, cols: ODict<string>)

  /** A schema: collection name to definition. The standard streams carry no
      definition of their own. */
  type SchemaDict = ODict<Option<CollectionDef>>

  /** The two stream names the YAML schema may list. */
  predicate IsStream(name: string) { name == "stdin" || name == "stdout" }

  /** The C++ variable standing for a collection: the streams are renamed
      `fluin` / `fluout`, every other name is kept. */
  function TableName(name: string): (r: string)
    ensures name == "stdin" ==> r == "fluin"
    ensures name == "stdout" ==> r == "fluout"
    ensures !IsStream(name) ==> r == name
  {
    if name == "stdin" then "fluin" else if name == "stdout" then "fluout" else name
  }

  // ---------------------------------------------------------------------
  // Collection declarations (`translate_schema`)
  // ---------------------------------------------------------------------

  function Quoted(xs: seq<string>): (r: seq<string>)
    ensures |r| == |xs|
    ensures forall i :: 0 <= i < |xs| ==> r[i] == "\"" + xs[i] + "\""
  {
    if |xs| == 0 then [] else ["\"" + xs[0] + "\""] + Quoted(xs[1..])
  }

  /** The part of a declaration before its first `(`. */
  function DeclHead(d: CollectionDef): string {
    "template " + d.kind + "<" + Join(Values(d.cols), ", ") + ">"
  }

  /** The part of a declaration after the quoted name. */
  function DeclTail(d: CollectionDef): string {
    " {{" + Join(Quoted(Keys(d.cols)), ", ") + "}})"
  }

  /** `template kind<T1, ..., Tn>("name", {{"c1", ..., "cn"}})`. */
  function CollectionLine(name: string, d: CollectionDef): string {
    DeclHead(d) + "(" + "\"" + name + "\"" + "," + DeclTail(d)
  }

  /** `translate_schema` of the YAML front-end: a stream becomes `stdin()` /
      `stdout()` whatever its definition says; any other entry needs a
      definition (the source fails on a missing one), and the first entry
      without one is reported. */
  function TranslateSchema(schema: SchemaDict): (r: Result<seq<string>, string>)
    ensures r.Ok? <==> forall i :: 0 <= i < |schema| ==> IsStream(schema[i].0) || schema[i].1.Some?
    ensures r.Ok? ==> |r.value| == |schema|
    ensures r.Err? ==> exists i :: 0 <= i < |schema| && schema[i].0 == r.error && !IsStream(schema[i].0) && schema[i].1.None?
  {
    if |schema| == 0 then Ok([])
    else
      var (name, defn) := schema[0];
      if !IsStream(name) && defn.None? then Err(name)
      else
        var line := if IsStream(name) then name + "()" else CollectionLine(name, defn.value);
        var rest := TranslateSchema(schema[1..]);
        assert forall i :: 1 <= i < |schema| ==> schema[i] == schema[1..][i - 1];
        if rest.Err? then
          var j :| 0 <= j < |schema[1..]| && schema[1..][j].0 == rest.error && !IsStream(schema[1..][j].0) && schema[1..][j].1.None?;
          assert schema[j + 1] == schema[1..][j];
          Err(rest.error)
        else Ok([line] + rest.value)
  }

  /** Each declaration is the one for its entry, in schema order. */
  lemma {:induction false} TranslateSchemaLines(schema: SchemaDict)
    requires TranslateSchema(schema).Ok?
    ensures forall i :: 0 <= i < |schema| ==>
              TranslateSchema(schema).value[i]
                == (if IsStream(schema[i].0) then schema[i].0 + "()" else CollectionLine(schema[i].0, schema[i].1.value))
    decreases |schema|
  {
    if |schema| > 0 {
      var lines := TranslateSchema(schema).value;
      TranslateSchemaCons(schema);
      TranslateSchemaLines(schema[1..]);
      forall i | 1 <= i < |schema|
        ensures lines[i] == (if IsStream(schema[i].0) then schema[i].0 + "()" else CollectionLine(schema[i].0, schema[i].1.value))
      {
        assert schema[i] == schema[1..][i - 1];
        assert lines[i] == TranslateSchema(schema[1..]).value[i - 1];
      }
    }
  }

  /** A non-empty schema translates to its head's line before its tail's lines. */
  lemma TranslateSchemaCons(schema: SchemaDict)
    requires |schema| > 0 && TranslateSchema(schema).Ok?
    ensures TranslateSchema(schema[1..]).Ok?
    ensures TranslateSchema(schema).value
              == [if IsStream(schema[0].0) then schema[0].0 + "()" else CollectionLine(schema[0].0, schema[0].1.value)]
                 + TranslateSchema(schema[1..]).value
  {
  }

  // ---------------------------------------------------------------------
  // Reading a table name back (`extract_table_name`)
  // ---------------------------------------------------------------------

  /** The characters stripped from a name read out of a declaration. */
  const NameStripChars: set<char> := {'"', '\n', ' ', '\t'}

  /** `extract_table_name`: the stream declarations give `fluin` / `fluout`;
      any other line gives the text between its first `(` and the next `,`,
      stripped of quotes and blanks. A line without `(` is an error. */
  function ExtractTableName(tdef: string): (r: Result<string, string>)
    ensures r.Err? <==> tdef != "stdin()" && tdef != "stdout()" && !Contains(tdef, '(')
  {
    if tdef == "stdin()" then Ok("fluin")
    else if tdef == "stdout()" then Ok("fluout")
    else
      var pieces := Split(tdef, "(");
      if |pieces| < 2 then
        assert !Contains(tdef, '(') by { SplitPieces(tdef, '('); }
        Err(tdef)
      else
        assert Contains(tdef, '(') by { SplitPieces(tdef, '('); }
        Ok(Strip(Split(pieces[1], ",")[0], NameStripChars))
  }

  /** A text splits into more than one piece exactly when it holds the
      separator. */
  lemma {:induction false} SplitPieces(s: string, c: char)
    ensures |Split(s, [c])| > 1 <==> Contains(s, c)
    decreases |s|
  {
    if |s| > 0 {
      if [c] <= s {
        assert s[0] == c;
      } else {
        SplitPieces(s[1..], c);
        ContainsAppend([s[0]], s[1..], c);
        assert [s[0]] + s[1..] == s;
      }
    }
  }

  /** A name the declaration can carry and `extract_table_name` can read
      back: not a stream, non-empty, free of `(` and `,`, and with no quote
      or blank at either end. */
  predicate ReadableName(name: string) {
    && !IsStream(name)
    && |name| > 0
    && !Contains(name, '(') && !Contains(name, ',')
    && name[0] !in NameStripChars && name[|name| - 1] !in NameStripChars
  }

  /** A definition whose kind and column types hold no `(`. */
  predicate PlainTypes(d: CollectionDef) {
    !Contains(d.kind, '(') && forall i :: 0 <= i < |d.cols| ==> !Contains(d.cols[i].1, '(')
  }

  lemma DeclHeadPlain(d: CollectionDef)
    requires PlainTypes(d)
    ensures !Contains(DeclHead(d), '(')
  {
    var ts := Values(d.cols);
    JoinLacks(ts, ", ", '(');
    ContainsAppend("template ", d.kind, '(');
    ContainsAppend("template " + d.kind, "<", '(');
    ContainsAppend("template " + d.kind + "<", Join(ts, ", "), '(');
    ContainsAppend("template " + d.kind + "<" + Join(ts, ", "), ">", '(');
  }

  /** The table name read back from a declaration is the declared name. */
  lemma CollectionLineRoundTrip(name: string, d: CollectionDef)
    requires ReadableName(name) && PlainTypes(d)
    ensures ExtractTableName(CollectionLine(name, d)) == Ok(name)
  {
    var line := CollectionLine(name, d);
    CollectionLinePieces(name, d);
    SplitPieces(line, '(');
    StripQuoted(name, NameStripChars);
  }

  /** A declaration line is no stream line, and its text between the first
      `(` and the next `,` is the quoted name. */
  lemma CollectionLinePieces(name: string, d: CollectionDef)
    requires ReadableName(name) && PlainTypes(d)
    ensures var line := CollectionLine(name, d);
            && line != "stdin()" && line != "stdout()" && Contains(line, '(')
            && |Split(line, "(")| >= 2
            && Split(Split(line, "(")[1], ",")[0] == "\"" + name + "\""
  {
    var q := "\"" + name + "\"";
    var line := CollectionLine(name, d);
    var rest := Split(DeclTail(d), "(")[0];
    CollectionLineOpen(name, d);
    CollectionLineNotStream(name, d);
    var p1 := Split(line, "(")[1];
    assert p1 == q + [','] + rest;
    ContainsAppend("\"", name, ',');
    ContainsAppend("\"" + name, "\"", ',');
    SplitAtFirst(q, rest, ',');
    assert "," == [','];
    assert Split(p1, ",") == [q] + Split(rest, ",");
  }

  lemma CollectionLineNotStream(name: string, d: CollectionDef)
    ensures CollectionLine(name, d) != "stdin()" && CollectionLine(name, d) != "stdout()"
  {
    var line := CollectionLine(name, d);
    assert line[..9] == "template ";
  }

  /** The text after a declaration's first `(` starts with the quoted name
      and a `,`. */
  lemma CollectionLineOpen(name: string, d: CollectionDef)
    requires ReadableName(name) && PlainTypes(d)
    ensures var line := CollectionLine(name, d);
            && Contains(line, '(')
            && |Split(line, "(")| >= 2
            && Split(line, "(")[1] == "\"" + name + "\"" + [','] + Split(DeclTail(d), "(")[0]
  {
    var head := DeclHead(d);
    var q := "\"" + name + "\"";
    var tail := DeclTail(d);
    var line := CollectionLine(name, d);
    DeclHeadPlain(d);
    assert line == head + ['('] + ((q + ",") + tail);
    SplitAtFirst(head, (q + ",") + tail, '(');
    ContainsAppend("\"", name, '(');
    ContainsAppend("\"" + name, "\"", '(');
    ContainsAppend(q, ",", '(');
    SplitHead(q + ",", tail, '(');
    assert line[|head|] == '(';
  }

  /** `extract_table_name` undoes `translate_schema` entry by entry: the
      streams come back as `fluin` / `fluout`, every other readable name as
      itself. */
  lemma SchemaLineRoundTrip(schema: SchemaDict, i: int)
    requires TranslateSchema(schema).Ok? && 0 <= i < |schema|
    requires !IsStream(schema[i].0) ==> ReadableName(schema[i].0) && PlainTypes(schema[i].1.value)
    ensures ExtractTableName(TranslateSchema(schema).value[i]) == Ok(TableName(schema[i].0))
  {
    TranslateSchemaLines(schema);
    var (name, defn) := schema[i];
    var line := TranslateSchema(schema).value[i];
    if IsStream(name) {
      assert line == name + "()";
      StreamLineName(name);
    } else {
      assert line == CollectionLine(name, defn.value);
      CollectionLineRoundTrip(name, defn.value);
    }
  }

  lemma StreamLineName(name: string)
    requires IsStream(name)
    ensures ExtractTableName(name + "()") == Ok(TableName(name))
  {
  }

  // ---------------------------------------------------------------------
  // Per-table lists of the rule blocks
  // ---------------------------------------------------------------------

  /** The table names of a list of declarations; the first unreadable line
      stops the generator. */
  function TableNames(tables: seq<string>): (r: Result<seq<string>, string>)
    ensures r.Ok? <==> forall i :: 0 <= i < |tables| ==> ExtractTableName(tables[i]).Ok?
    ensures r.Ok? ==> |r.value| == |tables|
    ensures r.Ok? ==> forall i :: 0 <= i < |tables| ==> r.value[i] == ExtractTableName(tables[i]).value
  {
    if |tables| == 0 then Ok([])
    else
      var n := ExtractTableName(tables[0]);
      var rest := TableNames(tables[1..]);
      assert forall i :: 1 <= i < |tables| ==> tables[i] == tables[1..][i - 1];
      if n.Err? then Err(n.error)
      else if rest.Err? then Err(rest.error)
      else Ok([n.value] + rest.value)
  }

  function Prefixed(p: string, xs: seq<string>, q: string): (r: seq<string>)
    ensures |r| == |xs|
    ensures forall i :: 0 <= i < |xs| ==> r[i] == p + xs[i] + q
  {
    if |xs| == 0 then [] else [p + xs[0] + q] + Prefixed(p, xs[1..], q)
  }

  /** Pieces built around names that avoid a character avoid it too, when
      the text around each name does. */
  lemma PrefixedAvoids(p: string, xs: seq<string>, q: string, c: char)
    requires !Contains(p, c) && !Contains(q, c)
    requires forall i :: 0 <= i < |xs| ==> !Contains(xs[i], c)
    ensures forall i :: 0 <= i < |xs| ==> !Contains(Prefixed(p, xs, q)[i], c)
  {
    forall i | 0 <= i < |xs| ensures !Contains(Prefixed(p, xs, q)[i], c) {
      ContainsAppend(p, xs[i], c);
      ContainsAppend(p + xs[i], q, c);
    }
  }

  /** `arglist_tablenames`: `auto& t1, auto& t2, ...`. When no table name
      holds a comma, the list splits back at `, ` into one `auto&` parameter
      per table, in table order. */
  function ArglistTablenames(tables: seq<string>): (r: Result<string, string>)
    ensures r.Ok? <==> TableNames(tables).Ok?
    ensures r.Ok? && |tables| > 0 && (forall i :: 0 <= i < |tables| ==> !Contains(TableNames(tables).value[i], ',')) ==>
              var params := Split(r.value, ", ");
              |params| == |tables| && forall i :: 0 <= i < |tables| ==> params[i] == "auto& " + TableNames(tables).value[i]
  {
    var names := TableNames(tables);
    if names.Err? then Err(names.error)
    else
      var pieces := Prefixed("auto& ", names.value, "");
      var sep := ", ";
      if |tables| > 0 && forall i :: 0 <= i < |tables| ==> !Contains(names.value[i], ',') then
        assert !Contains("auto& ", sep[0]) && !Contains("", sep[0]);
        PrefixedAvoids("auto& ", names.value, "", sep[0]);
        SplitJoin(pieces, sep);
        Ok(Join(pieces, sep))
      else
        Ok(Join(pieces, sep))
  }

  /** `avoid_unused_table_warnings`: one `(void)t;` line per table. When no
      table name holds a line break, the text splits back into exactly those
      lines, in table order. */
  function AvoidUnusedTableWarnings(tables: seq<string>): (r: Result<string, string>)
    ensures r.Ok? <==> TableNames(tables).Ok?
    ensures r.Ok? && |tables| > 0 && (forall i :: 0 <= i < |tables| ==> !Contains(TableNames(tables).value[i], '\n')) ==>
              var lines := Split(r.value, "\n");
              |lines| == |tables| && forall i :: 0 <= i < |tables| ==> lines[i] == "      (void)" + TableNames(tables).value[i] + ";"
  {
    var names := TableNames(tables);
    if names.Err? then Err(names.error)
    else
      var pieces := Prefixed("      (void)", names.value, ";");
      var sep := "\n";
      if |tables| > 0 && forall i :: 0 <= i < |tables| ==> !Contains(names.value[i], '\n') then
        assert !Contains("      (void)", sep[0]) && !Contains(";", sep[0]);
        PrefixedAvoids("      (void)", names.value, ";", sep[0]);
        SplitJoin(pieces, sep);
        Ok(Join(pieces, sep))
      else
        Ok(Join(pieces, sep))
  }

  function TableNamesOf(schema: SchemaDict): (r: seq<string>)
    ensures |r| == |schema|
    ensures forall i :: 0 <= i < |schema| ==> r[i] == TableName(schema[i].0)
  {
    if |schema| == 0 then [] else [TableName(schema[0].0)] + TableNamesOf(schema[1..])
  }

  predicate ReadableSchema(schema: SchemaDict) {
    forall i :: 0 <= i < |schema| ==>
      !IsStream(schema[i].0) ==> schema[i].1.Some? && ReadableName(schema[i].0) && PlainTypes(schema[i].1.value)
  }

  /** The rule-block parameters and `(void)` lines name the schema's
      collections, one each, in schema order, with the streams renamed. */
  lemma TableListsFollowSchema(schema: SchemaDict)
    requires ReadableSchema(schema)
    ensures TranslateSchema(schema).Ok?
    ensures TableNames(TranslateSchema(schema).value) == Ok(TableNamesOf(schema))
    ensures ArglistTablenames(TranslateSchema(schema).value) == Ok(Join(Prefixed("auto& ", TableNamesOf(schema), ""), ", "))
    ensures AvoidUnusedTableWarnings(TranslateSchema(schema).value) == Ok(Join(Prefixed("      (void)", TableNamesOf(schema), ";"), "\n"))
  {
    var lines := TranslateSchema(schema).value;
    forall i | 0 <= i < |schema| ensures ExtractTableName(lines[i]) == Ok(TableName(schema[i].0)) {
      SchemaLineRoundTrip(schema, i);
    }
    assert TableNames(lines).value == TableNamesOf(schema);
  }

  // ---------------------------------------------------------------------
  // Schema block (`chain_schema_defs`)
  // ---------------------------------------------------------------------

  /** `chain_schema_defs`: each declaration on its own `.`-prefixed line. */
  function ChainSchemaDefs(clist: seq<string>): string {
    Concat(Prefixed("    .", clist, "\n"))
  }

  /** The same lines as `"\n".join` of the dotted declarations, plus the
      final newline. */
  lemma {:induction false} ChainSchemaDefsLines(clist: seq<string>)
    requires |clist| > 0
    ensures ChainSchemaDefs(clist) == Join(Prefixed("    .", clist, ""), "\n") + "\n"
    decreases |clist|
  {
    var ls := Prefixed("    .", clist, "\n");
    if |clist| > 1 {
      ChainSchemaDefsLines(clist[1..]);
      assert ls[1..] == Prefixed("    .", clist[1..], "\n");
      assert Prefixed("    .", clist, "")[1..] == Prefixed("    .", clist[1..], "");
    } else {
      assert ls[1..] == [];
      assert Concat(ls) == ls[0] + Concat([]);
    }
  }

  // ---------------------------------------------------------------------
  // Preloaded collections
  // ---------------------------------------------------------------------

  /** `make_collection_name`. */
  function MakeCollectionName(tab: string): (r: string)
    ensures |r| == |tab| + 7 && r[..|tab|] == tab
  {
    tab + "_tuples"
  }

  lemma MakeCollectionNameInjective(a: string, b: string)
    requires MakeCollectionName(a) == MakeCollectionName(b)
    ensures a == b
  {
    assert a == MakeCollectionName(a)[..|a|];
  }

  function TupleType(tab: string): string { tab + "_tuple_t" }

  /** The line declaring a table's tuple type over the given column types. */
  function UsingLine(tab: string, types: seq<string>, sep: string): string {
    "  using " + TupleType(tab) + " = std::tuple<" + Join(types, sep) + ">;"
  }

  /** The line opening the constant vector named after a table. */
  function VectorLine(tab: string): string {
    "  std::vector<" + TupleType(tab) + "> " + MakeCollectionName(tab) + " = {"
  }

  /** A declaration block: two heading lines, the initializer body and the
      closing `};`. */
  function DeclBlock(head0: string, head1: string, body: string): string {
    head0 + "\n" + head1 + "\n" + body + "\n  };\n"
  }

  /** The type alias and the constant vector of one preloaded table. */
  function PreloadBlock(tab: string, d: CollectionDef, tups: seq<string>): string {
    DeclBlock(UsingLine(tab, Values(d.cols), ","), VectorLine(tab),
              Join(Prefixed("    std::make_tuple", tups, ""), ",\n"))
  }

  /** The lines of a declaration block: two heading lines, the body's
      lines, and the closing `};` followed by a final line break. */
  lemma BlockLines(head0: string, head1: string, body: seq<string>)
    requires |body| > 0
    ensures DeclBlock(head0, head1, Join(body, "\n")) == Join([head0, head1] + body + ["  };", ""], "\n")
  {
    CloseNewline();
    JoinAround(head0, head1, body, "\n", "  };");
  }

  /** Two heading pieces, the body pieces and a closing piece joined with
      `sep`, with `sep` once more at the end. */
  lemma JoinAround(h0: string, h1: string, body: seq<string>, sep: string, c: string)
    requires |body| > 0
    ensures h0 + sep + h1 + sep + Join(body, sep) + (sep + (c + sep))
         == Join([h0, h1] + body + [c, ""], sep)
  {
    var heads := [h0, h1];
    assert Join(heads, sep) == h0 + sep + h1 by {
      assert heads[1..] == [h1];
    }
    JoinAppend(heads, body, sep);
    var x := Join(heads + body, sep);
    assert Join([c, ""], sep) == c + sep by {
      assert [c, ""][1..] == [""];
    }
    JoinAppend(heads + body, [c, ""], sep);
    AppendAssoc(x, sep, c + sep);
  }

  /** A preload block line by line: the tuple type over the definition's
      column types, the vector named after the table, one `make_tuple` line
      per preloaded tuple in order (each but the last followed by `,`),
      and the closing `};`. */
  lemma PreloadBlockLines(tab: string, d: CollectionDef, tups: seq<string>)
    ensures PreloadBlock(tab, d, tups)
         == Join([UsingLine(tab, Values(d.cols), ","), VectorLine(tab)]
                 + (if |tups| == 0 then [""] else Punctuated(Prefixed("    std::make_tuple", tups, ""), ","))
                 + ["  };", ""], "\n")
  {
    var ps := Prefixed("    std::make_tuple", tups, "");
    var lines := if |tups| == 0 then [""] else Punctuated(ps, ",");
    var h0, h1 := UsingLine(tab, Values(d.cols), ","), VectorLine(tab);
    assert PreloadBlock(tab, d, tups) == DeclBlock(h0, h1, Join(lines, "\n")) by {
      CommaNewline();
      JoinedLines(ps, ",");
    }
    BlockLines(h0, h1, lines);
  }

  lemma CloseNewline()
    ensures "\n  };\n" == "\n" + ("  };" + "\n")
  {
  }

  lemma CommaNewline()
    ensures ",\n" == "," + "\n"
  {
  }

  /** Pieces joined with `p` and a line break, as lines; no pieces give one
      empty line. */
  lemma JoinedLines(ps: seq<string>, p: string)
    ensures Join(ps, p + "\n") == Join(if |ps| == 0 then [""] else Punctuated(ps, p), "\n")
  {
    if |ps| > 0 {
      JoinPunctuated(ps, p, "\n");
    }
  }

  predicate HasDefinition(schema: SchemaDict, tab: string) {
    Get(schema, tab).Some? && Get(schema, tab).value.Some?
  }

  /** The definition the schema holds for a table. */
  function DefOf(schema: SchemaDict, tab: string): CollectionDef
    requires HasDefinition(schema, tab)
  {
    Get(schema, tab).value.value
  }

  /** `preload_types`: a block per preloaded table, in preload order; a table
      missing from the schema, or declared without columns, is an error. */
  function PreloadTypes(stmts: ODict<seq<string>>, schema: SchemaDict): (r: Result<string, string>)
    ensures r.Ok? <==> forall i :: 0 <= i < |stmts| ==> HasDefinition(schema, stmts[i].0)
    ensures r.Err? ==> exists i :: 0 <= i < |stmts| && stmts[i].0 == r.error && !HasDefinition(schema, stmts[i].0)
  {
    if |stmts| == 0 then Ok("")
    else
      var (tab, tups) := stmts[0];
      var rest := PreloadTypes(stmts[1..], schema);
      assert forall i :: 1 <= i < |stmts| ==> stmts[i] == stmts[1..][i - 1];
      if !HasDefinition(schema, tab) then Err(tab)
      else if rest.Err? then
        var j :| 0 <= j < |stmts[1..]| && stmts[1..][j].0 == rest.error && !HasDefinition(schema, stmts[1..][j].0);
        assert stmts[j + 1] == stmts[1..][j];
        Err(rest.error)
      else Ok(PreloadBlock(tab, DefOf(schema, tab), tups) + rest.value)
  }

  /** The block of each preloaded table, in preload order. */
  function PreloadBlocks(stmts: ODict<seq<string>>, schema: SchemaDict): (r: seq<string>)
    requires forall i :: 0 <= i < |stmts| ==> HasDefinition(schema, stmts[i].0)
    ensures |r| == |stmts|
    ensures forall i :: 0 <= i < |stmts| ==> r[i] == PreloadBlock(stmts[i].0, DefOf(schema, stmts[i].0), stmts[i].1)
  {
    if |stmts| == 0 then []
    else
      assert forall i :: 1 <= i < |stmts| ==> stmts[i] == stmts[1..][i - 1];
      [PreloadBlock(stmts[0].0, DefOf(schema, stmts[0].0), stmts[0].1)] + PreloadBlocks(stmts[1..], schema)
  }

  /** When every preloaded table is defined, the text is the tables'
      blocks (`PreloadBlockLines` gives their lines) one after the other,
      in preload order. */
  lemma {:induction false} PreloadTypesBlocks(stmts: ODict<seq<string>>, schema: SchemaDict)
    requires forall i :: 0 <= i < |stmts| ==> HasDefinition(schema, stmts[i].0)
    ensures PreloadTypes(stmts, schema) == Ok(Concat(PreloadBlocks(stmts, schema)))
    decreases |stmts|
  {
    if |stmts| > 0 {
      var tail := stmts[1..];
      assert forall i :: 0 <= i < |tail| ==> tail[i] == stmts[i + 1];
      PreloadTypesBlocks(tail, schema);
      var bs := PreloadBlocks(stmts, schema);
      assert bs[1..] == PreloadBlocks(tail, schema);
    }
  }

  /** The rule text `preload_rules_into_bootstrap` stores for a table. */
  function PreloadRuleText(tab: string): string {
    tab + " <= " + MakeCollectionName(tab) + ";"
  }

  /** The bootstrap key of a preloaded table. */
  function BootKey(tab: string): (r: string)
    ensures |r| == |tab| + 5 && r[..|tab|] == tab
  {
    tab + "_boot"
  }

  /** `preload_rules_into_bootstrap`: the bootstrap rules (an empty mapping
      when the spec has none) with one `<tab>_boot` rule per preloaded
      table, assigned in preload order. */
  function PreloadRulesIntoBootstrap(tabs: seq<string>, bootstrap: Option<ODict<string>>): ODict<string> {
    AddBootRules(if bootstrap.Some? then bootstrap.value else [], tabs)
  }

  function AddBootRules(d: ODict<string>, tabs: seq<string>): ODict<string>
    decreases |tabs|
  {
    if |tabs| == 0 then d else AddBootRules(Put(d, BootKey(tabs[0]), PreloadRuleText(tabs[0])), tabs[1..])
  }

  /** Rules already present keep their places; new ones come after them. */
  lemma {:induction false} AddBootRulesOrder(d: ODict<string>, tabs: seq<string>)
    ensures |d| <= |AddBootRules(d, tabs)| && Keys(AddBootRules(d, tabs))[..|d|] == Keys(d)
    decreases |tabs|
  {
    if |tabs| > 0 {
      var d1 := Put(d, BootKey(tabs[0]), PreloadRuleText(tabs[0]));
      AddBootRulesOrder(d1, tabs[1..]);
      PutKeepsOrder(d, BootKey(tabs[0]), PreloadRuleText(tabs[0]));
      PrefixOfPrefix(Keys(AddBootRules(d1, tabs[1..])), Keys(d1), Keys(d));
    }
  }

  /** A key that is no preloaded table's `_boot` key reads as before. */
  lemma {:induction false} AddBootRulesOther(d: ODict<string>, tabs: seq<string>, k: string)
    requires forall i :: 0 <= i < |tabs| ==> k != BootKey(tabs[i])
    ensures Get(AddBootRules(d, tabs), k) == Get(d, k)
    decreases |tabs|
  {
    if |tabs| > 0 {
      var d1 := Put(d, BootKey(tabs[0]), PreloadRuleText(tabs[0]));
      assert forall i :: 0 <= i < |tabs[1..]| ==> tabs[1..][i] == tabs[i + 1];
      AddBootRulesOther(d1, tabs[1..], k);
      GetPutOther(d, BootKey(tabs[0]), PreloadRuleText(tabs[0]), k);
    }
  }

  /** Every preloaded table, listed once, reads back its `_boot` rule. */
  lemma {:induction false} AddBootRulesReads(d: ODict<string>, tabs: seq<string>, i: int)
    requires forall a, b :: 0 <= a < b < |tabs| ==> tabs[a] != tabs[b]
    requires 0 <= i < |tabs|
    ensures Get(AddBootRules(d, tabs), BootKey(tabs[i])) == Some(PreloadRuleText(tabs[i]))
    decreases |tabs|
  {
    var d1 := Put(d, BootKey(tabs[0]), PreloadRuleText(tabs[0]));
    assert forall j :: 0 <= j < |tabs[1..]| ==> tabs[1..][j] == tabs[j + 1];
    if i == 0 {
      GetPutSame(d, BootKey(tabs[0]), PreloadRuleText(tabs[0]));
      forall j | 0 <= j < |tabs[1..]| ensures BootKey(tabs[0]) != BootKey(tabs[1..][j]) {
        BootKeyInjective(tabs[0], tabs[j + 1]);
      }
      AddBootRulesOther(d1, tabs[1..], BootKey(tabs[0]));
    } else {
      AddBootRulesReads(d1, tabs[1..], i - 1);
    }
  }

  lemma PrefixOfPrefix<T>(a: seq<T>, b: seq<T>, c: seq<T>)
    requires |c| <= |b| <= |a| && a[..|b|] == b && b[..|c|] == c
    ensures a[..|c|] == c
  {
    assert a[..|c|] == a[..|b|][..|c|];
  }

  lemma BootKeyInjective(a: string, b: string)
    requires a != b
    ensures BootKey(a) != BootKey(b)
  {
    if |a| == |b| {
      assert BootKey(a)[..|a|] == a && BootKey(b)[..|b|] == b;
    }
  }

  /** The rule a preloaded table's bootstrap entry stands for. */
  function PreloadRule(tab: string): Rule {
    Rule(tab, Now, Rhs(Some(MakeCollectionName(tab)), None))
  }

  /** The bootstrap rule of a preloaded table, blanks aside, is the rule
      `tab <= tab_tuples;`: its text is that rule's rendering with a blank on
      each side of the merge token, the grammar reads the rendering back as
      exactly that rule, and the translation feeds the table from the
      constant vector `preload_types` declares. */
  lemma PreloadRuleReadsVector(tab: string)
    requires IsWord(tab)
    ensures PreloadRuleText(tab)
         == tab + " " + MergeText(Now) + " " + RenderRhs(PreloadRule(tab).rhs) + ";"
    ensures ParseStart(RenderRule(PreloadRule(tab))) == Parsed(PreloadRule(tab), "")
    ensures ExpandRule(PreloadRule(tab), BootstrapWrap)
         == tab + " <= (" + WrapCollection(MakeCollectionName(tab), BootstrapWrap) + ")"
  {
    PreloadRuleSpaced(tab);
    PreloadRuleWellFormed(tab);
    StartExact(RenderRule(PreloadRule(tab)), PreloadRule(tab));
    PreloadRuleExpansion(tab);
  }

  lemma PreloadRuleSpaced(tab: string)
    ensures PreloadRuleText(tab)
         == tab + " " + MergeText(Now) + " " + RenderRhs(PreloadRule(tab).rhs) + ";"
  {
    var c := MakeCollectionName(tab);
    assert RenderRhs(PreloadRule(tab).rhs) == c;
    assert MergeText(Now) == "<=";
    assert tab + " " + "<=" + " " + c + ";" == tab + " <= " + c + ";";
  }

  lemma PreloadRuleWellFormed(tab: string)
    requires IsWord(tab)
    ensures WfRule(PreloadRule(tab))
  {
    var c := MakeCollectionName(tab);
    forall i | 0 <= i < |c| ensures IsWordChar(c[i]) {
      if i < |tab| {
        assert c[i] == tab[i];
      } else {
        assert c[|tab|..] == "_tuples";
        assert c[i] == "_tuples"[i - |tab|];
      }
    }
  }

  lemma PreloadRuleExpansion(tab: string)
    ensures ExpandRule(PreloadRule(tab), BootstrapWrap)
         == tab + " <= (" + WrapCollection(MakeCollectionName(tab), BootstrapWrap) + ")"
  {
    var c := MakeCollectionName(tab);
    var w := WrapCollection(c, BootstrapWrap);
    assert ConvertMtype(MergeText(Now)) == "<=";
    assert ExpandRule(PreloadRule(tab), BootstrapWrap) == tab + " " + "<=" + " (" + w + "" + "" + ")";
    assert " " + "<=" + " (" == " <= (";
  }

  // ---------------------------------------------------------------------
  // The reserved `address` argument
  // ---------------------------------------------------------------------

  const AddressType: string := "std::string"

  /** The generator's check on the spec's arguments: `address` is added as
      `std::string` when absent (to an empty mapping when there are no
      arguments), kept when declared as `std::string`, and any other
      declared type is an error. */
  function EnsureAddressArg(args: Option<ODict<string>>): (r: Result<ODict<string>, string>)
    ensures r.Ok? ==> Get(r.value, "address") == Some(AddressType)
    ensures r.Err? <==> args.Some? && Get(args.value, "address").Some? && Get(args.value, "address").value != AddressType
  {
    var d := if args.Some? then args.value else [];
    var a := Get(d, "address");
    if a.None? then
      GetPutSame(d, "address", AddressType);
      Ok(Put(d, "address", AddressType))
    else if a.value == AddressType then Ok(d)
    else Err("argument 'address' reserved to be 'std::string' ")
  }

  /** The check touches no other argument and keeps declaration order. */
  lemma EnsureAddressArgFrame(args: ODict<string>, k: string)
    requires EnsureAddressArg(Some(args)).Ok? && k != "address"
    ensures Get(EnsureAddressArg(Some(args)).value, k) == Get(args, k)
    ensures |args| <= |EnsureAddressArg(Some(args)).value|
    ensures Keys(EnsureAddressArg(Some(args)).value)[..|args|] == Keys(args)
  {
    EnsureAddressArgCases(args);
    if Get(args, "address").None? {
      PutKeepsOrder(args, "address", AddressType);
      GetPutOther(args, "address", AddressType, k);
    }
  }

  /** The check on declared arguments: the result is the arguments with
      `address` added when it was absent, or else the arguments themselves. */
  lemma EnsureAddressArgCases(args: ODict<string>)
    requires EnsureAddressArg(Some(args)).Ok?
    ensures EnsureAddressArg(Some(args)).value
         == if Get(args, "address").None? then Put(args, "address", AddressType) else args
  {
  }

  /** The check passes its own output unchanged. */
  lemma EnsureAddressArgIdempotent(args: Option<ODict<string>>)
    requires EnsureAddressArg(args).Ok?
    ensures EnsureAddressArg(Some(EnsureAddressArg(args).value)) == EnsureAddressArg(args)
  {
  }
}
