/** The list logic of the gRPC shim generator: the header-guard identifier
    of a file name, the field type and name lists of a message, the package
    namespaces opened in the includes and closed in the epilogue, and the
    separated lists of the generated channel declarations and rules.

    Message descriptors are plain records; `DotsToColons` is a parameter. */
module Shim {
  import opened Text
  import opened Schema

  // ---------------------------------------------------------------------
  // Header-guard identifier (`FilenameIdentifier`)
  // ---------------------------------------------------------------------

  newtype byte = x: int | 0 <= x < 256

  const Hex: string := "0123456789abcdef"

  /** The value a byte has as a `char` on a platform where `char` is
      signed. */
  function SignedChar(b: byte): (c: int)
    ensures -128 <= c < 128 && c % 256 == b as int
  {
    if b < 128 then b as int else b as int - 256
  }

  /** `isalnum` in the C locale. */
  predicate IsAlnumByte(b: byte) { b < 128 && IsAlnum(b as int as char) }

  /** The identifier text of one byte: itself when alphanumeric, otherwise
      `_` and the two lower-case hexadecimal digits of its value. */
  function Encode(b: byte): (r: string)
    ensures |r| == if IsAlnumByte(b) then 1 else 3
  {
    if IsAlnumByte(b) then [b as int as char] else ['_', Hex[b as int / 16], Hex[b as int % 16]]
  }

  function Identifier(s: seq<byte>): string {
    if |s| == 0 then "" else Encode(s[0]) + Identifier(s[1..])
  }

  function NonAlnumCount(s: seq<byte>): nat {
    if |s| == 0 then 0 else (if IsAlnumByte(s[0]) then 0 else 1) + NonAlnumCount(s[1..])
  }

  /** `(c >> 4) & 0xf` and `c & 0xf` on a signed `char` give the byte's
      two nibbles: the escape does not depend on the signedness of
      `char`. */
  lemma SignedNibbles(b: byte)
    ensures (SignedChar(b) / 16) % 16 == b as int / 16
    ensures SignedChar(b) % 16 == b as int % 16
  {
    var n := b as int;
    if n >= 128 {
      assert n - 256 == 16 * (n / 16 - 16) + n % 16;
      assert (n - 256) / 16 == n / 16 - 16;
    }
  }

  lemma {:induction false} IdentifierAppend(s: seq<byte>, b: byte)
    ensures Identifier(s + [b]) == Identifier(s) + Encode(b)
    decreases |s|
  {
    if |s| == 0 {
      assert s + [b] == [b];
    } else {
      assert (s + [b])[1..] == s[1..] + [b];
      IdentifierAppend(s[1..], b);
    }
  }

  /** `FilenameIdentifier`: one pass over the name, escaping with the
      nibbles of the signed `char`. */
  method FilenameIdentifier(filename: seq<byte>) returns (result: string)
    ensures result == Identifier(filename)
    ensures |result| == |filename| + 2 * NonAlnumCount(filename)
    ensures forall i :: 0 <= i < |result| ==> IsAlnum(result[i]) || result[i] == '_'
  {
    result := "";
    var i := 0;
    while i < |filename|
      invariant 0 <= i <= |filename|
      invariant result == Identifier(filename[..i])
    {
      var b := filename[i];
      var c := SignedChar(b);
      if IsAlnumByte(b) {
        result := result + [b as int as char];
      } else {
        SignedNibbles(b);
        result := result + ['_', Hex[(c / 16) % 16], Hex[c % 16]];
      }
      IdentifierAppend(filename[..i], b);
      assert filename[..i + 1] == filename[..i] + [b];
      i := i + 1;
    }
    assert filename[..|filename|] == filename;
    IdentifierLength(filename);
    IdentifierAlphabet(filename);
  }

  /** Each escape adds two characters. */
  lemma {:induction false} IdentifierLength(s: seq<byte>)
    ensures |Identifier(s)| == |s| + 2 * NonAlnumCount(s)
    decreases |s|
  {
    if |s| > 0 {
      IdentifierLength(s[1..]);
    }
  }

  /** The identifier holds only alphanumerics and `_`. */
  lemma {:induction false} IdentifierAlphabet(s: seq<byte>)
    ensures forall i :: 0 <= i < |Identifier(s)| ==> IsAlnum(Identifier(s)[i]) || Identifier(s)[i] == '_'
    decreases |s|
  {
    if |s| > 0 {
      IdentifierAlphabet(s[1..]);
      EncodeAlphabet(s[0]);
      WordCharsAppend(Encode(s[0]), Identifier(s[1..]));
    }
  }

  lemma EncodeAlphabet(b: byte)
    ensures forall i :: 0 <= i < |Encode(b)| ==> IsWordChar(Encode(b)[i])
  {
    var e := Encode(b);
    if !IsAlnumByte(b) {
      assert e[0] == '_';
      assert forall k :: 0 <= k < 16 ==> IsAlnum(Hex[k]);
    }
  }

  lemma WordCharsAppend(e: string, t: string)
    requires forall i :: 0 <= i < |e| ==> IsWordChar(e[i])
    requires forall i :: 0 <= i < |t| ==> IsWordChar(t[i])
    ensures forall i :: 0 <= i < |e + t| ==> IsWordChar((e + t)[i])
  {
    forall i | 0 <= i < |e + t| ensures IsWordChar((e + t)[i]) {
      if i >= |e| {
        assert (e + t)[i] == t[i - |e|];
      }
    }
  }

  function HexValue(c: char): Option<int> {
    if '0' <= c <= '9' then Some(c as int - '0' as int)
    else if 'a' <= c <= 'f' then Some(c as int - 'a' as int + 10)
    else None
  }

  lemma HexDigitValue(k: int)
    requires 0 <= k < 16
    ensures HexValue(Hex[k]) == Some(k)
  {
  }

  /** Reads an identifier back left to right: an alphanumeric stands for
      itself, `_` and two hexadecimal digits for the byte they spell. */
  function Decode(t: string): Option<seq<byte>>
    decreases |t|
  {
    if |t| == 0 then Some([])
    else if IsAlnum(t[0]) then
      var rest := Decode(t[1..]);
      if rest.None? then None else Some([t[0] as int as byte] + rest.value)
    else if t[0] == '_' && |t| >= 3 && HexValue(t[1]).Some? && HexValue(t[2]).Some? then
      var rest := Decode(t[3..]);
      if rest.None? then None else Some([(HexValue(t[1]).value * 16 + HexValue(t[2]).value) as byte] + rest.value)
    else None
  }

  /** Decoding undoes the identifier. */
  lemma {:induction false} DecodeIdentifier(s: seq<byte>)
    ensures Decode(Identifier(s)) == Some(s)
    decreases |s|
  {
    if |s| > 0 {
      DecodeIdentifier(s[1..]);
      DecodeEncoded(s[0], Identifier(s[1..]), s[1..]);
      assert [s[0]] + s[1..] == s;
    }
  }

  /** Decoding one byte's text in front of a decodable rest. */
  lemma DecodeEncoded(b: byte, t: string, rest: seq<byte>)
    requires Decode(t) == Some(rest)
    ensures Decode(Encode(b) + t) == Some([b] + rest)
  {
    var e := Encode(b);
    if IsAlnumByte(b) {
      assert (e + t)[0] == b as int as char;
      assert (e + t)[1..] == t;
    } else {
      HexDigitValue(b as int / 16);
      HexDigitValue(b as int % 16);
      assert (e + t)[0] == '_' && (e + t)[1] == e[1] && (e + t)[2] == e[2];
      assert (e + t)[3..] == t;
      assert !IsAlnum('_');
    }
  }

  /** Distinct file names give distinct identifiers. */
  lemma IdentifierInjective(a: seq<byte>, b: seq<byte>)
    requires Identifier(a) == Identifier(b)
    ensures a == b
  {
    DecodeIdentifier(a);
    DecodeIdentifier(b);
  }

  // ---------------------------------------------------------------------
  // Field lists (`FieldTypes`, `FieldNames`)
  // ---------------------------------------------------------------------

  /** The C++ type categories of a message field. */
  datatype CppType = Int32 | Int64 | UInt32 | UInt64 | Double | Float | Bool | StringType | Enum | Message

  /** A field: its name, category, the category's C++ name, and the full
      names of its enum or message type. */
  datatype Field = Field(name: string, cppType: CppType, cppTypeName: string, enumFullName: string, messageFullName: string)

  /** `FieldNames`. */
  function FieldNames(fields: seq<Field>): (r: seq<string>)
    ensures |r| == |fields|
    ensures forall i :: 0 <= i < |fields| ==> r[i] == fields[i].name
  {
    if |fields| == 0 then [] else [fields[0].name] + FieldNames(fields[1..])
  }

  /** The type each field category is meant to contribute. */
  function FieldType(f: Field, dotsToColons: string -> string): string {
    match f.cppType
    case StringType => "std::string"
    case Enum => dotsToColons(f.enumFullName)
    case Message => dotsToColons(f.messageFullName)
    case _ => f.cppTypeName
  }

  /** `FieldTypes` as written: the enum case leaves the `switch` before it
      appends, so enum fields contribute nothing. */
  function FieldTypesAsWritten(fields: seq<Field>, dotsToColons: string -> string): seq<string> {
    if |fields| == 0 then []
    else (if fields[0].cppType == Enum then [] else [FieldType(fields[0], dotsToColons)])
           + FieldTypesAsWritten(fields[1..], dotsToColons)
  }

  function EnumCount(fields: seq<Field>): nat {
    if |fields| == 0 then 0 else (if fields[0].cppType == Enum then 1 else 0) + EnumCount(fields[1..])
  }

  /** As written, the type list is short by one per enum field, so a
      message with an enum field gets fewer types than names. */
  lemma {:induction false} AsWrittenFieldTypesDropEnums(fields: seq<Field>, dotsToColons: string -> string)
    ensures |FieldTypesAsWritten(fields, dotsToColons)| == |fields| - EnumCount(fields)
    ensures EnumCount(fields) > 0 ==> |FieldTypesAsWritten(fields, dotsToColons)| < |FieldNames(fields)|
    decreases |fields|
  {
    if |fields| > 0 {
      AsWrittenFieldTypesDropEnums(fields[1..], dotsToColons);
    }
  }

  /** `FieldTypes` as intended: one type per field, in field order. */
  function FieldTypes(fields: seq<Field>, dotsToColons: string -> string): (r: seq<string>)
    ensures |r| == |FieldNames(fields)|
    ensures forall i :: 0 <= i < |fields| ==> r[i] == FieldType(fields[i], dotsToColons)
  {
    if |fields| == 0 then [] else [FieldType(fields[0], dotsToColons)] + FieldTypes(fields[1..], dotsToColons)
  }

  /** The fields that are not enums, in their order. */
  function NonEnum(fields: seq<Field>): (r: seq<Field>)
    ensures |r| == |fields| - EnumCount(fields)
    ensures forall i :: 0 <= i < |r| ==> r[i] in fields && r[i].cppType != Enum
  {
    if |fields| == 0 then []
    else (if fields[0].cppType == Enum then [] else [fields[0]]) + NonEnum(fields[1..])
  }

  /** As written, the type list is the intended one of the non-enum fields:
      every other field keeps its type and its relative order. */
  lemma {:induction false} AsWrittenFieldTypesAreNonEnumTypes(fields: seq<Field>, dotsToColons: string -> string)
    ensures FieldTypesAsWritten(fields, dotsToColons) == FieldTypes(NonEnum(fields), dotsToColons)
    decreases |fields|
  {
    if |fields| > 0 {
      AsWrittenFieldTypesAreNonEnumTypes(fields[1..], dotsToColons);
      var head := if fields[0].cppType == Enum then [] else [fields[0]];
      FieldTypesAppend(head, NonEnum(fields[1..]), dotsToColons);
    }
  }

  lemma {:induction false} FieldTypesAppend(a: seq<Field>, b: seq<Field>, dotsToColons: string -> string)
    ensures FieldTypes(a + b, dotsToColons) == FieldTypes(a, dotsToColons) + FieldTypes(b, dotsToColons)
    decreases |a|
  {
    if |a| > 0 {
      assert (a + b)[1..] == a[1..] + b;
      FieldTypesAppend(a[1..], b, dotsToColons);
    } else {
      assert a + b == b;
    }
  }

  /** Without enum fields the two versions agree. */
  lemma {:induction false} FieldTypesAgreeWithoutEnums(fields: seq<Field>, dotsToColons: string -> string)
    requires EnumCount(fields) == 0
    ensures FieldTypesAsWritten(fields, dotsToColons) == FieldTypes(fields, dotsToColons)
    decreases |fields|
  {
    if |fields| > 0 {
      FieldTypesAgreeWithoutEnums(fields[1..], dotsToColons);
    }
  }

  /** The request channel's column types and names: destination, source and
      id, then the request fields. */
  function RequestTypes(types: seq<string>): seq<string> {
    ["std::string", "std::string", "std::int64_t"] + types
  }

  function RequestColumns(fields: seq<Field>): seq<string> {
    ["dst_addr", "src_addr", "id"] + FieldNames(fields)
  }

  /** The reply channel's: address and id, then the reply fields. */
  function ReplyTypes(types: seq<string>): seq<string> {
    ["std::string", "std::int64_t"] + types
  }

  function ReplyColumns(fields: seq<Field>): seq<string> {
    ["addr", "id"] + FieldNames(fields)
  }

  /** With the intended field types every channel column has a type; as
      written, a message with an enum field declares fewer types than
      columns on either channel. */
  lemma ChannelArity(fields: seq<Field>, dotsToColons: string -> string)
    ensures |RequestTypes(FieldTypes(fields, dotsToColons))| == |RequestColumns(fields)|
    ensures |ReplyTypes(FieldTypes(fields, dotsToColons))| == |ReplyColumns(fields)|
    ensures EnumCount(fields) > 0 ==> |RequestTypes(FieldTypesAsWritten(fields, dotsToColons))| < |RequestColumns(fields)|
    ensures EnumCount(fields) > 0 ==> |ReplyTypes(FieldTypesAsWritten(fields, dotsToColons))| < |ReplyColumns(fields)|
  {
    AsWrittenFieldTypesDropEnums(fields, dotsToColons);
  }

  // ---------------------------------------------------------------------
  // Separated lists
  // ---------------------------------------------------------------------

  /** The printer loop the generator uses for every list: each item, and the
      separator after every item but the last. */
  method PrintSeparated(items: seq<string>, sep: string) returns (out: string)
    ensures out == Join(items, sep)
  {
    out := "";
    var i := 0;
    while i < |items|
      invariant 0 <= i <= |items|
      invariant out == Join(items[..i], sep) + Pending(i, |items|, sep)
    {
      ghost var done := items[..i];
      out := out + items[i];
      PrintStep(done, items[i], sep, out, Pending(i, |items|, sep));
      assert items[..i + 1] == done + [items[i]];
      if i != |items| - 1 {
        out := out + sep;
      }
      i := i + 1;
    }
    assert items[..|items|] == items;
  }

  /** The separator printed after item `i - 1` and not yet followed by an
      item. */
  function Pending(i: nat, n: nat, sep: string): string {
    if 0 < i < n then sep else ""
  }

  lemma PrintStep(done: seq<string>, x: string, sep: string, out: string, pending: string)
    requires pending == (if |done| == 0 then "" else sep)
    requires out == Join(done, sep) + pending + x
    ensures out == Join(done + [x], sep)
  {
    JoinSnoc(done, x, sep);
  }

  lemma JoinSnoc(xs: seq<string>, x: string, sep: string)
    ensures Join(xs + [x], sep) == (if |xs| == 0 then x else Join(xs, sep) + sep + x)
  {
    if |xs| == 0 {
      assert xs + [x] == [x];
    } else {
      JoinAppend(xs, [x], sep);
    }
  }

  /** The column-name list of a channel as `PrintMethodCollections` prints
      it: the fixed columns quoted and separated, then the field names
      quoted by the printer loop. */
  method PrintColumns(fixed: seq<string>, names: seq<string>) returns (out: string)
    requires |fixed| > 0
    ensures |names| > 0 ==> out == Join(Quoted(fixed + names), ", ")
    ensures |names| == 0 ==> out == Join(Quoted(fixed), ", ") + ", "
  {
    var tail := PrintSeparated(Quoted(names), ", ");
    out := Join(Quoted(fixed), ", ") + ", " + tail;
    if |names| > 0 {
      QuotedAppend(fixed, names);
      JoinAppend(Quoted(fixed), Quoted(names), ", ");
    }
  }

  lemma QuotedAppend(a: seq<string>, b: seq<string>)
    ensures Quoted(a + b) == Quoted(a) + Quoted(b)
  {
    assert forall i :: 0 <= i < |a + b| ==> Quoted(a + b)[i] == (Quoted(a) + Quoted(b))[i];
  }

  /** The argument `PrintMethodRule` passes for request field `i`. */
  function GetArg(i: nat): string {
    "std::get<" + NatToString(i + 3) + ">(t)"
  }

  function GetArgs(n: nat): (r: seq<string>)
    ensures |r| == n
    ensures forall i :: 0 <= i < n ==> r[i] == GetArg(i)
  {
    if n == 0 then [] else GetArgs(n - 1) + [GetArg(n - 1)]
  }

  /** The client call in a method's rule: the request fields' tuple
      positions, separated by `, `. */
  method PrintMethodRuleArgs(fields: seq<Field>) returns (out: string)
    ensures out == Join(GetArgs(|FieldNames(fields)|), ", ")
  {
    out := PrintSeparated(GetArgs(|FieldNames(fields)|), ", ");
  }

  /** The `i`-th argument of the client call reads the tuple position that
      holds request field `i` of the request channel. */
  lemma GetArgReadsField(fields: seq<Field>, i: nat)
    requires i < |fields|
    ensures var k := DigitsValue(GetArg(i)[9..|GetArg(i)| - 4]);
            k == i + 3 && RequestColumns(fields)[k] == fields[i].name
  {
    var d := NatToString(i + 3);
    var g := GetArg(i);
    assert g[9..|g| - 4] == d;
    NatToStringRoundTrip(i + 3);
  }

  /** `GetFluentFunction`'s parameter list: the request and reply channel
      of each method, in declaration order. */
  function ChannelParams(methods: seq<string>): (r: seq<string>)
    ensures |r| == |methods|
    ensures forall i :: 0 <= i < |methods| ==> r[i] == "auto& " + methods[i] + "_request, auto& " + methods[i] + "_reply"
  {
    if |methods| == 0 then [] else ["auto& " + methods[0] + "_request, auto& " + methods[0] + "_reply"] + ChannelParams(methods[1..])
  }

  function ChannelNames(methods: seq<string>): (r: seq<string>)
    ensures |r| == 2 * |methods|
  {
    if |methods| == 0 then [] else [methods[0] + "_request", methods[0] + "_reply"] + ChannelNames(methods[1..])
  }

  method PrintFluentParams(methods: seq<string>) returns (out: string)
    ensures out == Join(ChannelParams(methods), ", ")
  {
    out := PrintSeparated(ChannelParams(methods), ", ");
  }

  /** The parameter list is one `auto&` parameter per channel, request then
      reply for each method, in declaration order. */
  lemma {:induction false} ChannelParamsFlat(methods: seq<string>)
    ensures Join(ChannelParams(methods), ", ") == Join(Prefixed("auto& ", ChannelNames(methods), ""), ", ")
    decreases |methods|
  {
    if |methods| > 0 {
      var m := methods[0];
      var rq := "auto& " + m + "_request";
      var rp := "auto& " + m + "_reply";
      var rest := Prefixed("auto& ", ChannelNames(methods[1..]), "");
      ChannelParamsFlat(methods[1..]);
      ChannelNamesStep(methods);
      JoinPair(rq, rp, rest, ", ");
      JoinHead(ChannelParams(methods), ", ");
      assert ChannelParams(methods)[1..] == ChannelParams(methods[1..]);
    }
  }

  /** The first method's two channels, then the rest. */
  lemma ChannelNamesStep(methods: seq<string>)
    requires |methods| > 0
    ensures Prefixed("auto& ", ChannelNames(methods), "")
         == ["auto& " + methods[0] + "_request", "auto& " + methods[0] + "_reply"]
          + Prefixed("auto& ", ChannelNames(methods[1..]), "")
    ensures ChannelParams(methods)[0]
         == ("auto& " + methods[0] + "_request") + ", " + ("auto& " + methods[0] + "_reply")
  {
    var m := methods[0];
    assert ChannelNames(methods) == [m + "_request", m + "_reply"] + ChannelNames(methods[1..]);
    PrefixedPair("auto& ", m + "_request", m + "_reply", ChannelNames(methods[1..]));
    AppendAssoc("auto& ", m, "_request");
    AppendAssoc("auto& ", m, "_reply");
    ChannelPairText(m);
  }

  /** Prefixing the first two items of a list, then the rest. */
  lemma PrefixedPair(p: string, x: string, y: string, rest: seq<string>)
    ensures Prefixed(p, [x, y] + rest, "") == [p + x, p + y] + Prefixed(p, rest, "")
  {
    var l := Prefixed(p, [x, y] + rest, "");
    var r := [p + x, p + y] + Prefixed(p, rest, "");
    assert |l| == |r|;
    forall i | 0 <= i < |l|
      ensures l[i] == r[i]
    {
      if i >= 2 {
        assert ([x, y] + rest)[i] == rest[i - 2];
      }
    }
  }

  /** A method's two parameters are its request and reply channel joined
      by `, `. */
  lemma ChannelPairText(m: string)
    ensures "auto& " + m + "_request, auto& " + m + "_reply"
         == ("auto& " + m + "_request") + ", " + ("auto& " + m + "_reply")
  {
    var a := "auto& " + m;
    assert "_request, auto& " == "_request" + ", " + "auto& ";
    calc {
      a + "_request, auto& " + m + "_reply";
      == { AppendAssoc(a, "_request" + ", ", "auto& "); }
      (a + ("_request" + ", ")) + "auto& " + m + "_reply";
      == { AppendAssoc(a, "_request", ", "); }
      ((a + "_request") + ", ") + "auto& " + m + "_reply";
      == { AppendAssoc((a + "_request") + ", ", "auto& ", m);
           AppendAssoc((a + "_request") + ", ", "auto& " + m, "_reply"); }
      ((a + "_request") + ", ") + (a + "_reply");
    }
  }

  /** Joining two leading items ahead of a list. */
  lemma JoinPair(x: string, y: string, rest: seq<string>, sep: string)
    ensures Join([x, y] + rest, sep) == x + sep + y + (if |rest| == 0 then "" else sep + Join(rest, sep))
  {
    assert Join([x, y], sep) == x + sep + y;
    if |rest| == 0 {
      assert [x, y] + rest == [x, y];
    } else {
      JoinAppend([x, y], rest, sep);
    }
  }

  /** Joining splits off the first item. */
  lemma JoinHead(xs: seq<string>, sep: string)
    requires |xs| > 0
    ensures Join(xs, sep) == xs[0] + (if |xs| == 1 then "" else sep + Join(xs[1..], sep))
  {
  }

  /** `GetFluentFunction`'s `make_tuple`: the method names separated by
      `, `, which split back into the names when no name holds a comma. */
  method PrintMakeTuple(methods: seq<string>) returns (out: string)
    ensures out == Join(methods, ", ")
    ensures |methods| > 0 && (forall i :: 0 <= i < |methods| ==> !Contains(methods[i], ',')) ==> Split(out, ", ") == methods
  {
    out := PrintSeparated(methods, ", ");
    if |methods| > 0 && (forall i :: 0 <= i < |methods| ==> !Contains(methods[i], ',')) {
      SplitJoin(methods, ", ");
    }
  }

  // ---------------------------------------------------------------------
  // Package namespaces (`GetIncludes`, `GetEpilogue`)
  // ---------------------------------------------------------------------

  datatype NsEvent = Open(part: string) | Close(part: string)

  function Opens(parts: seq<string>): (r: seq<NsEvent>)
    ensures |r| == |parts|
  {
    if |parts| == 0 then [] else [Open(parts[0])] + Opens(parts[1..])
  }

  /** Closing in reverse: the last part opened is closed first. */
  function Closes(parts: seq<string>): (r: seq<NsEvent>)
    ensures |r| == |parts|
  {
    if |parts| == 0 then [] else Closes(parts[1..]) + [Close(parts[0])]
  }

  function EventText(e: NsEvent): string {
    match e
    case Open(p) => "namespace " + p + " {\n"
    case Close(p) => "}  // namespace " + p + "\n"
  }

  function EventsText(es: seq<NsEvent>): string {
    if |es| == 0 then "" else EventText(es[0]) + EventsText(es[1..])
  }

  /** The namespace lines `GetIncludes` prints: none for an empty package,
      otherwise one opening line per package part and a blank line. */
  function OpenNamespaces(package: string, parts: seq<string>): string {
    if package == "" then "" else EventsText(Opens(parts)) + "\n"
  }

  /** The namespace lines `GetEpilogue` prints. */
  function CloseNamespaces(package: string, parts: seq<string>): string {
    if package == "" then "" else EventsText(Closes(parts)) + "\n"
  }

  /** The opening line of each package part, outermost first. */
  function OpenLines(parts: seq<string>): (r: seq<string>)
    ensures |r| == |parts|
    ensures forall i :: 0 <= i < |parts| ==> r[i] == "namespace " + parts[i] + " {\n"
  {
    Prefixed("namespace ", parts, " {\n")
  }

  /** The closing line of each package part, innermost first. */
  function CloseLines(parts: seq<string>): (r: seq<string>)
    ensures |r| == |parts|
    ensures forall i :: 0 <= i < |parts| ==> r[i] == "}  // namespace " + parts[|parts| - 1 - i] + "\n"
  {
    if |parts| == 0 then []
    else
      var rest := CloseLines(parts[1..]);
      assert forall i :: 0 <= i < |rest| ==> rest[i] == "}  // namespace " + parts[|parts| - 1 - i] + "\n";
      rest + ["}  // namespace " + parts[0] + "\n"]
  }

  lemma {:induction false} EventsTextAppend(a: seq<NsEvent>, b: seq<NsEvent>)
    ensures EventsText(a + b) == EventsText(a) + EventsText(b)
    decreases |a|
  {
    if |a| == 0 {
      assert a + b == b;
    } else {
      assert (a + b)[1..] == a[1..] + b;
      EventsTextAppend(a[1..], b);
      AppendAssoc(EventText(a[0]), EventsText(a[1..]), EventsText(b));
    }
  }

  /** The namespace lines line by line: nothing for an empty package;
      otherwise `GetIncludes` opens each part, outermost first, and
      `GetEpilogue` closes each part, innermost first, each followed by a
      blank line. */
  lemma NamespaceLines(package: string, parts: seq<string>)
    ensures package == "" ==> OpenNamespaces(package, parts) == "" && CloseNamespaces(package, parts) == ""
    ensures package != "" ==> OpenNamespaces(package, parts) == Concat(OpenLines(parts)) + "\n"
    ensures package != "" ==> CloseNamespaces(package, parts) == Concat(CloseLines(parts)) + "\n"
  {
    OpensText(parts);
    ClosesText(parts);
  }

  lemma {:induction false} OpensText(parts: seq<string>)
    ensures EventsText(Opens(parts)) == Concat(OpenLines(parts))
    decreases |parts|
  {
    if |parts| > 0 {
      OpensText(parts[1..]);
      assert Opens(parts)[1..] == Opens(parts[1..]);
      assert OpenLines(parts)[1..] == OpenLines(parts[1..]);
    }
  }

  lemma {:induction false} ClosesText(parts: seq<string>)
    ensures EventsText(Closes(parts)) == Concat(CloseLines(parts))
    decreases |parts|
  {
    if |parts| > 0 {
      var c := "}  // namespace " + parts[0] + "\n";
      ClosesText(parts[1..]);
      EventsTextAppend(Closes(parts[1..]), [Close(parts[0])]);
      ConcatAppend(CloseLines(parts[1..]), c);
      assert EventsText([Close(parts[0])]) == c;
    }
  }

  /** A stack machine over namespace events: an opening pushes, a closing
      must name the innermost open namespace. */
  function RunScopes(stack: seq<string>, es: seq<NsEvent>): Option<seq<string>>
    decreases |es|
  {
    if |es| == 0 then Some(stack)
    else match es[0]
      case Open(p) => RunScopes(stack + [p], es[1..])
      case Close(p) =>
        if |stack| > 0 && stack[|stack| - 1] == p then RunScopes(stack[..|stack| - 1], es[1..]) else None
  }

  /** Opening the parts and then closing them leaves the scopes as they
      were, whatever follows. */
  lemma {:induction false} OpenCloseBalanced(stack: seq<string>, parts: seq<string>, rest: seq<NsEvent>)
    ensures RunScopes(stack, Opens(parts) + Closes(parts) + rest) == RunScopes(stack, rest)
    decreases |parts|
  {
    if |parts| > 0 {
      var p := parts[0];
      var inner := Opens(parts[1..]) + Closes(parts[1..]);
      assert Opens(parts) + Closes(parts) + rest == [Open(p)] + (inner + ([Close(p)] + rest));
      OpenCloseBalanced(stack + [p], parts[1..], [Close(p)] + rest);
      assert (stack + [p])[..|stack|] == stack;
    } else {
      assert Opens(parts) + Closes(parts) + rest == rest;
    }
  }

  /** The epilogue closes the namespaces the includes opened, innermost
      first, and the file ends with none left open. */
  lemma NamespacesBalanced(parts: seq<string>)
    ensures RunScopes([], Opens(parts) + Closes(parts)) == Some([])
    ensures forall i :: 0 <= i < |parts| ==> Closes(parts)[i] == Close(parts[|parts| - 1 - i])
  {
    OpenCloseBalanced([], parts, []);
    assert Opens(parts) + Closes(parts) + [] == Opens(parts) + Closes(parts);
    ClosesReversed(parts);
  }

  lemma {:induction false} ClosesReversed(parts: seq<string>)
    ensures forall i :: 0 <= i < |parts| ==> Closes(parts)[i] == Close(parts[|parts| - 1 - i])
    decreases |parts|
  {
    if |parts| > 0 {
      ClosesReversed(parts[1..]);
    }
  }
}
