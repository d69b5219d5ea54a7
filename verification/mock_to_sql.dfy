/** `MockToSql`: the stand-in for the SQL type mapping of the lineage
    database, which names each C++ column type and renders each value as
    text in C++ terms.

    The separator that `Join` from `common/string_util.h` puts between array
    elements is a parameter: that header is not part of this model. */
module MockToSql {
  import opened Text

  /** The column types with a `MockToSql` specialisation, floating point
      left aside. */
  datatype CType =
    | Bool | Char | Str | Short | Int | Long | LongLong | ULong | ULongLong
    | Array(elem: CType, n: nat)

  datatype CValue =
    | BoolV(b: bool)
    | CharV(c: char)
    | StrV(s: string)
    | IntV(x: int)
    | ArrayV(xs: seq<CValue>)

  const Two15: int := 0x8000
  const Two31: int := 0x8000_0000
  const Two63: int := 0x8000_0000_0000_0000
  const Two64: int := 0x1_0000_0000_0000_0000

  predicate IsIntegral(t: CType) {
    t.Short? || t.Int? || t.Long? || t.LongLong? || t.ULong? || t.ULongLong?
  }

  /** The values of each integer type, on a platform where `short` is 16
      bits, `int` 32 bits and `long` 64 bits. */
  predicate InRange(t: CType, x: int)
    requires IsIntegral(t)
  {
    match t
    case Short => -Two15 <= x < Two15
    case Int => -Two31 <= x < Two31
    case Long => -Two63 <= x < Two63
    case LongLong => -Two63 <= x < Two63
    case ULong => 0 <= x < Two64
    case ULongLong => 0 <= x < Two64
  }

  /** `v` is a value of C++ type `t`; an array holds exactly `n` elements. */
  predicate HasType(v: CValue, t: CType)
    decreases v
  {
    match t
    case Bool => v.BoolV?
    case Char => v.CharV?
    case Str => v.StrV?
    case Array(e, n) =>
      v.ArrayV? && |v.xs| == n && forall i :: 0 <= i < |v.xs| ==> HasType(v.xs[i], e)
    case _ => v.IntV? && InRange(t, v.x)
  }

  // ---------------------------------------------------------------------
  // Type()
  // ---------------------------------------------------------------------

  /** `Type()`: the C++ spelling of the type. */
  function TypeName(t: CType): (r: string)
    ensures |r| > 0
    ensures t.Array? <==> r[0] == 'a'
    ensures t.Array? ==> r[|r| - 1] == '>'
  {
    match t
    case Bool => "bool"
    case Char => "char"
    case Str => "string"
    case Short => "short int"
    case Int => "int"
    case Long => "long"
    case LongLong => "long long"
    case ULong => "unsigned long"
    case ULongLong => "unsigned long long"
    case Array(e, n) => "array<" + TypeName(e) + ", " + NatToString(n) + ">"
  }

  /** Reading the element type and size back off the inside of an array
      spelling: the size is the digits after the last `, `. */
  lemma ArraySuffix(x1: string, d1: string, x2: string, d2: string)
    requires AllDigits(d1) && AllDigits(d2) && |d1| > 0 && |d2| > 0
    requires x1 + ", " + d1 == x2 + ", " + d2
    ensures x1 == x2 && d1 == d2
  {
    var s := x1 + ", " + d1;
    var s2 := x2 + ", " + d2;
    // Both sides place the last comma of the text just before their digits.
    assert s[|s| - |d1| - 2] == ',' && s2[|s2| - |d2| - 2] == ',';
    assert forall j :: |s| - |d1| - 2 < j < |s| ==> s[j] == ' ' || IsDigit(s[j]);
    assert forall j :: |s2| - |d2| - 2 < j < |s2| ==> s2[j] == ' ' || IsDigit(s2[j]);
    assert |d1| == |d2|;
    assert x1 == s[..|x1|] == s2[..|x2|] == x2;
    assert d1 == s[|s| - |d1|..] == s2[|s2| - |d2|..] == d2;
  }

  /** Different types have different spellings. */
  lemma {:induction false} TypeNameInjective(a: CType, b: CType)
    requires TypeName(a) == TypeName(b)
    ensures a == b
    decreases a
  {
    if a.Array? && b.Array? {
      ArrayNameInside(a);
      ArrayNameInside(b);
      ArraySuffix(TypeName(a.elem), NatToString(a.n), TypeName(b.elem), NatToString(b.n));
      TypeNameInjective(a.elem, b.elem);
      NatToStringRoundTrip(a.n);
      NatToStringRoundTrip(b.n);
    }
  }

  /** Inside the angle brackets of an array spelling: the element type,
      `, ` and the size. */
  lemma ArrayNameInside(t: CType)
    requires t.Array?
    ensures |TypeName(t)| >= 7
    ensures TypeName(t)[6..|TypeName(t)| - 1] == TypeName(t.elem) + ", " + NatToString(t.n)
  {
    var inside := TypeName(t.elem) + ", " + NatToString(t.n);
    assert TypeName(t) == "array<" + inside + ">";
  }

  // ---------------------------------------------------------------------
  // Value()
  // ---------------------------------------------------------------------

  /** `Value(x)`: booleans as `true`/`false`, a character as the one-letter
      string, a string as itself, integers by `std::to_string`, an array as
      its elements' values joined and bracketed. */
  function ValueText(v: CValue, sep: string): string
    decreases v, 1
  {
    match v
    case BoolV(b) => if b then "true" else "false"
    case CharV(c) => [c]
    case StrV(s) => s
    case IntV(x) => IntToString(x)
    case ArrayV(xs) => "[" + Join(ElementTexts(v, sep), sep) + "]"
  }

  function ElementTexts(v: CValue, sep: string): (r: seq<string>)
    requires v.ArrayV?
    ensures |r| == |v.xs|
    ensures forall i :: 0 <= i < |v.xs| ==> r[i] == ValueText(v.xs[i], sep)
    decreases v, 0
  {
    seq(|v.xs|, i requires 0 <= i < |v.xs| => ValueText(v.xs[i], sep))
  }

  /** Reads a value of a non-array type back from its text. */
  function ParseScalar(t: CType, s: string): (r: Option<CValue>)
    requires !t.Array?
    ensures r.Some? ==> HasType(r.value, t)
  {
    match t
    case Bool => if s == "true" then Some(BoolV(true)) else if s == "false" then Some(BoolV(false)) else None
    case Char => if |s| == 1 then Some(CharV(s[0])) else None
    case Str => Some(StrV(s))
    case Short | Int | Long | LongLong | ULong | ULongLong =>
      var p := ParseInt(s);
      if p.Some? && InRange(t, p.value) then Some(IntV(p.value)) else None
    case Array(_, _) => None
  }

  lemma ScalarRoundTrip(t: CType, v: CValue, sep: string)
    requires !t.Array? && HasType(v, t)
    ensures ParseScalar(t, ValueText(v, sep)) == Some(v)
  {
    if IsIntegral(t) {
      IntToStringRoundTrip(v.x);
    }
  }

  /** Reads back the text of an array of scalars: the brackets, then one
      element per piece between separators (none for a zero-size array). */
  function ParseArray(t: CType, s: string, sep: string): (r: Option<CValue>)
    requires t.Array? && !t.elem.Array? && |sep| > 0
    ensures r.Some? ==> HasType(r.value, t)
  {
    if |s| < 2 || s[0] != '[' || s[|s| - 1] != ']' then None
    else
      var inner := s[1..|s| - 1];
      if t.n == 0 then (if inner == "" then Some(ArrayV([])) else None)
      else
        var pieces := Split(inner, sep);
        var elems := ParseElements(t.elem, pieces);
        if |pieces| == t.n && elems.Some? then Some(ArrayV(elems.value)) else None
  }

  /** Reads each piece as a value of the element type; fails if any piece
      does not read. */
  function ParseElements(e: CType, pieces: seq<string>): (r: Option<seq<CValue>>)
    requires !e.Array?
    ensures r.Some? ==> |r.value| == |pieces| && forall i :: 0 <= i < |pieces| ==> HasType(r.value[i], e)
  {
    if |pieces| == 0 then Some([])
    else
      var x := ParseScalar(e, pieces[0]);
      var rest := ParseElements(e, pieces[1..]);
      if x.Some? && rest.Some? then
        assert forall i :: 1 <= i < |pieces| ==> ([x.value] + rest.value)[i] == rest.value[i - 1];
        Some([x.value] + rest.value)
      else None
  }

  /** Pieces that each read back as a value read back as those values. */
  lemma {:induction false} ParseElementsAll(e: CType, pieces: seq<string>, xs: seq<CValue>)
    requires !e.Array? && |xs| == |pieces|
    requires forall i :: 0 <= i < |pieces| ==> ParseScalar(e, pieces[i]) == Some(xs[i])
    ensures ParseElements(e, pieces) == Some(xs)
    decreases |pieces|
  {
    if |pieces| > 0 {
      ParseElementsAll(e, pieces[1..], xs[1..]);
      assert xs == [xs[0]] + xs[1..];
    }
  }

  /** An array's text reads back as the array when no element's text holds
      the separator's first character. */
  lemma ArrayRoundTrip(t: CType, v: CValue, sep: string)
    requires t.Array? && !t.elem.Array? && |sep| > 0 && HasType(v, t)
    requires forall i :: 0 <= i < |v.xs| ==> !Contains(ValueText(v.xs[i], sep), sep[0])
    ensures ParseArray(t, ValueText(v, sep), sep) == Some(v)
  {
    var texts := ElementTexts(v, sep);
    var j := Join(texts, sep);
    var s := ValueText(v, sep);
    assert s == "[" + j + "]";
    Bracketed(j);
    if t.n > 0 {
      SplitJoin(texts, sep);
      forall i | 0 <= i < |texts|
        ensures ParseScalar(t.elem, texts[i]) == Some(v.xs[i])
      {
        ScalarRoundTrip(t.elem, v.xs[i], sep);
      }
      ParseArraySteps(t, s, sep, texts, v.xs);
    } else {
      assert v.xs == [];
    }
  }

  /** The brackets around an array's text. */
  lemma Bracketed(j: string)
    ensures |"[" + j + "]"| >= 2
    ensures ("[" + j + "]")[0] == '[' && ("[" + j + "]")[|"[" + j + "]"| - 1] == ']'
    ensures ("[" + j + "]")[1..|"[" + j + "]"| - 1] == j
  {
  }

  /** `ParseArray` in terms of the pieces between the brackets. */
  lemma ParseArraySteps(t: CType, s: string, sep: string, texts: seq<string>, xs: seq<CValue>)
    requires t.Array? && !t.elem.Array? && |sep| > 0 && t.n > 0
    requires |s| >= 2 && s[0] == '[' && s[|s| - 1] == ']'
    requires Split(s[1..|s| - 1], sep) == texts && |texts| == t.n && |xs| == |texts|
    requires forall i :: 0 <= i < |texts| ==> ParseScalar(t.elem, texts[i]) == Some(xs[i])
    ensures ParseArray(t, s, sep) == Some(ArrayV(xs))
  {
    ParseElementsAll(t.elem, texts, xs);
  }

  /** Integer texts never hold a separator that starts with a character
      outside their alphabet, so integer arrays always read back. */
  lemma IntArrayRoundTrip(t: CType, v: CValue, sep: string)
    requires t.Array? && IsIntegral(t.elem) && |sep| > 0 && HasType(v, t)
    requires !IsDigit(sep[0]) && sep[0] != '-'
    ensures ParseArray(t, ValueText(v, sep), sep) == Some(v)
  {
    forall i | 0 <= i < |v.xs|
      ensures !Contains(ValueText(v.xs[i], sep), sep[0])
    {
      IntTextAlphabet(v.xs[i].x);
      assert ValueText(v.xs[i], sep) == IntToString(v.xs[i].x);
    }
    ArrayRoundTrip(t, v, sep);
  }

  /** An integer's text is a minus sign and digits only. */
  lemma IntTextAlphabet(x: int)
    ensures forall j :: 0 <= j < |IntToString(x)| ==> IsDigit(IntToString(x)[j]) || IntToString(x)[j] == '-'
  {
    var s := IntToString(x);
    if x < 0 {
      var d := NatToString(-x);
      assert s == "-" + d;
      forall j | 1 <= j < |s| ensures IsDigit(s[j]) {
        assert s[j] == d[j - 1];
      }
    }
  }
}
