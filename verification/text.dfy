/** Text utilities shared by the whole model: an Option type, ASCII character
    classes, joining and splitting, prefix/suffix stripping and decimal
    rendering of integers (the behaviour of Python's `str.join` / `str.split`
    and of C++'s `std::to_string` on integer types). */
module Text {

  datatype Option<+T> = None | Some(value: T)

  datatype Result<+T, +E> = Ok(value: T) | Err(error: E)

  // ---------------------------------------------------------------------
  // Character classes (ASCII; the C locale's isalnum and Python's \w on
  // ASCII text)
  // ---------------------------------------------------------------------

  predicate IsDigit(c: char) { '0' <= c <= '9' }

  predicate IsLetter(c: char) { 'a' <= c <= 'z' || 'A' <= c <= 'Z' }

  predicate IsAlnum(c: char) { IsDigit(c) || IsLetter(c) }

  /** The regular-expression class `\w`. */
  predicate IsWordChar(c: char) { IsAlnum(c) || c == '_' }

  predicate AllWordChars(s: string) {
    forall i :: 0 <= i < |s| ==> IsWordChar(s[i])
  }

  /** A match of the pattern `\w+`. */
  predicate IsWord(s: string) { |s| > 0 && AllWordChars(s) }

  predicate Contains(s: string, c: char) { exists i :: 0 <= i < |s| && s[i] == c }

  // ---------------------------------------------------------------------
  // Concatenation, joining and splitting
  // ---------------------------------------------------------------------

  function Concat(xs: seq<string>): string {
    if |xs| == 0 then "" else xs[0] + Concat(xs[1..])
  }

  /** Python's `sep.join(xs)`. */
  function Join(xs: seq<string>, sep: string): string {
    if |xs| == 0 then ""
    else if |xs| == 1 then xs[0]
    else xs[0] + sep + Join(xs[1..], sep)
  }

  /** Python's `s.split(sep)` for a non-empty separator: the pieces between
      the non-overlapping occurrences of `sep`, scanned left to right. */
  function Split(s: string, sep: string): (r: seq<string>)
    requires |sep| > 0
    ensures |r| > 0
    decreases |s|
  {
    if |s| == 0 then [""]
    else if sep <= s then [""] + Split(s[|sep|..], sep)
    else
      var rest := Split(s[1..], sep);
      [[s[0]] + rest[0]] + rest[1..]
  }

  lemma AppendAssoc<T>(a: seq<T>, b: seq<T>, c: seq<T>)
    ensures (a + b) + c == a + (b + c)
  {
  }

  lemma ConcatAppend(xs: seq<string>, x: string)
    ensures Concat(xs + [x]) == Concat(xs) + x
  {
    if |xs| == 0 {
      assert xs + [x] == [x];
    } else {
      assert (xs + [x])[1..] == xs[1..] + [x];
      ConcatAppend(xs[1..], x);
    }
  }

  lemma ConcatSplit(xs: seq<string>, ys: seq<string>)
    ensures Concat(xs + ys) == Concat(xs) + Concat(ys)
  {
    if |xs| == 0 {
      assert xs + ys == ys;
    } else {
      assert (xs + ys)[1..] == xs[1..] + ys;
      ConcatSplit(xs[1..], ys);
    }
  }

  /** Splitting a piece that holds no first separator character leaves it
      glued to the first piece of what follows. */
  lemma {:induction false} SplitPrefix(x: string, t: string, sep: string)
    requires |sep| > 0 && !Contains(x, sep[0])
    ensures Split(x + t, sep) == [x + Split(t, sep)[0]] + Split(t, sep)[1..]
    decreases |x|
  {
    if |x| == 0 {
      assert x + t == t;
      var r := Split(t, sep);
      assert x + r[0] == r[0];
      assert r == [r[0]] + r[1..];
    } else {
      var s := x + t;
      assert s[0] == x[0];
      assert x[0] != sep[0];
      assert !(sep <= s);
      assert s[1..] == x[1..] + t;
      assert forall i :: 0 <= i < |x[1..]| ==> x[1..][i] == x[i + 1];
      SplitPrefix(x[1..], t, sep);
      assert [x[0]] + (x[1..] + Split(t, sep)[0]) == x + Split(t, sep)[0];
    }
  }

  /** Python's `sep.join` followed by `split(sep)` gives the pieces back
      when no piece holds the separator's first character. */
  lemma {:induction false} SplitJoin(xs: seq<string>, sep: string)
    requires |xs| > 0 && |sep| > 0
    requires forall i :: 0 <= i < |xs| ==> !Contains(xs[i], sep[0])
    ensures Split(Join(xs, sep), sep) == xs
    decreases |xs|
  {
    if |xs| == 1 {
      SplitPrefix(xs[0], "", sep);
      assert xs[0] + "" == xs[0];
    } else {
      var tail := Join(xs[1..], sep);
      SplitJoin(xs[1..], sep);
      var t := sep + tail;
      SplitAtSep(sep, tail);
      assert Join(xs, sep) == xs[0] + t by {
        AppendAssoc(xs[0], sep, tail);
      }
      SplitPrefix(xs[0], t, sep);
      var r := Split(t, sep);
      assert r[0] == "" && r[1..] == xs[1..];
      assert xs[0] + r[0] == xs[0];
      assert xs == [xs[0]] + xs[1..];
    }
  }

  /** A text that opens with the separator splits into an empty piece,
      then the pieces of what follows the separator. */
  lemma SplitAtSep(sep: string, tail: string)
    requires |sep| > 0
    ensures Split(sep + tail, sep) == [""] + Split(tail, sep)
  {
    var t := sep + tail;
    assert t[..|sep|] == sep;
    assert t[|sep|..] == tail;
  }

  /** Joining two non-empty lists puts one separator between the halves. */
  lemma {:induction false} JoinAppend(xs: seq<string>, ys: seq<string>, sep: string)
    requires |xs| > 0 && |ys| > 0
    ensures Join(xs + ys, sep) == Join(xs, sep) + sep + Join(ys, sep)
    decreases |xs|
  {
    if |xs| == 1 {
      assert (xs + ys)[0] == xs[0];
      assert (xs + ys)[1..] == ys;
    } else {
      assert (xs + ys)[0] == xs[0];
      assert (xs + ys)[1..] == xs[1..] + ys;
      JoinAppend(xs[1..], ys, sep);
    }
  }

  /** Each piece followed by `p`, except the last: the lines `xs` take
      when joined with `p` and a line break. */
  function Punctuated(xs: seq<string>, p: string): (r: seq<string>)
    ensures |r| == |xs|
    ensures forall i :: 0 <= i < |xs| - 1 ==> r[i] == xs[i] + p
    ensures |xs| > 0 ==> r[|xs| - 1] == xs[|xs| - 1]
  {
    seq(|xs|, i requires 0 <= i < |xs| => if i < |xs| - 1 then xs[i] + p else xs[i])
  }

  /** Every piece followed by `p`. */
  function Terminated(xs: seq<string>, p: string): (r: seq<string>)
    ensures |r| == |xs|
    ensures forall i :: 0 <= i < |xs| ==> r[i] == xs[i] + p
  {
    seq(|xs|, i requires 0 <= i < |xs| => xs[i] + p)
  }

  /** Joining with `p + sep` is joining the punctuated pieces with `sep`. */
  lemma {:induction false} JoinPunctuated(xs: seq<string>, p: string, sep: string)
    ensures Join(xs, p + sep) == Join(Punctuated(xs, p), sep)
    decreases |xs|
  {
    var ys := Punctuated(xs, p);
    if |xs| == 1 {
      assert ys == xs;
    } else if |xs| > 1 {
      JoinPunctuated(xs[1..], p, sep);
      assert ys[1..] == Punctuated(xs[1..], p);
      AppendAssoc(xs[0], p, sep);
      AppendAssoc(xs[0] + p, sep, Join(ys[1..], sep));
      AppendAssoc(xs[0], p + sep, Join(xs[1..], p + sep));
    }
  }

  /** Text after the last piece joins onto it. */
  lemma {:induction false} JoinThenSuffix(xs: seq<string>, sep: string, t: string)
    requires |xs| > 0
    ensures Join(xs, sep) + t == Join(xs[..|xs| - 1] + [xs[|xs| - 1] + t], sep)
    decreases |xs|
  {
    var ys := xs[..|xs| - 1] + [xs[|xs| - 1] + t];
    if |xs| == 1 {
      assert ys == [xs[0] + t];
    } else {
      var tail := xs[1..];
      JoinThenSuffix(tail, sep, t);
      assert ys[0] == xs[0];
      assert ys[1..] == tail[..|tail| - 1] + [tail[|tail| - 1] + t];
      AppendAssoc(xs[0] + sep, Join(tail, sep), t);
    }
  }

  /** Joining with `p + sep` and adding one more `p` is joining the
      terminated pieces with `sep`. */
  lemma JoinTerminated(xs: seq<string>, p: string, sep: string)
    requires |xs| > 0
    ensures Join(xs, p + sep) + p == Join(Terminated(xs, p), sep)
  {
    var ys := Punctuated(xs, p);
    JoinPunctuated(xs, p, sep);
    JoinThenSuffix(ys, sep, p);
    assert ys[..|ys| - 1] + [ys[|ys| - 1] + p] == Terminated(xs, p);
  }

  lemma JoinLength(xs: seq<string>, sep: string)
    requires |xs| > 0
    ensures |Join(xs, sep)| == |Concat(xs)| + (|xs| - 1) * |sep|
  {
  }

  // ---------------------------------------------------------------------
  // Stripping (Python's str.strip(chars))
  // ---------------------------------------------------------------------

  function StripLeft(s: string, chars: set<char>): (r: string)
    ensures |r| <= |s| && r == s[|s| - |r|..]
    ensures |r| > 0 ==> r[0] !in chars
  {
    if |s| > 0 && s[0] in chars then StripLeft(s[1..], chars) else s
  }

  function StripRight(s: string, chars: set<char>): (r: string)
    ensures |r| <= |s| && r == s[..|r|]
    ensures |r| > 0 ==> r[|r| - 1] !in chars
  {
    if |s| > 0 && s[|s| - 1] in chars then StripRight(s[..|s| - 1], chars) else s
  }

  function Strip(s: string, chars: set<char>): string {
    StripRight(StripLeft(s, chars), chars)
  }

  /** Stripping a quoted word whose edge characters are kept gives the word
      back. */
  lemma StripQuoted(w: string, chars: set<char>)
    requires '"' in chars && |w| > 0 && w[0] !in chars && w[|w| - 1] !in chars
    ensures Strip("\"" + w + "\"", chars) == w
  {
    var q := "\"" + w + "\"";
    assert q[1..] == w + "\"";
    assert StripLeft(q, chars) == StripLeft(w + "\"", chars);
    assert (w + "\"")[0] == w[0];
    assert StripLeft(w + "\"", chars) == w + "\"";
    assert (w + "\"")[..|w|] == w;
    assert StripRight(w + "\"", chars) == StripRight(w, chars);
  }

  // ---------------------------------------------------------------------
  // Character membership across concatenation
  // ---------------------------------------------------------------------

  lemma ContainsAppend(a: string, b: string, c: char)
    ensures Contains(a + b, c) <==> Contains(a, c) || Contains(b, c)
  {
    if Contains(a + b, c) {
      var i :| 0 <= i < |a + b| && (a + b)[i] == c;
      if i >= |a| {
        assert b[i - |a|] == c;
      }
    }
    if Contains(a, c) {
      var i :| 0 <= i < |a| && a[i] == c;
      assert (a + b)[i] == c;
    }
    if Contains(b, c) {
      var i :| 0 <= i < |b| && b[i] == c;
      assert (a + b)[|a| + i] == c;
    }
  }

  /** A character in no piece and not in the separator is not in the join. */
  lemma {:induction false} JoinLacks(xs: seq<string>, sep: string, c: char)
    requires !Contains(sep, c)
    requires forall i :: 0 <= i < |xs| ==> !Contains(xs[i], c)
    ensures !Contains(Join(xs, sep), c)
    decreases |xs|
  {
    if |xs| > 1 {
      JoinLacks(xs[1..], sep, c);
      ContainsAppend(xs[0], sep, c);
      ContainsAppend(xs[0] + sep, Join(xs[1..], sep), c);
    }
  }

  /** Splitting at a one-character separator: the text before its first
      occurrence is the first piece. */
  lemma SplitAtFirst(x: string, t: string, c: char)
    requires !Contains(x, c)
    ensures Split(x + [c] + t, [c]) == [x] + Split(t, [c])
  {
    var u := [c] + t;
    assert x + [c] + t == x + u;
    SplitPrefix(x, u, [c]);
    assert [c] <= u && u[1..] == t;
    assert Split(u, [c]) == [""] + Split(t, [c]);
    assert x + "" == x;
  }

  /** Text free of the separator character stays glued to the first piece. */
  lemma SplitHead(x: string, t: string, c: char)
    requires !Contains(x, c)
    ensures Split(x + t, [c])[0] == x + Split(t, [c])[0]
  {
    SplitPrefix(x, t, [c]);
  }

  /** Whitespace as Python's argument-less `str.strip()` removes it: the
      characters for which `str.isspace()` holds. Besides the ASCII blanks
      these are the information separators U+001C to U+001F, NEL, the
      no-break space and the Unicode space and line/paragraph separators. */
  const Whitespace: set<char> := {
    '\t', '\n', '\U{000B}', '\U{000C}', '\r',
    '\U{001C}', '\U{001D}', '\U{001E}', '\U{001F}', ' ',
    '\U{0085}', '\U{00A0}', '\U{1680}',
    '\U{2000}', '\U{2001}', '\U{2002}', '\U{2003}', '\U{2004}', '\U{2005}',
    '\U{2006}', '\U{2007}', '\U{2008}', '\U{2009}', '\U{200A}',
    '\U{2028}', '\U{2029}', '\U{202F}', '\U{205F}', '\U{3000}'
  }

  // ---------------------------------------------------------------------
  // Decimal rendering (std::to_string on integers)
  // ---------------------------------------------------------------------

  function DigitChar(d: nat): (c: char)
    requires d < 10
    ensures IsDigit(c)
  {
    "0123456789"[d]
  }

  function DigitValue(c: char): (d: nat)
    requires IsDigit(c)
    ensures d < 10
  {
    (c as int - '0' as int) as nat
  }

  predicate AllDigits(s: string) {
    forall i :: 0 <= i < |s| ==> IsDigit(s[i])
  }

  /** Decimal digits of `n`, most significant first, without leading zeros. */
  function NatToString(n: nat): (r: string)
    ensures |r| > 0 && AllDigits(r)
    ensures r[0] == '0' ==> r == "0"
  {
    if n < 10 then [DigitChar(n)] else NatToString(n / 10) + [DigitChar(n % 10)]
  }

  /** The value of a string of decimal digits. */
  function DigitsValue(s: string): nat
    requires AllDigits(s)
  {
    if |s| == 0 then 0 else DigitsValue(s[..|s| - 1]) * 10 + DigitValue(s[|s| - 1])
  }

  /** `std::to_string` on a signed integer: a minus sign for negatives. */
  function IntToString(x: int): string {
    if x < 0 then "-" + NatToString(-x) else NatToString(x)
  }

  /** Reads back a rendering of `IntToString`. */
  function ParseInt(s: string): Option<int> {
    if |s| > 1 && s[0] == '-' && AllDigits(s[1..]) then var v: int := DigitsValue(s[1..]); Some(-v)
    else if |s| > 0 && AllDigits(s) then Some(DigitsValue(s))
    else None
  }

  lemma {:induction false} NatToStringRoundTrip(n: nat)
    ensures DigitsValue(NatToString(n)) == n
    decreases n
  {
    if n >= 10 {
      var s := NatToString(n);
      var p := NatToString(n / 10);
      assert s == p + [DigitChar(n % 10)];
      assert s[..|s| - 1] == p;
      NatToStringRoundTrip(n / 10);
    }
  }

  lemma IntToStringRoundTrip(x: int)
    ensures ParseInt(IntToString(x)) == Some(x)
  {
    var s := IntToString(x);
    if x < 0 {
      NegativeRoundTrip(x, s);
    } else {
      NonNegativeRoundTrip(x, s);
    }
  }

  lemma NegativeRoundTrip(x: int, s: string)
    requires x < 0 && s == IntToString(x)
    ensures ParseInt(s) == Some(x)
  {
    var n: nat := -x;
    var d := NatToString(n);
    NatToStringRoundTrip(n);
    ParseNegative(d);
    assert s == "-" + d;
    assert ParseInt(s) == Some(-(n as int));
  }

  lemma NonNegativeRoundTrip(x: int, s: string)
    requires x >= 0 && s == IntToString(x)
    ensures ParseInt(s) == Some(x)
  {
    var d := NatToString(x);
    NatToStringRoundTrip(x);
    ParseNonNegative(d);
    assert s == d;
  }

  /** A minus sign and digits read back as the negated value. */
  lemma ParseNegative(d: string)
    requires |d| > 0 && AllDigits(d)
    ensures ParseInt("-" + d) == Some(-(DigitsValue(d) as int))
  {
    var s := "-" + d;
    assert s[0] == '-' && s[1..] == d;
  }

  /** Digits alone read back as their value. */
  lemma ParseNonNegative(d: string)
    requires |d| > 0 && AllDigits(d)
    ensures ParseInt(d) == Some(DigitsValue(d))
  {
    assert d[0] != '-';
  }

  /** Distinct integers render to distinct strings. */
  lemma IntToStringInjective(x: int, y: int)
    requires IntToString(x) == IntToString(y)
    ensures x == y
  {
    IntToStringRoundTrip(x);
    IntToStringRoundTrip(y);
  }
}
