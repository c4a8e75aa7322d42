/** The "r-c" cell keys of the board: each rendered cell is handed the string
    `${rowIdx}-${colIdx}` as its coordinate (src/Board.js:95), and a click
    turns that string back into a row and a column with
    `coord.split('-').map(Number)` (src/Board.js:55). */
module Coords {

  /** A JavaScript number as far as the key parser can produce one: a
      non-negative integer read from a decimal numeral, or NaN. */
  datatype JsNumber = Finite(value: nat) | NaN

  predicate IsDigit(ch: char) {
    '0' <= ch <= '9'
  }

  predicate AllDigits(s: string) {
    forall i :: 0 <= i < |s| ==> IsDigit(s[i])
  }

  function DigitChar(n: nat): (ch: char)
    requires n < 10
    ensures IsDigit(ch)
  {
    ('0' as int + n) as char
  }

  function DigitValue(ch: char): (v: nat)
    requires IsDigit(ch)
    ensures v < 10
  {
    ch as int - '0' as int
  }

  /** The value of a string of decimal digits, most significant first; the
      empty string reads as 0, as `Number("")` does. */
  function DigitsValue(s: string): (v: nat)
    requires AllDigits(s)
  {
    if |s| == 0 then 0 else 10 * DigitsValue(s[..|s| - 1]) + DigitValue(s[|s| - 1])
  }

  /** A numeral as a template literal renders a non-negative integer: no sign,
      and no leading zero unless the number is zero itself. */
  predicate Canonical(s: string) {
    |s| >= 1 && AllDigits(s) && (s[0] == '0' ==> |s| == 1)
  }

  /** The decimal rendering of a row or column index inside `${...}`. */
  function NatToString(n: nat): (s: string)
    ensures Canonical(s)
    ensures DigitsValue(s) == n
  {
    if n < 10 then [DigitChar(n)]
    else
      var s := NatToString(n / 10) + [DigitChar(n % 10)];
      assert s[..|s| - 1] == NatToString(n / 10);
      s
  }

  /** `Number(s)` on the strings a split key can hold: a string of decimal
      digits reads as its value (the empty string as 0, leading zeros
      ignored); any other string reads as NaN. */
  function ToNumber(s: string): (n: JsNumber)
    ensures n.Finite? <==> AllDigits(s)
    ensures s == "" ==> n == Finite(0)
    ensures forall v: nat :: s == NatToString(v) ==> n == Finite(v)
  {
    if AllDigits(s) then Finite(DigitsValue(s)) else NaN
  }

  /** Leading zeros do not change what `Number` reads: `Number("007") == 7`. */
  lemma {:induction false} LeadingZeroIgnored(s: string)
    requires AllDigits(s)
    ensures ToNumber("0" + s) == ToNumber(s)
    decreases |s|
  {
    var z := "0" + s;
    assert AllDigits(z);
    if |s| > 0 {
      assert z[..|z| - 1] == "0" + s[..|s| - 1];
      assert z[|z| - 1] == s[|s| - 1];
      LeadingZeroIgnored(s[..|s| - 1]);
    } else {
      assert z[..|z| - 1] == [];
    }
  }

  /** Position of the first occurrence of `sep` in `s`. */
  function IndexOf(s: string, sep: char): (i: nat)
    requires sep in s
    ensures i < |s| && s[i] == sep && sep !in s[..i]
  {
    if s[0] == sep then 0
    else
      var i := 1 + IndexOf(s[1..], sep);
      assert s[..i] == [s[0]] + s[1..][..i - 1];
      i
  }

  /** Glues parts together with `sep` between neighbours, the inverse of Split. */
  function Join(parts: seq<string>, sep: char): (s: string)
    requires |parts| >= 1
  {
    if |parts| == 1 then parts[0] else parts[0] + [sep] + Join(parts[1..], sep)
  }

  /** `String.prototype.split` with a one-character separator: the maximal
      separator-free pieces in order, empty ones included. */
  function Split(s: string, sep: char): (parts: seq<string>)
    ensures |parts| >= 1
    ensures forall i :: 0 <= i < |parts| ==> sep !in parts[i]
    ensures Join(parts, sep) == s
    decreases |s|
  {
    if sep !in s then [s]
    else
      var i := IndexOf(s, sep);
      var rest := Split(s[i + 1..], sep);
      assert s == s[..i] + [sep] + s[i + 1..];
      assert ([s[..i]] + rest)[1..] == rest;
      [s[..i]] + rest
  }

  /** Splitting a join of separator-free parts gives the parts back. */
  lemma {:induction false} SplitJoin(parts: seq<string>, sep: char)
    requires |parts| >= 1
    requires forall i :: 0 <= i < |parts| ==> sep !in parts[i]
    ensures Split(Join(parts, sep), sep) == parts
    decreases |parts|
  {
    if |parts| > 1 {
      SplitAppend(parts[0], Join(parts[1..], sep), sep);
      SplitJoin(parts[1..], sep);
      assert parts == [parts[0]] + parts[1..];
    }
  }

  /** The key a rendered cell carries (src/Board.js:94-95): it splits on
      '-' into exactly the two rendered indices. */
  function FormatKey(row: nat, col: nat): (key: string)
    ensures Split(key, '-') == [NatToString(row), NatToString(col)]
  {
    var r, c := NatToString(row), NatToString(col);
    assert '-' !in r by { assert forall i :: 0 <= i < |r| ==> IsDigit(r[i]); }
    assert '-' !in c by { assert forall i :: 0 <= i < |c| ==> IsDigit(c[i]); }
    assert [r, c][1..] == [c];
    SplitJoin([r, c], '-');
    r + "-" + c
  }

  /** `const [y, x] = coord.split('-').map(Number)`: a key with no separator
      leaves `x` undefined, which compares and subtracts like NaN; parts after
      the second are ignored by the destructuring. */
  function ParseKey(key: string): (yx: (JsNumber, JsNumber))
    ensures '-' !in key ==> yx == (ToNumber(key), NaN)
    ensures forall a, c :: '-' !in a && '-' !in c && key == a + "-" + c ==>
              yx == (ToNumber(a), ToNumber(c))
    ensures forall a, c, e :: '-' !in a && '-' !in c && key == a + "-" + c + "-" + e ==>
              yx == (ToNumber(a), ToNumber(c))
  {
    SplitKeyParts(key);
    var parts := Split(key, '-');
    (ToNumber(parts[0]), if |parts| >= 2 then ToNumber(parts[1]) else NaN)
  }

  /** The first two parts of a key with one separator, or with two or more,
      read from its characters. */
  lemma SplitKeyParts(key: string)
    ensures forall a, c :: '-' !in a && '-' !in c && key == a + "-" + c ==>
              |Split(key, '-')| >= 2 && Split(key, '-')[0] == a && Split(key, '-')[1] == c
    ensures forall a, c, e :: '-' !in a && '-' !in c && key == a + "-" + c + "-" + e ==>
              |Split(key, '-')| >= 2 && Split(key, '-')[0] == a && Split(key, '-')[1] == c
  {
    forall a, c | '-' !in a && '-' !in c && key == a + "-" + c
      ensures |Split(key, '-')| >= 2 && Split(key, '-')[0] == a && Split(key, '-')[1] == c
    {
      SplitAfterPlainPrefix(a, c, '-');
    }
    forall a, c, e | '-' !in a && '-' !in c && key == a + "-" + c + "-" + e
      ensures |Split(key, '-')| >= 2 && Split(key, '-')[0] == a && Split(key, '-')[1] == c
    {
      assert key == a + ['-'] + (c + ['-'] + e);
      SplitAfterPlainPrefix(a, c + ['-'] + e, '-');
      SplitAfterPlainPrefix(c, e, '-');
    }
  }

  /** The first separator of `a + b` is the first one of `a`, when `a` has one. */
  lemma IndexOfPrefix(a: string, b: string, sep: char)
    requires sep in a
    ensures sep in a + b && IndexOf(a + b, sep) == IndexOf(a, sep)
  {
    var i := IndexOf(a, sep);
    assert (a + b)[i] == sep;
    var j := IndexOf(a + b, sep);
    assert (a + b)[..j] == a[..j];
  }

  /** With no separator in `a`, the first separator of `a + [sep] + b` is
      the one right after `a`. */
  lemma IndexOfAfter(a: string, b: string, sep: char)
    requires sep !in a
    ensures sep in a + [sep] + b && IndexOf(a + [sep] + b, sep) == |a|
  {
    var s := a + [sep] + b;
    assert s[|a|] == sep;
    var j := IndexOf(s, sep);
    assert forall k :: 0 <= k < |a| ==> s[k] == a[k];
  }

  /** One step of Split on a string holding the separator. */
  lemma SplitStep(s: string, sep: char)
    requires sep in s
    ensures Split(s, sep) == [s[..IndexOf(s, sep)]] + Split(s[IndexOf(s, sep) + 1..], sep)
  {
  }

  /** Split of `a-b` when `a` holds no separator: `a` is the first part. */
  lemma SplitAfterPlainPrefix(a: string, b: string, sep: char)
    requires sep !in a
    ensures Split(a + [sep] + b, sep) == [a] + Split(b, sep)
  {
    var s := a + [sep] + b;
    IndexOfAfter(a, b, sep);
    SplitStep(s, sep);
    assert s[..|a|] == a;
    assert s[|a| + 1..] == b;
  }

  /** Split of `a-b` when `a` holds a separator: the first part is `a`'s. */
  lemma SplitAfterSeparatedPrefix(a: string, b: string, sep: char)
    requires sep in a
    ensures Split(a + [sep] + b, sep)
         == [a[..IndexOf(a, sep)]] + Split(a[IndexOf(a, sep) + 1..] + [sep] + b, sep)
  {
    var s := a + [sep] + b;
    var i := IndexOf(a, sep);
    assert s == a + ([sep] + b);
    IndexOfPrefix(a, [sep] + b, sep);
    SplitStep(s, sep);
    assert s[..i] == a[..i];
    assert s[i + 1..] == a[i + 1..] + [sep] + b;
  }

  /** The inductive step of SplitAppend: if the claim holds after the first
      separator of `a`, it holds for `a`. */
  lemma SplitAppendStep(a: string, b: string, sep: char)
    requires sep in a
    requires Split(a[IndexOf(a, sep) + 1..] + [sep] + b, sep)
          == Split(a[IndexOf(a, sep) + 1..], sep) + Split(b, sep)
    ensures Split(a + [sep] + b, sep) == Split(a, sep) + Split(b, sep)
  {
    var i := IndexOf(a, sep);
    var head, rest := [a[..i]], a[i + 1..];
    var whole, left, tail, right := Split(a + [sep] + b, sep), Split(a, sep), Split(rest, sep), Split(b, sep);
    SplitAfterSeparatedPrefix(a, b, sep);
    SplitStep(a, sep);
    assert whole == head + (tail + right);
    assert left == head + tail;
    ConcatAssoc(head, tail, right);
  }

  /** Regrouping a concatenation of part lists. Kept as a lemma: stated inline,
      the step takes SplitAppendStep past its resource budget. */
  lemma ConcatAssoc(p: seq<string>, q: seq<string>, r: seq<string>)
    ensures (p + q) + r == p + (q + r)
  {
  }

  /** Splitting at a separator splits each side independently. */
  lemma {:induction false} SplitAppend(a: string, b: string, sep: char)
    ensures Split(a + [sep] + b, sep) == Split(a, sep) + Split(b, sep)
    decreases |a|
  {
    if sep !in a {
      SplitAfterPlainPrefix(a, b, sep);
    } else {
      SplitAppend(a[IndexOf(a, sep) + 1..], b, sep);
      SplitAppendStep(a, b, sep);
    }
  }

  /** Anything after the second part of a key is ignored. */
  lemma ParseIgnoresExtraParts(key: string, extra: string)
    requires |Split(key, '-')| >= 2
    ensures ParseKey(key + "-" + extra) == ParseKey(key)
  {
    SplitAppend(key, extra, '-');
  }

  /** Parsing the key of cell (row, col) yields exactly that row and column. */
  lemma KeyRoundTrip(row: nat, col: nat)
    ensures ParseKey(FormatKey(row, col)) == (Finite(row), Finite(col))
  {
  }

  /** Different cells carry different keys. */
  lemma KeysDistinct(r1: nat, c1: nat, r2: nat, c2: nat)
    requires (r1, c1) != (r2, c2)
    ensures FormatKey(r1, c1) != FormatKey(r2, c2)
  {
    KeyRoundTrip(r1, c1);
    KeyRoundTrip(r2, c2);
  }

  /** Reading a canonical numeral and rendering the number again gives the
      numeral back, so NatToString and DigitsValue are mutually inverse on
      canonical numerals. */
  lemma {:induction false} CanonicalRoundTrip(s: string)
    requires Canonical(s)
    ensures NatToString(DigitsValue(s)) == s
    decreases |s|
  {
    if |s| == 1 {
      assert DigitsValue(s) == DigitValue(s[0]) by { assert s[..0] == []; }
    } else {
      var p := s[..|s| - 1];
      assert Canonical(p) by {
        assert p[0] == s[0];
        assert forall i :: 0 <= i < |p| ==> p[i] == s[i];
      }
      CanonicalRoundTrip(p);
      PositiveNumeral(p);
      var n := DigitsValue(s);
      assert n / 10 == DigitsValue(p) && n % 10 == DigitValue(s[|s| - 1]);
      assert n >= 10;
      assert s == p + [s[|s| - 1]];
    }
  }

  /** A canonical numeral of two or more digits starts with a non-zero digit,
      so its value is positive. */
  lemma {:induction false} PositiveNumeral(s: string)
    requires Canonical(s) && s[0] != '0'
    ensures DigitsValue(s) >= 1
    decreases |s|
  {
    if |s| == 1 {
      assert s[..0] == [];
    } else {
      var p := s[..|s| - 1];
      assert p[0] == s[0];
      assert forall i :: 0 <= i < |p| ==> p[i] == s[i];
      PositiveNumeral(p);
    }
  }
}
