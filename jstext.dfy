/** The handful of JavaScript string and number primitives the collectors
    rely on: String.prototype.trim, parseInt(s, 10), number-to-string
    conversion in template literals, and the relational comparison of two
    strings.  Characters are Unicode scalar values; JavaScript compares
    UTF-16 code units, which agrees on every character below U+10000. */
module JsText {
  import opened Wrappers
  import opened Constants

  /** The characters String.prototype.trim and parseInt skip:
      WhiteSpace and LineTerminator of the ECMAScript grammar. */
  predicate IsWhiteSpace(c: char) {
    c == '\t' || c == '\n' || c == '\U{000B}' || c == '\U{000C}' || c == '\r' || c == ' '
    || c == '\U{00A0}' || c == '\U{1680}' || ('\U{2000}' <= c <= '\U{200A}')
    || c == '\U{2028}' || c == '\U{2029}' || c == '\U{202F}' || c == '\U{205F}'
    || c == '\U{3000}' || c == '\U{FEFF}'
  }

  predicate IsDigit(c: char) { '0' <= c <= '9' }

  predicate AllDigits(s: string) { forall i :: 0 <= i < |s| ==> IsDigit(s[i]) }

  /** The value of a decimal digit (0 for any other character). */
  function DigitValue(c: char): nat {
    if IsDigit(c) then (c as int - '0' as int) as nat else 0
  }

  function DigitChar(d: nat): (c: char)
    requires d < 10
    ensures IsDigit(c) && DigitValue(c) == d
  {
    ('0' as int + d) as char
  }

  /** Leading white space removed. */
  function TrimStart(s: string): (r: string)
    ensures |r| <= |s|
  {
    if s == [] || !IsWhiteSpace(s[0]) then s else TrimStart(s[1..])
  }

  /** TrimStart cuts exactly the white-space prefix. */
  lemma {:induction false} TrimStartSpec(s: string)
    ensures var r := TrimStart(s);
      && r == s[|s| - |r|..]
      && (forall i :: 0 <= i < |s| - |r| ==> IsWhiteSpace(s[i]))
      && (r == [] || !IsWhiteSpace(r[0]))
  {
    if s != [] && IsWhiteSpace(s[0]) {
      TrimStartSpec(s[1..]);
    }
  }

  /** Trailing white space removed. */
  function TrimEnd(s: string): (r: string)
    ensures |r| <= |s|
  {
    if s == [] || !IsWhiteSpace(s[|s| - 1]) then s else TrimEnd(s[..|s| - 1])
  }

  /** TrimEnd cuts exactly the white-space suffix. */
  lemma {:induction false} TrimEndSpec(s: string)
    ensures var r := TrimEnd(s);
      && r == s[..|r|]
      && (forall i :: |r| <= i < |s| ==> IsWhiteSpace(s[i]))
      && (r == [] || !IsWhiteSpace(r[|r| - 1]))
  {
    if s != [] && IsWhiteSpace(s[|s| - 1]) {
      TrimEndSpec(s[..|s| - 1]);
    }
  }

  /** String.prototype.trim. */
  function Trim(s: string): (r: string)
  {
    TrimEnd(TrimStart(s))
  }

  /** Trimming twice is trimming once. */
  lemma TrimIdempotent(s: string)
    ensures Trim(Trim(s)) == Trim(s)
  {
    var t := TrimStart(s);
    var r := TrimEnd(t);
    TrimStartSpec(s);
    TrimEndSpec(t);
    assert r == [] || !IsWhiteSpace(r[0]) by {
      if r != [] { assert r[0] == t[0]; }
    }
    assert TrimStart(r) == r;
    assert TrimEnd(r) == r;
  }

  /** `text?.trim() || fallback`: the trimmed text of an element that may be
      missing, with a fallback for a missing element or an empty text. */
  function TrimmedOr(text: Option<string>, fallback: string): string {
    match text
    case Some(t) => if Trim(t) == "" then fallback else Trim(t)
    case None => fallback
  }

  /** The value of a string of decimal digits, most significant first. */
  function DigitsValue(s: string): nat {
    if s == [] then 0 else DigitsValue(s[..|s| - 1]) * 10 + DigitValue(s[|s| - 1])
  }

  function Pow10(k: nat): (p: nat)
    ensures p >= 1
  {
    if k == 0 then 1 else 10 * Pow10(k - 1)
  }

  lemma {:induction false} DigitsValueBound(s: string)
    requires AllDigits(s)
    ensures DigitsValue(s) < Pow10(|s|)
  {
    if s != [] {
      DigitsValueBound(s[..|s| - 1]);
    }
  }

  /** Reading the digits from the front: the leading digit weighs 10^(n-1). */
  lemma {:induction false} DigitsValueFront(s: string)
    requires AllDigits(s) && s != []
    ensures DigitsValue(s) == DigitValue(s[0]) * Pow10(|s| - 1) + DigitsValue(s[1..])
  {
    if |s| > 1 {
      var init, tail := s[..|s| - 1], s[1..];
      var d0, last := DigitValue(s[0]), DigitValue(s[|s| - 1]);
      var p := Pow10(|s| - 2);
      DigitsValueFront(init);
      assert init[0] == s[0];
      assert init[1..] == tail[..|tail| - 1];
      var v := DigitsValue(init[1..]);
      assert DigitsValue(init) == d0 * p + v;
      assert DigitsValue(tail) == v * 10 + last;
      assert DigitsValue(s) == DigitsValue(init) * 10 + last;
      assert Pow10(|s| - 1) == 10 * p;
      ShiftDigit(d0, p, v, last);
    } else {
      assert s[1..] == [];
    }
  }

  /** The length of the longest prefix made of decimal digits. */
  function DigitPrefixLength(s: string): (n: nat)
    ensures n <= |s|
  {
    if s == [] || !IsDigit(s[0]) then 0 else 1 + DigitPrefixLength(s[1..])
  }

  /** DigitPrefixLength measures the longest all-digit prefix. */
  lemma {:induction false} DigitPrefixSpec(s: string)
    ensures var n := DigitPrefixLength(s);
      AllDigits(s[..n]) && (n < |s| ==> !IsDigit(s[n]))
  {
    if s != [] && IsDigit(s[0]) {
      DigitPrefixSpec(s[1..]);
      var n := DigitPrefixLength(s);
      assert s[..n] == [s[0]] + s[1..][..n - 1];
    }
  }

  /** parseInt(s, 10): leading white space is skipped, one optional sign is
      read, then the longest run of decimal digits; NaN when there is none. */
  function ParseInt(s: string): Count
  {
    var t := TrimStart(s);
    var negative := t != [] && t[0] == '-';
    var u := if t != [] && (t[0] == '-' || t[0] == '+') then t[1..] else t;
    var n := DigitPrefixLength(u);
    if n == 0 then NaN
    else
      var v: int := DigitsValue(u[..n]);
      Int(if negative then -v else v)
  }

  /** The decimal text of a natural number, without leading zeros. */
  function NatToString(n: nat): (s: string)
    ensures s != []
  {
    if n < 10 then [DigitChar(n)] else NatToString(n / 10) + [DigitChar(n % 10)]
  }

  /** The decimal text is all digits, has no leading zero and denotes n. */
  lemma {:induction false} NatToStringSpec(n: nat)
    ensures var s := NatToString(n);
      AllDigits(s) && DigitsValue(s) == n && (|s| > 1 ==> s[0] != '0')
  {
    if n >= 10 {
      NatToStringSpec(n / 10);
      var s := NatToString(n);
      assert s[..|s| - 1] == NatToString(n / 10);
      assert s[0] == NatToString(n / 10)[0];
    }
  }

  /** The text a template literal gives an integer-valued number. */
  function IntToString(i: int): string
  {
    if i < 0 then "-" + NatToString(-i) else NatToString(i)
  }

  /** The text a template literal gives a count (`NaN` for NaN). */
  function CountToString(c: Count): string
  {
    match c
    case Int(i) => IntToString(i)
    case NaN => "NaN"
  }

  lemma AllDigitsPrefix(s: string)
    requires AllDigits(s)
    ensures DigitPrefixLength(s) == |s| && s[..|s|] == s
  {
    if s != [] {
      assert AllDigits(s[1..]);
      AllDigitsPrefix(s[1..]);
    }
  }

  /** parseInt reads back every integer's decimal text. */
  lemma ParseIntOfIntToString(i: int)
    ensures ParseInt(IntToString(i)) == Int(i)
  {
    var s := IntToString(i);
    var d := NatToString(if i < 0 then -i else i);
    NatToStringSpec(if i < 0 then -i else i);
    assert TrimStart(s) == s;
    if i < 0 {
      assert s[1..] == d;
    }
    AllDigitsPrefix(d);
  }

  /** parseInt of a string of digits is its decimal value. */
  lemma ParseIntOfDigits(s: string)
    requires AllDigits(s) && s != []
    ensures ParseInt(s) == Int(DigitsValue(s))
  {
    assert TrimStart(s) == s;
    AllDigitsPrefix(s);
  }

  predicate IsHexDigit(c: char) {
    IsDigit(c) || ('a' <= c <= 'f') || ('A' <= c <= 'F')
  }

  /** The value of a hexadecimal digit (0 for any other character). */
  function HexDigitValue(c: char): nat {
    if IsDigit(c) then DigitValue(c)
    else if 'a' <= c <= 'f' then (c as int - 'a' as int + 10) as nat
    else if 'A' <= c <= 'F' then (c as int - 'A' as int + 10) as nat
    else 0
  }

  /** The length of the longest prefix made of hexadecimal digits. */
  function HexPrefixLength(s: string): (n: nat)
    ensures n <= |s|
  {
    if s == [] || !IsHexDigit(s[0]) then 0 else 1 + HexPrefixLength(s[1..])
  }

  /** The value of a string of hexadecimal digits, most significant first. */
  function HexValue(s: string): nat {
    if s == [] then 0 else HexValue(s[..|s| - 1]) * 16 + HexDigitValue(s[|s| - 1])
  }

  /** parseInt(s) with no radix argument: as parseInt(s, 10), except that a
      "0x" or "0X" after the optional sign switches to hexadecimal. */
  function ParseIntNoRadix(s: string): Count
  {
    var t := TrimStart(s);
    var negative := t != [] && t[0] == '-';
    var u := if t != [] && (t[0] == '-' || t[0] == '+') then t[1..] else t;
    if |u| >= 2 && u[0] == '0' && (u[1] == 'x' || u[1] == 'X') then
      var h := u[2..];
      var n := HexPrefixLength(h);
      if n == 0 then NaN
      else
        var v: int := HexValue(h[..n]);
        Int(if negative then -v else v)
    else ParseInt(s)
  }

  /** Without a "0x" prefix the radix does not matter: a digit string reads
      as its decimal value either way. */
  lemma ParseIntNoRadixOfDigits(s: string)
    requires AllDigits(s) && s != []
    ensures ParseIntNoRadix(s) == Int(DigitsValue(s))
  {
    assert TrimStart(s) == s;
    ParseIntOfDigits(s);
  }

  /** A string of hexadecimal digits is its own longest hexadecimal prefix. */
  lemma {:induction false} HexPrefixOfHexDigits(h: string)
    requires forall k :: 0 <= k < |h| ==> IsHexDigit(h[k])
    ensures HexPrefixLength(h) == |h|
  {
    if h != [] {
      assert forall k :: 0 <= k < |h[1..]| ==> IsHexDigit(h[1..][k]) by {
        forall k | 0 <= k < |h[1..]| ensures IsHexDigit(h[1..][k]) {
          assert h[1..][k] == h[k + 1];
        }
      }
      HexPrefixOfHexDigits(h[1..]);
    }
  }

  /** parseInt(s) without a radix reads "0x" followed by hexadecimal digits
      as the value of those digits. */
  lemma ParseIntNoRadixOfHexDigits(h: string)
    requires h != [] && forall k :: 0 <= k < |h| ==> IsHexDigit(h[k])
    ensures ParseIntNoRadix("0x" + h) == Int(HexValue(h))
  {
    var s := "0x" + h;
    assert TrimStart(s) == s;
    assert s[2..] == h;
    HexPrefixOfHexDigits(h);
    assert h[..|h|] == h;
  }

  /** A "0x" prefix is read as hexadecimal: "0x1F" is 31, and "0x" alone
      has no digits. */
  lemma ParseIntNoRadixHex()
    ensures ParseIntNoRadix("0x1F") == Int(31)
    ensures ParseIntNoRadix("0x") == NaN
  {
    var h: string := "1F";
    assert "0x1F"[2..] == h;
    assert HexPrefixLength(h) == 2;
    assert h[..2] == h;
    assert h[..1] == "1";
    assert HexValue(h) == 31;
    assert TrimStart("0x1F") == "0x1F";
    assert TrimStart("0x") == "0x";
  }

  /** `parseInt(text?.trim() || '0', 10)`, the count read from an element
      that may be missing. */
  function CountOf(text: Option<string>): Count {
    ParseInt(TrimmedOr(text, "0"))
  }

  /** A missing element counts as 0. */
  lemma CountOfMissing()
    ensures CountOf(None) == Int(0)
  {
    ParseIntOfDigits("0");
  }

  /** The w-digit, zero-padded decimal text of n modulo 10^w. */
  function PadDigits(n: nat, w: nat): (s: string)
    ensures |s| == w
  {
    if w == 0 then [] else PadDigits(n / 10, w - 1) + [DigitChar(n % 10)]
  }

  lemma {:induction false} PadDigitsAllDigits(n: nat, w: nat)
    ensures AllDigits(PadDigits(n, w))
  {
    if w > 0 {
      PadDigitsAllDigits(n / 10, w - 1);
    }
  }

  lemma {:induction false} PadDigitsValue(n: nat, w: nat)
    requires n < Pow10(w)
    ensures DigitsValue(PadDigits(n, w)) == n
  {
    if w > 0 {
      var s := PadDigits(n, w);
      assert s[..w - 1] == PadDigits(n / 10, w - 1);
      PadDigitsValue(n / 10, w - 1);
    }
  }

  /** The value of two digit strings written one after the other. */
  lemma {:induction false} DigitsValueAppend(s: string, t: string)
    ensures DigitsValue(s + t) == DigitsValue(s) * Pow10(|t|) + DigitsValue(t)
  {
    if t == [] {
      assert s + t == s;
    } else {
      var st := s + t;
      var t' := t[..|t| - 1];
      var c := t[|t| - 1];
      assert st[..|st| - 1] == s + t';
      assert st[|st| - 1] == c;
      DigitsValueAppend(s, t');
      assert DigitsValue(st) == DigitsValue(s + t') * 10 + DigitValue(c);
      assert DigitsValue(t) == DigitsValue(t') * 10 + DigitValue(c);
      assert Pow10(|t|) == 10 * Pow10(|t'|);
      ShiftDigit(DigitsValue(s), Pow10(|t'|), DigitsValue(t'), DigitValue(c));
    }
  }

  lemma ShiftDigit(a: int, p: int, b: int, d: int)
    ensures (a * p + b) * 10 + d == a * (10 * p) + (b * 10 + d)
  {
  }

  /** JavaScript's `a < b` on strings: lexicographic, a proper prefix first. */
  predicate LexLess(a: string, b: string) {
    if a == [] then b != []
    else if b == [] then false
    else if a[0] != b[0] then a[0] < b[0]
    else LexLess(a[1..], b[1..])
  }

  /** JavaScript's `a <= b` on strings. */
  predicate LexLessOrEqual(a: string, b: string) {
    !LexLess(b, a)
  }

  /** On digit strings of one length, string order is numeric order. */
  lemma {:induction false} LexOrderIsNumericOrder(a: string, b: string)
    requires |a| == |b| && AllDigits(a) && AllDigits(b)
    ensures LexLess(a, b) <==> DigitsValue(a) < DigitsValue(b)
    ensures LexLessOrEqual(a, b) <==> DigitsValue(a) <= DigitsValue(b)
  {
    if a != [] {
      DigitsValueFront(a);
      DigitsValueFront(b);
      DigitsValueBound(a[1..]);
      DigitsValueBound(b[1..]);
      LexOrderIsNumericOrder(a[1..], b[1..]);
      var da, db := DigitValue(a[0]), DigitValue(b[0]);
      assert a[0] < b[0] <==> da < db;
      assert a[0] == b[0] <==> da == db;
      var p := Pow10(|a| - 1);
      PositionalLess(da, db, DigitsValue(a[1..]), DigitsValue(b[1..]), p);
      PositionalLess(db, da, DigitsValue(b[1..]), DigitsValue(a[1..]), p);
    }
  }

  /** Comparing two numbers by their leading digit first. */
  lemma PositionalLess(x: nat, y: nat, u: nat, v: nat, p: nat)
    requires u < p && v < p
    ensures x * p + u < y * p + v <==> x < y || (x == y && u < v)
  {
    if x < y {
      calc {
        x * p + u;
      <  x * p + p;
      == (x + 1) * p;
      <= { MulMonotone(x + 1, y, p); }
         y * p;
      <= y * p + v;
      }
    } else if y < x {
      calc {
        y * p + v;
      <  y * p + p;
      == (y + 1) * p;
      <= { MulMonotone(y + 1, x, p); }
         x * p;
      <= x * p + u;
      }
    }
  }

  lemma MulMonotone(x: nat, y: nat, p: nat)
    requires x <= y
    ensures x * p <= y * p
  {
  }
}
