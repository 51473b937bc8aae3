/** Options, decimal numerals, splitting, and code-unit string order. */
module Text {

  datatype Option<+T> = None | Some(value: T)

  predicate IsDigit(c: char) { '0' <= c <= '9' }

  predicate AllDigits(s: string) { forall i :: 0 <= i < |s| ==> IsDigit(s[i]) }

  function DigitValue(c: char): (v: int)
    requires IsDigit(c)
    ensures 0 <= v <= 9
  { (c as int) - ('0' as int) }

  function DigitChar(v: int): (c: char)
    requires 0 <= v <= 9
    ensures IsDigit(c) && DigitValue(c) == v
  { (v + ('0' as int)) as char }

  /** The number a string of digits denotes; the empty string denotes 0. */
  function DigitsValue(s: string): (v: nat)
    requires AllDigits(s)
  {
    if s == "" then 0 else DigitsValue(s[..|s| - 1]) * 10 + DigitValue(s[|s| - 1])
  }

  /** Plain decimal numeral, no leading zeros: `String(n)` for a non-negative integer. */
  function Decimal(n: nat): (s: string)
    ensures AllDigits(s) && |s| > 0
  {
    if n < 10 then [DigitChar(n)] else Decimal(n / 10) + [DigitChar(n % 10)]
  }

  lemma {:induction false} DecimalValue(n: nat)
    ensures DigitsValue(Decimal(n)) == n
  {
    var s := Decimal(n);
    if n < 10 {
      assert s[..|s| - 1] == "";
    } else {
      DecimalValue(n / 10);
      assert s[..|s| - 1] == Decimal(n / 10);
    }
  }

  /** Distinct numbers have distinct numerals. */
  lemma DecimalInjective(a: nat, b: nat)
    requires Decimal(a) == Decimal(b)
    ensures a == b
  {
    DecimalValue(a);
    DecimalValue(b);
  }

  /** `n` in exactly `width` digits, high digits dropped: `padStart(width, "0")` when n fits. */
  function Padded(n: nat, width: nat): (s: string)
    ensures AllDigits(s) && |s| == width
    decreases width
  {
    if width == 0 then "" else Padded(n / 10, width - 1) + [DigitChar(n % 10)]
  }

  function Pow10(w: nat): (p: nat)
    ensures p >= 1
  { if w == 0 then 1 else 10 * Pow10(w - 1) }

  lemma {:induction false} PaddedValue(n: nat, width: nat)
    requires n < Pow10(width)
    ensures DigitsValue(Padded(n, width)) == n
    decreases width
  {
    if width > 0 {
      PaddedValue(n / 10, width - 1);
      var s := Padded(n, width);
      assert s[..|s| - 1] == Padded(n / 10, width - 1);
    }
  }

  /** Code-unit order on strings, as `<` compares them. */
  predicate Less(a: string, b: string) {
    |b| > 0 && (|a| == 0 || a[0] < b[0] || (a[0] == b[0] && Less(a[1..], b[1..])))
  }

  lemma {:induction false} LessTotal(a: string, b: string)
    ensures Less(a, b) || a == b || Less(b, a)
    ensures !(Less(a, b) && Less(b, a)) && (a == b ==> !Less(a, b))
  {
    if |a| > 0 && |b| > 0 && a[0] == b[0] {
      LessTotal(a[1..], b[1..]);
      assert a == [a[0]] + a[1..] && b == [b[0]] + b[1..];
    }
  }

  lemma {:induction false} LessTransitive(a: string, b: string, c: string)
    requires Less(a, b) && Less(b, c)
    ensures Less(a, c)
  {
    if |a| > 0 && a[0] == b[0] == c[0] { LessTransitive(a[1..], b[1..], c[1..]); }
  }

  /** A shared head does not affect the order. */
  lemma {:induction false} LessPrefix(p: string, a: string, b: string)
    ensures Less(p + a, p + b) == Less(a, b)
  {
    if |p| == 0 {
      assert p + a == a && p + b == b;
    } else {
      LessPrefix(p[1..], a, b);
      assert (p + a)[1..] == p[1..] + a && (p + b)[1..] == p[1..] + b;
    }
  }

  /** Different heads of equal length decide the order, whatever follows. */
  lemma {:induction false} LessHead(p: string, q: string, a: string, b: string)
    requires |p| == |q| && p != q
    ensures Less(p + a, q + b) == Less(p, q)
  {
    assert |p| > 0;
    assert p == [p[0]] + p[1..] && q == [q[0]] + q[1..];
    if p[0] == q[0] {
      LessHead(p[1..], q[1..], a, b);
      assert (p + a)[1..] == p[1..] + a && (q + b)[1..] == q[1..] + b;
    }
  }

  lemma DigitOrder(x: int, y: int)
    requires 0 <= x <= 9 && 0 <= y <= 9
    ensures Less([DigitChar(x)], [DigitChar(y)]) <==> x < y
  {
    assert !Less([DigitChar(x)][1..], [DigitChar(y)][1..]);
    assert (DigitChar(x) < DigitChar(y)) == (DigitChar(x) as int < DigitChar(y) as int);
  }

  lemma DigitApart(n: nat, width: nat)
    requires width > 0 && n < Pow10(width)
    ensures n / 10 < Pow10(width - 1) && 0 <= n % 10 < 10 && n == 10 * (n / 10) + n % 10
    ensures Padded(n, width) == Padded(n / 10, width - 1) + [DigitChar(n % 10)]
  {
  }

  lemma TensFirst(a: nat, b: nat, a': nat, b': nat, x: nat, y: nat)
    requires a == 10 * a' + x && b == 10 * b' + y && x < 10 && y < 10
    ensures a < b <==> a' < b' || (a' == b' && x < y)
  {
  }

  /** On numerals of one width, string order is numeric order. */
  lemma {:induction false} PaddedOrder(a: nat, b: nat, width: nat)
    requires a < Pow10(width) && b < Pow10(width)
    ensures Less(Padded(a, width), Padded(b, width)) <==> a < b
    decreases width
  {
    if width > 0 {
      DigitApart(a, width);
      DigitApart(b, width);
      TensFirst(a, b, a / 10, b / 10, a % 10, b % 10);
      PaddedOrder(a / 10, b / 10, width - 1);
      PaddedLess(a / 10, b / 10, a % 10, b % 10, width - 1);
    }
  }

  lemma PaddedLess(a: nat, b: nat, x: nat, y: nat, width: nat)
    requires a < Pow10(width) && b < Pow10(width) && x < 10 && y < 10
    ensures Less(Padded(a, width) + [DigitChar(x)], Padded(b, width) + [DigitChar(y)])
        <==> Less(Padded(a, width), Padded(b, width)) || (a == b && x < y)
  {
    var (p, q) := (Padded(a, width), Padded(b, width));
    if p == q {
      PaddedValue(a, width);
      PaddedValue(b, width);
      LessPrefix(p, [DigitChar(x)], [DigitChar(y)]);
      DigitOrder(x, y);
      LessTotal(p, q);
    } else {
      LessHead(p, q, [DigitChar(x)], [DigitChar(y)]);
    }
  }

  /** `s.split(c)`: the pieces between occurrences of c; never empty. */
  function Split(s: string, c: char): (r: seq<string>)
    ensures |r| >= 1
  {
    if s == "" then [""]
    else
      var rest := Split(s[1..], c);
      if s[0] == c then [""] + rest else [[s[0]] + rest[0]] + rest[1..]
  }

  /** A piece without the separator is split off whole. */
  lemma {:induction false} SplitStep(piece: string, c: char, tail: string)
    requires c !in piece
    ensures Split(piece + [c] + tail, c) == [piece] + Split(tail, c)
  {
    var s := piece + [c] + tail;
    if piece == "" {
      assert s[1..] == tail;
    } else {
      SplitStep(piece[1..], c, tail);
      assert s[1..] == piece[1..] + [c] + tail;
      assert [piece[0]] + piece[1..] == piece;
    }
  }

  lemma {:induction false} SplitLast(piece: string, c: char)
    requires c !in piece
    ensures Split(piece, c) == [piece]
  {
    if piece != "" {
      SplitLast(piece[1..], c);
      assert [piece[0]] + piece[1..] == piece;
    }
  }

  /** `split_once(c)`: what precedes and follows the first c, if there is one. */
  function SplitOnce(s: string, c: char): (r: Option<(string, string)>)
  {
    if s == "" then None
    else if s[0] == c then Some(("", s[1..]))
    else match SplitOnce(s[1..], c)
      case None => None
      case Some((a, b)) => Some(([s[0]] + a, b))
  }

  lemma {:induction false} SplitOnceAt(piece: string, c: char, tail: string)
    requires c !in piece
    ensures SplitOnce(piece + [c] + tail, c) == Some((piece, tail))
  {
    var s := piece + [c] + tail;
    if piece == "" {
      assert s[1..] == tail;
    } else {
      SplitOnceAt(piece[1..], c, tail);
      assert s[1..] == piece[1..] + [c] + tail;
      assert [piece[0]] + piece[1..] == piece;
    }
  }

  /** What follows the last c is determined. */
  lemma LastPiece(a: string, b: string, x: string, y: string, c: char)
    requires c !in x && c !in y && a + [c] + x == b + [c] + y
    ensures a == b && x == y
  {
    NoLonger(a, b, x, y, c);
    NoLonger(b, a, y, x, c);
    assert a == (a + [c] + x)[..|a|] && b == (b + [c] + y)[..|b|];
    assert x == (a + [c] + x)[|a| + 1..] && y == (b + [c] + y)[|b| + 1..];
  }

  lemma NoLonger(a: string, b: string, x: string, y: string, c: char)
    requires c !in x && a + [c] + x == b + [c] + y
    ensures |b| <= |a|
  {
    assert (b + [c] + y)[|b|] == c;
    assert forall k :: |a| < k < |a + [c] + x| ==> (a + [c] + x)[k] == x[k - |a| - 1];
  }

  lemma {:induction false} SplitOnceNone(s: string, c: char)
    requires c !in s
    ensures SplitOnce(s, c) == None
  {
    if s != "" { SplitOnceNone(s[1..], c); }
  }

  predicate IsSpace(c: char) {
    c == ' ' || c == '\t' || c == '\n' || c == '\r' || c == '\U{0B}' || c == '\U{0C}' || c == '\U{A0}'
  }

  function TrimStart(s: string): string {
    if s != "" && IsSpace(s[0]) then TrimStart(s[1..]) else s
  }

  function TrimEnd(s: string): string {
    if s != "" && IsSpace(s[|s| - 1]) then TrimEnd(s[..|s| - 1]) else s
  }

  function Trim(s: string): string { TrimEnd(TrimStart(s)) }
}
