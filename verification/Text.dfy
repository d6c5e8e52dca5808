/** Strings as the gateway's dependencies treat them: compared byte by byte, and
    numbers printed in decimal. */
module Text {

  /** Byte order, a proper prefix coming first: memcmp and then length, as SQLite
      compares TEXT under its default collation. */
  predicate Less(a: string, b: string) {
    b != [] && (a == [] || a[0] < b[0] || (a[0] == b[0] && Less(a[1..], b[1..])))
  }

  predicate AtMost(a: string, b: string) {
    a == b || Less(a, b)
  }

  /** One text is less than another exactly when, at the first place where they differ, it
      has the smaller byte or has ended. */
  lemma {:induction false} LessExactly(a: string, b: string)
    ensures Less(a, b) <==> exists k :: LessAt(a, b, k)
  {
    if b == [] {
    } else if a == [] {
      assert LessAt(a, b, 0);
    } else if a[0] != b[0] {
      assert a[0] < b[0] ==> LessAt(a, b, 0);
      assert forall k :: LessAt(a, b, k) && k > 0 ==> a[..k][0] == b[..k][0];
    } else {
      LessExactly(a[1..], b[1..]);
      forall k: nat ensures LessAt(a[1..], b[1..], k) <==> LessAt(a, b, k + 1) { LessAtNext(a, b, k); }
      if k :| LessAt(a, b, k) { assert LessAt(a[1..], b[1..], k - 1); }
      if k :| LessAt(a[1..], b[1..], k) { assert LessAt(a, b, k + 1); }
    }
  }

  predicate LessAt(a: string, b: string, k: int) {
    0 <= k <= |a| && k < |b| && a[..k] == b[..k] && (k == |a| || a[k] < b[k])
  }

  lemma LessAtNext(a: string, b: string, k: nat)
    requires a != [] && b != [] && a[0] == b[0]
    ensures LessAt(a[1..], b[1..], k) <==> LessAt(a, b, k + 1)
  {
    if k + 1 <= |a| && k + 1 <= |b| {
      assert a[..k + 1] == [a[0]] + a[1..][..k] && b[..k + 1] == [b[0]] + b[1..][..k];
    }
  }

  /** Two texts that begin with fields of one width compare by those fields first. */
  lemma {:induction false} LessByField(a: string, b: string, x: string, y: string)
    requires |a| == |b|
    ensures Less(a + x, b + y) <==> Less(a, b) || (a == b && Less(x, y))
  {
    if a == [] {
      assert a + x == x && b + y == y;
    } else {
      assert (a + x)[1..] == a[1..] + x && (b + y)[1..] == b[1..] + y;
      LessByField(a[1..], b[1..], x, y);
    }
  }

  /** The same with a separator after the field, and for equality. */
  lemma FieldThenRest(a: string, b: string, separator: char, x: string, y: string)
    requires |a| == |b|
    ensures Less(a + ([separator] + x), b + ([separator] + y)) <==> Less(a, b) || (a == b && Less(x, y))
    ensures a + ([separator] + x) == b + ([separator] + y) <==> a == b && x == y
  {
    var v, w := [separator] + x, [separator] + y;
    LessByField(a, b, v, w);
    assert v[1..] == x && w[1..] == y;
    if a + v == b + w {
      assert a == (a + v)[..|a|] && b == (b + w)[..|b|];
      assert v == (a + v)[|a|..] && w == (b + w)[|b|..];
    }
  }

  lemma {:induction false} LessIrreflexive(a: string)
    ensures !Less(a, a)
  {
    if a != [] { LessIrreflexive(a[1..]); }
  }

  lemma {:induction false} LessAsymmetric(a: string, b: string)
    requires Less(a, b)
    ensures !Less(b, a)
  {
    if a != [] && a[0] == b[0] { LessAsymmetric(a[1..], b[1..]); }
  }

  lemma {:induction false} LessTransitive(a: string, b: string, c: string)
    requires Less(a, b) && Less(b, c)
    ensures Less(a, c)
  {
    if a != [] && a[0] == b[0] && b[0] == c[0] { LessTransitive(a[1..], b[1..], c[1..]); }
  }

  lemma AtMostTransitive(a: string, b: string, c: string)
    requires AtMost(a, b) && AtMost(b, c)
    ensures AtMost(a, c)
  {
    if Less(a, b) && Less(b, c) { LessTransitive(a, b, c); }
  }

  lemma AtMostIsNotMore(a: string, b: string)
    requires Less(a, b)
    ensures !AtMost(b, a)
  {
    LessAsymmetric(a, b);
    LessIrreflexive(a);
  }

  lemma LessByHead(a: string, b: string)
    requires a != [] && b != [] && a[0] != b[0]
    ensures Less(a, b) <==> a[0] < b[0]
  {
  }

  function Digit(n: nat): char
    requires n < 10
  {
    '0' + n as char
  }

  /** n in w decimal digits, zeros in front. */
  function Pad(n: nat, w: nat): (s: string)
    ensures |s| == w
    decreases n, w
  {
    if w == 0 then "" else Pad(n / 10, w - 1) + [Digit(n % 10)]
  }

  predicate IsDigit(c: char) {
    '0' <= c <= '9'
  }

  /** The number some digits spell. */
  function Value(digits: string): nat
    requires forall k :: 0 <= k < |digits| ==> IsDigit(digits[k])
  {
    if digits == [] then 0
    else
      var last := |digits| - 1;
      assert IsDigit(digits[last]);
      var d: int := digits[last] as int - '0' as int;
      10 * Value(digits[..last]) + d
  }

  /** Digits are read in base ten, the last one counting ones. */
  lemma ValueInBaseTen(digits: string, c: char)
    requires (forall k :: 0 <= k < |digits| ==> IsDigit(digits[k])) && '0' <= c <= '9'
    ensures Value("") == 0 && Value(digits + [c]) == 10 * Value(digits) + (c as int - 48)
  {
    assert (digits + [c])[..|digits|] == digits;
  }

  function Pow10(w: nat): (p: nat)
    ensures p >= 1
  {
    if w == 0 then 1 else 10 * Pow10(w - 1)
  }

  /** Among numbers that fit the width, padded text order is number order. */
  lemma {:induction false} PadMonotone(m: nat, n: nat, w: nat)
    requires m < Pow10(w) && n < Pow10(w)
    ensures Less(Pad(m, w), Pad(n, w)) <==> m < n
    ensures Pad(m, w) == Pad(n, w) <==> m == n
    decreases w
  {
    if w > 0 {
      PadMonotone(m / 10, n / 10, w - 1);
      LessByField(Pad(m / 10, w - 1), Pad(n / 10, w - 1), [Digit(m % 10)], [Digit(n % 10)]);
      var a, b := Pad(m, w), Pad(n, w);
      assert a[..w - 1] == Pad(m / 10, w - 1) && a[w - 1] == Digit(m % 10);
      assert b[..w - 1] == Pad(n / 10, w - 1) && b[w - 1] == Digit(n % 10);
    }
  }

  /** n in decimal with no leading zeros. */
  function Decimal(n: nat): (s: string)
    ensures s != [] && forall k :: 0 <= k < |s| ==> '0' <= s[k] <= '9'
  {
    if n < 10 then [Digit(n)] else Decimal(n / 10) + [Digit(n % 10)]
  }

  /** Padding is undone by reading the digits. */
  lemma {:induction false} PadValue(n: nat, w: nat)
    requires n < Pow10(w)
    ensures (forall k :: 0 <= k < w ==> IsDigit(Pad(n, w)[k])) && Value(Pad(n, w)) == n
    decreases w
  {
    if w > 0 {
      PadValue(n / 10, w - 1);
      assert Pad(n, w)[..w - 1] == Pad(n / 10, w - 1);
    }
  }

  lemma {:induction false} DecimalValue(n: nat)
    ensures Value(Decimal(n)) == n
  {
    if n >= 10 {
      DecimalValue(n / 10);
      var s := Decimal(n);
      assert s[..|s| - 1] == Decimal(n / 10);
    } else {
      assert Decimal(n)[..0] == [];
    }
  }

  lemma {:induction false} DecimalLeads(n: nat)
    requires n > 0
    ensures Decimal(n)[0] != '0'
  {
    if n >= 10 {
      DecimalLeads(n / 10);
      assert Decimal(n)[0] == Decimal(n / 10)[0];
    }
  }
}
