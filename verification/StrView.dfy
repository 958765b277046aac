/** String views (strview.c): trimming, comparison, number parsing, copying out. */
module StrView {
  import opened Types
  import opened Helpers

  predicate IsEmptyView(v: View) {
    v.Invalid? || v.start >= v.end
  }

  /** The bytes a view denotes. */
  function Text(s: string, v: View): string {
    if IsEmptyView(v) || v.end > |s| then "" else s[v.start..v.end]
  }

  // ---------------------------------------------------------------- trim_whitespace

  predicate AllSpaces(s: string) {
    forall c | c in s :: c == ' '
  }

  function Spaces(n: nat): (s: string)
    ensures |s| == n && AllSpaces(s)
  {
    seq(n, _ => ' ')
  }

  function TrimLeft(s: string): string {
    if s != "" && s[0] == ' ' then TrimLeft(s[1..]) else s
  }

  function TrimRight(s: string): string {
    if s != "" && s[|s| - 1] == ' ' then TrimRight(s[..|s| - 1]) else s
  }

  function Trim(s: string): string {
    TrimRight(TrimLeft(s))
  }

  lemma {:induction false} TrimLeftSpaces(a: string, s: string)
    requires AllSpaces(a) && (s == "" || s[0] != ' ')
    ensures TrimLeft(a + s) == s
  {
    if a == "" {
      assert a + s == s;
    } else {
      assert a[0] in a && forall c | c in a[1..] :: c in a;
      assert (a + s)[1..] == a[1..] + s;
      TrimLeftSpaces(a[1..], s);
    }
  }

  lemma {:induction false} TrimRightSpaces(s: string, b: string)
    requires AllSpaces(b) && (s == "" || s[|s| - 1] != ' ')
    ensures TrimRight(s + b) == s
  {
    if b == "" {
      assert s + b == s;
    } else {
      var rest := b[..|b| - 1];
      forall c | c in rest ensures c in b {
        var k :| 0 <= k < |rest| && rest[k] == c;
        assert b[k] == c;
      }
      assert b[|b| - 1] in b;
      assert (s + b)[..|s + b| - 1] == s + rest;
      TrimRightSpaces(s, rest);
    }
  }

  /** Trim strips the spaces on both sides, and nothing else. */
  lemma TrimIs(a: string, s: string, b: string)
    requires AllSpaces(a) && AllSpaces(b)
    requires s != "" ==> s[0] != ' ' && s[|s| - 1] != ' '
    ensures Trim(a + s + b) == s
  {
    if s == "" {
      assert a + s + b == a + b;
      forall c | c in a + b ensures c == ' ' {
        assert c in a || c in b;
      }
      TrimLeftSpaces(a + b, "");
      assert (a + b) + "" == a + b;
    } else {
      assert a + s + b == a + (s + b);
      TrimLeftSpaces(a, s + b);
      TrimRightSpaces(s, b);
    }
  }

  /** Every string is spaces, a trimmed core, spaces. */
  lemma TrimSplit(s: string) returns (a: string, b: string)
    ensures AllSpaces(a) && AllSpaces(b) && s == a + Trim(s) + b
    ensures Trim(s) != "" ==> Trim(s)[0] != ' ' && Trim(s)[|Trim(s)| - 1] != ' '
  {
    a := SplitLeft(s);
    b := SplitRight(TrimLeft(s));
    var t := Trim(s);
    assert s == a + (t + b);
    assert t != "" ==> t[0] == TrimLeft(s)[0];
  }

  lemma {:induction false} SplitLeft(s: string) returns (a: string)
    ensures AllSpaces(a) && s == a + TrimLeft(s)
    ensures TrimLeft(s) != "" ==> TrimLeft(s)[0] != ' '
  {
    if s != "" && s[0] == ' ' {
      var b := SplitLeft(s[1..]);
      a := [' '] + b;
    } else {
      a := "";
    }
  }

  lemma {:induction false} SplitRight(s: string) returns (b: string)
    ensures AllSpaces(b) && s == TrimRight(s) + b
    ensures TrimRight(s) != "" ==> TrimRight(s)[|TrimRight(s)| - 1] != ' '
  {
    if s != "" && s[|s| - 1] == ' ' {
      var a := SplitRight(s[..|s| - 1]);
      b := a + [' '];
      assert s == s[..|s| - 1] + [' '];
    } else {
      b := "";
    }
  }

  /** Trims a view.  The loops stop on a non-space byte, not at the ends of the view, so a
      non-empty view needs one such byte at or after its start and one before its end. */
  method TrimWhitespace(buf: array<char>, v: View, ghost lo: nat, ghost hi: nat) returns (r: View)
    requires v.View? && v.end <= buf.Length
    requires v.start < v.end ==> lo < v.end && buf[lo] != ' ' && v.start <= hi < buf.Length && buf[hi] != ' '
    ensures r.View? && r.end <= buf.Length
    ensures Text(buf[..], r) == Trim(Text(buf[..], v))
    ensures v.start >= v.end ==> r == v
    ensures v.start < v.end ==> v.start <= r.start <= r.end && r.start <= hi
    ensures r.end <= v.end || r.end <= hi
  {
    if IsEmptyView(v) {
      return v;
    }
    var s, e := v.start, v.end;
    while buf[s] == ' '
      invariant v.start <= s <= hi
      invariant forall k | v.start <= k < s :: buf[k] == ' '
      decreases hi - s
    {
      s := s + 1;
    }
    while buf[e - 1] == ' '
      invariant lo < e <= v.end
      invariant forall k | e <= k < v.end :: buf[k] == ' '
      decreases e
    {
      e := e - 1;
    }
    ghost var text := buf[v.start..v.end];
    if e < s {
      e := s;
    }
    if s < e {
      assert text == buf[v.start..s] + buf[s..e] + buf[e..v.end];
      TrimIs(buf[v.start..s], buf[s..e], buf[e..v.end]);
    } else {
      assert forall k | v.start <= k < v.end :: buf[k] == ' ';
      TrimIs(text, "", "");
      assert text + "" + "" == text;
    }
    return View(s, e);
  }

  // ---------------------------------------------------------------- compare_vs

  /** The sign of the first difference, a missing byte counting as smallest.  Bytes are compared
      as unsigned ones, where a C compiler may take them as signed; only the test for 0 is used. */
  function Compare(a: string, b: string): int {
    if a == "" then (if b == "" then 0 else -1)
    else if b == "" then 1
    else if a[0] == b[0] then Compare(a[1..], b[1..])
    else if a[0] > b[0] then 1 else -1
  }

  lemma {:induction false} CompareEqual(a: string, b: string)
    ensures Compare(a, b) == 0 <==> a == b
  {
    if a != "" && b != "" && a[0] == b[0] {
      CompareEqual(a[1..], b[1..]);
      assert a == [a[0]] + a[1..] && b == [b[0]] + b[1..];
    }
  }

  lemma {:induction false} CompareAntisymmetric(a: string, b: string)
    ensures Compare(a, b) == -Compare(b, a)
  {
    if a != "" && b != "" && a[0] == b[0] {
      CompareAntisymmetric(a[1..], b[1..]);
    }
  }

  /** The first difference decides, and a proper prefix comes first. */
  lemma {:induction false} CompareOrders(a: string, b: string, k: nat)
    requires k <= |a| && k <= |b| && a[..k] == b[..k]
    ensures k == |a| < |b| ==> Compare(a, b) == -1
    ensures k < |a| && k < |b| && a[k] < b[k] ==> Compare(a, b) == -1
  {
    if k > 0 {
      assert a[0] == a[..k][0] == b[..k][0] == b[0];
      assert a[1..][..k - 1] == a[..k][1..] == b[..k][1..] == b[1..][..k - 1];
      CompareOrders(a[1..], b[1..], k - 1);
    }
  }

  method CompareVs(buf: array<char>, a: View, b: string) returns (r: int)
    requires a.View? && a.start <= a.end <= buf.Length
    ensures r == Compare(Text(buf[..], a), b)
    ensures r == 0 <==> Text(buf[..], a) == b
  {
    CompareEqual(Text(buf[..], a), b);
    var i, j := a.start, 0;
    while i != a.end && j != |b|
      invariant a.start <= i <= a.end && 0 <= j <= |b|
      invariant Compare(Text(buf[..], a), b) == Compare(buf[i..a.end], b[j..])
      decreases a.end - i
    {
      if buf[i] != b[j] {
        return if buf[i] > b[j] then 1 else -1;
      }
      assert buf[i..a.end][1..] == buf[i + 1..a.end];
      i, j := i + 1, j + 1;
    }
    return if i == a.end then (if j == |b| then 0 else -1) else 1;
  }

  // ---------------------------------------------------------------- parse_to_int

  /** A value kept in a 64-bit two's complement word. */
  function Wrap64(x: int): (r: int)
    ensures -TWO_63 <= r < TWO_63
  {
    (x + TWO_63) % TWO_64 - TWO_63
  }

  lemma WrapExact(x: int)
    requires -TWO_63 <= x < TWO_63
    ensures Wrap64(x) == x
  {
  }

  lemma WrapShift(x: int, q: int)
    ensures Wrap64(x + q * TWO_64) == Wrap64(x)
  {
  }

  lemma WrapOf(x: int) returns (q: int)
    ensures Wrap64(x) == x + q * TWO_64
  {
    q := -((x + TWO_63) / TWO_64);
  }

  /** Wrapping operands first does not change a wrapped sum of products. */
  lemma WrapMulAdd(a: int, b: int, v: int)
    ensures Wrap64(Wrap64(a) + Wrap64(Wrap64(b) * v)) == Wrap64(a + b * v)
  {
    var p := WrapOf(a);
    var q := WrapOf(b);
    var t := WrapOf(Wrap64(b) * v);
    assert Wrap64(b) * v == b * v + (q * v) * TWO_64 by {
      MulShift(b, q, v, TWO_64);
    }
    assert Wrap64(a) + Wrap64(Wrap64(b) * v) == (a + b * v) + (p + q * v + t) * TWO_64 by {
      Regroup(p, q * v, t, TWO_64);
    }
    WrapShift(a + b * v, p + q * v + t);
  }

  lemma MulShift(b: int, q: int, v: int, m: int)
    ensures (b + q * m) * v == b * v + (q * v) * m
  {
  }

  lemma Regroup(p: int, q: int, t: int, m: int)
    ensures (p + q + t) * m == p * m + q * m + t * m
  {
  }

  predicate AllNumeric(s: string) {
    forall c | c in s :: IsNumeric(c)
  }

  /** What parse_to_int computes from a trimmed string: -1 for anything but digits, else the
      number, wrapped to 64 bits. */
  function Number(s: string): (n: int)
    ensures n < TWO_63
  {
    if s == "" || !AllNumeric(s) then -1 else Wrap64(Value(s))
  }

  /** A leading digit is worth its power of ten. */
  lemma {:induction false} ValueCons(c: char, s: string)
    requires IsNumeric(c) && AllNumeric(s)
    ensures AllNumeric([c] + s)
    ensures Value([c] + s) == DigitValue(c) * Pow10(|s|) + Value(s)
  {
    var t := [c] + s;
    if s == "" {
      assert t[..|t| - 1] == "";
    } else {
      var u := s[..|s| - 1];
      ValueCons(c, u);
      assert t[..|t| - 1] == [c] + u;
      assert Pow10(|s|) == 10 * Pow10(|u|);
      assert DigitValue(c) * (10 * Pow10(|u|)) == 10 * (DigitValue(c) * Pow10(|u|));
    }
  }

  lemma {:induction false} ValueBound(s: string)
    requires AllNumeric(s)
    ensures Value(s) < Pow10(|s|)
  {
    if s != "" {
      ValueBound(s[..|s| - 1]);
      assert Pow10(|s|) == 10 * Pow10(|s| - 1);
      assert s[|s| - 1] in s;
    }
  }

  lemma {:induction false} Pow10Monotone(j: nat, k: nat)
    requires j <= k
    ensures Pow10(j) <= Pow10(k)
  {
    if j < k {
      Pow10Monotone(j, k - 1);
    }
  }

  lemma EighteenDigitsFit()
    ensures Pow10(18) == 1_000_000_000_000_000_000 < TWO_63
  {
    assert Pow10(3) == 1000;
    assert Pow10(6) == 1000 * Pow10(3);
    assert Pow10(9) == 1000 * Pow10(6);
    assert Pow10(12) == 1000 * Pow10(9);
    assert Pow10(15) == 1000 * Pow10(12);
    assert Pow10(18) == 1000 * Pow10(15);
  }

  /** Up to eighteen digits the parser's result is exact. */
  lemma NumberExact(s: string)
    requires s != "" && AllNumeric(s) && |s| <= 18
    ensures Number(s) == Value(s) < Pow10(18)
  {
    ValueBound(s);
    Pow10Monotone(|s|, 18);
    EighteenDigitsFit();
  }

  lemma TrimDigits(s: string)
    requires s != "" && AllNumeric(s)
    ensures Trim(s) == s
  {
    assert s[0] in s && s[|s| - 1] in s;
    TrimIs("", s, "");
    assert "" + s + "" == s;
  }

  /** Printing and parsing undo each other on every value a signed 64-bit word holds. */
  lemma PrintParse(n: nat)
    requires n < TWO_63
    ensures Number(Trim(Dec(n))) == n
  {
    var s := Dec(n);
    TrimDigits(s);
    DecValue(n);
    assert Number(s) == Wrap64(n);
  }

  /** Below 10^18 no intermediate value overflows on the way back either (see ParseToInt). */
  lemma PrintParseInRange(n: nat)
    requires n < Pow10(18)
    ensures |Trim(Dec(n))| <= 18 && InRange(Dec(n))
  {
    TrimDigits(Dec(n));
    DecLength(n, 18);
    EighteenInRange(Dec(n));
  }

  /** And in the other direction: a canonical numeral of at most eighteen digits is
      reproduced from the number parsed out of it. */
  lemma {:induction false} ParsePrint(s: string)
    requires s != "" && AllNumeric(s) && |s| <= 18 && (|s| > 1 ==> s[0] != '0')
    ensures Number(s) >= 0 && Dec(Number(s)) == s
  {
    NumberExact(s);
    ValuePrint(s);
  }

  lemma {:induction false} ValuePrint(s: string)
    requires s != "" && AllNumeric(s) && (|s| > 1 ==> s[0] != '0')
    ensures Dec(Value(s)) == s
    ensures s[0] != '0' ==> Value(s) > 0
  {
    var u, c := s[..|s| - 1], s[|s| - 1];
    assert s == u + [c] && c in s;
    if u != "" {
      ValuePrint(u);
      assert Value(s) / 10 == Value(u) && Value(s) % 10 == DigitValue(c);
    } else {
      assert Value(s) == DigitValue(c);
    }
  }

  /** The two's complement accumulator after the digits of `done` were read, least significant first. */
  predicate Accumulated(res: int, pow: int, done: string) {
    AllNumeric(done) && res == Wrap64(Value(done)) && pow == Wrap64(Pow10(|done|))
  }

  /** No value met while reading the digits of s leaves the range of a signed 64-bit word. */
  predicate InRange(s: string) {
    AllNumeric(s) && Value(s) < TWO_63 && Pow10(|s|) < TWO_63
  }

  lemma AccumulateWords(res: int, pow: int, value: int, power: int, d: int)
    requires res == Wrap64(value) && pow == Wrap64(power)
    ensures Wrap64(res + Wrap64(pow * d)) == Wrap64(value + power * d)
    ensures Wrap64(pow * 10) == Wrap64(power * 10)
  {
    WrapExact(0);
    WrapExact(Wrap64(Wrap64(power) * 10));
    hide Wrap64;
    WrapMulAdd(value, power, d);
    WrapMulAdd(0, power, 10);
  }

  lemma ValueConsFacts(c: char, done: string)
    requires IsNumeric(c) && AllNumeric(done)
    ensures AllNumeric([c] + done)
    ensures Value([c] + done) == Value(done) + Pow10(|done|) * DigitValue(c)
    ensures Pow10(|[c] + done|) == Pow10(|done|) * 10
  {
    ValueCons(c, done);
  }

  lemma AccumulateDigit(res: int, pow: int, c: char, done: string)
    requires IsNumeric(c) && Accumulated(res, pow, done)
    ensures Accumulated(Wrap64(res + Wrap64(pow * DigitValue(c))), Wrap64(pow * 10), [c] + done)
  {
    hide Wrap64, Value, Pow10, AllNumeric, DigitValue;
    ValueConsFacts(c, done);
    AccumulateWords(res, pow, Value(done), Pow10(|done|), DigitValue(c));
  }

  lemma AccumulatedNumber(res: int, pow: int, done: string)
    ensures Accumulated(0, 1, "")
    ensures Accumulated(res, pow, done) && done != "" ==> res == Number(done)
    ensures Accumulated(res, pow, done) ==> AllNumeric(done)
  {
  }

  lemma EighteenInRange(s: string)
    requires AllNumeric(s) && |s| <= 18
    ensures InRange(s)
  {
    ValueBound(s);
    Pow10Monotone(|s|, 18);
    EighteenDigitsFit();
  }

  /** Parses the trimmed view from its last byte backwards.  With at most eighteen digits no
      intermediate value leaves the range of a signed 64-bit word. */
  method ParseToInt(buf: array<char>, v: View, ghost lo: nat, ghost hi: nat) returns (r: int, ghost overflowed: bool)
    requires v.View? && v.end <= buf.Length
    requires v.start < v.end ==> lo < v.end && buf[lo] != ' ' && v.start <= hi < buf.Length && buf[hi] != ' '
    ensures r == Number(Trim(Text(buf[..], v))) < TWO_63
    ensures |Trim(Text(buf[..], v))| <= 18 ==> !overflowed
  {
    hide Trim, Accumulated, InRange;
    overflowed := false;
    var number := TrimWhitespace(buf, v, lo, hi);
    if IsEmptyView(number) {
      return -1, false;
    }
    hide Wrap64, Value, Pow10, Text;
    ghost var text := buf[number.start..number.end];
    assert Text(buf[..], number) == text by { TextOf(buf, number); }
    AccumulatedNumber(0, 1, "");
    var pow, res := 1, 0;
    var end := number.end;
    assert buf[end..number.end] == "";
    while end > number.start
      invariant number.start <= end <= number.end
      invariant Accumulated(res, pow, buf[end..number.end])
      invariant number.end - end <= 18 ==> !overflowed
    {
      var c := buf[end - 1];
      ghost var done := buf[end..number.end];
      AccumulatedNumber(res, pow, done);
      assert c == text[end - 1 - number.start];
      if !IsNumeric(c) {
        return -1, overflowed;
      }
      AccumulateDigit(res, pow, c, done);
      assert buf[end - 1..number.end] == [c] + done;
      if |done| < 18 {
        EighteenInRange([c] + done);
      }
      overflowed := overflowed || !InRange([c] + done);
      res := Wrap64(res + Wrap64(pow * DigitValue(c)));
      pow := Wrap64(pow * 10);
      end := end - 1;
    }
    AccumulatedNumber(res, pow, text);
    return res, overflowed;
  }

  lemma TextOf(buf: array<char>, v: View)
    requires v.View? && v.start < v.end <= buf.Length
    ensures Text(buf[..], v) == buf[v.start..v.end]
  {
  }

  // ---------------------------------------------------------------- fill_str

  /** Copies a view out as a NUL-terminated string, unless it does not fit. */
  method FillStr(buf: array<char>, a: View, dst: array<char>, maxLen: nat) returns (ok: bool)
    requires a.View? && a.end <= buf.Length && buf != dst && maxLen <= dst.Length
    requires a.start <= a.end
    modifies dst
    ensures ok <==> |Text(buf[..], a)| < maxLen
    ensures var n := |Text(buf[..], a)|;
            ok ==> dst[..n] == Text(buf[..], a) && dst[n] == '\0' && dst[n + 1..] == old(dst[n + 1..])
    ensures !ok ==> dst[..] == old(dst[..])
  {
    if a.end - a.start >= maxLen {
      return false;
    }
    var i, j := a.start, 0;
    ghost var before := dst[..];
    while i < a.end
      invariant a.start <= i <= a.end && j == i - a.start
      invariant dst[..j] == buf[a.start..i]
      invariant dst[j..] == before[j..]
    {
      ghost var done := dst[..j];
      dst[j] := buf[i];
      assert dst[..j + 1] == done + [buf[i]] == buf[a.start..i + 1];
      i, j := i + 1, j + 1;
    }
    dst[j] := '\0';
    assert dst[j + 1..] == before[j + 1..];
    return true;
  }
}
