/** The byte scanners and the decimal printer of helpers.c. */
module Helpers {
  import opened Types

  predicate IsAlpha(c: char) {
    'a' <= c <= 'z' || 'A' <= c <= 'Z'
  }

  predicate IsNumeric(c: char) {
    '0' <= c <= '9'
  }

  function DigitValue(c: char): nat
    requires IsNumeric(c)
  {
    c as int - '0' as int
  }

  // ---------------------------------------------------------------- find_delim

  /** The delimiter automaton, run over s[i..e] with the first k bytes of `delim`
      already matched: the position just after the delimiter, or None. */
  function ScanAt(s: string, i: nat, e: nat, delim: string, k: nat): (r: Option<nat>)
    requires i <= e <= |s| && k < |delim|
    ensures r.Some? ==> i + (|delim| - k) <= r.value <= e
    decreases e - i
  {
    if i == e then None
    else if s[i] == delim[k] then
      if k + 1 == |delim| then Some(i + 1) else ScanAt(s, i + 1, e, delim, k + 1)
    else ScanAt(s, i + 1, e, delim, 0)
  }

  method FindDelim(buf: array<char>, start: nat, end: nat, delim: string) returns (r: Option<nat>)
    requires start <= end <= buf.Length && delim != ""
    ensures r == ScanAt(buf[..], start, end, delim, 0)
  {
    var i, k := start, 0;
    while i != end
      invariant start <= i <= end && k < |delim|
      invariant ScanAt(buf[..], start, end, delim, 0) == ScanAt(buf[..], i, end, delim, k)
    {
      i := i + 1;
      if buf[i - 1] == delim[k] {
        k := k + 1;
        if k == |delim| {
          return Some(i);
        }
      } else {
        k := 0;
      }
    }
    return None;
  }

  /** A result on a prefix is unchanged by appending bytes. */
  lemma {:induction false} ScanExtends(s: string, t: string, i: nat, e: nat, f: nat, delim: string, k: nat)
    requires i <= e <= |s| && e <= f <= |t| && k < |delim|
    requires s[i..e] == t[i..e]
    requires ScanAt(s, i, e, delim, k).Some?
    ensures ScanAt(t, i, f, delim, k) == ScanAt(s, i, e, delim, k)
    decreases e - i
  {
    if i < e {
      assert s[i] == s[i..e][0] == t[i..e][0] == t[i];
      assert s[i + 1..e] == s[i..e][1..] == t[i..e][1..] == t[i + 1..e];
      if s[i] == delim[k] {
        if k + 1 < |delim| {
          ScanExtends(s, t, i + 1, e, f, delim, k + 1);
        }
      } else {
        ScanExtends(s, t, i + 1, e, f, delim, 0);
      }
    }
  }

  /** Where a prefix holds no delimiter, one that appended bytes complete ends behind the prefix. */
  lemma {:induction false} ScanBeyond(s: string, t: string, i: nat, e: nat, f: nat, delim: string, k: nat)
    requires i <= e <= |s| && e <= f <= |t| && k < |delim|
    requires s[i..e] == t[i..e]
    requires ScanAt(s, i, e, delim, k).None?
    ensures ScanAt(t, i, f, delim, k).Some? ==> ScanAt(t, i, f, delim, k).value > e
    decreases e - i
  {
    if i < e {
      assert s[i] == s[i..e][0] == t[i..e][0] == t[i];
      assert s[i + 1..e] == s[i..e][1..] == t[i..e][1..] == t[i + 1..e];
      ScanBeyond(s, t, i + 1, e, f, delim, if s[i] == delim[k] then k + 1 else 0);
    }
  }

  /** Only the scanned bytes matter. */
  lemma {:induction false} ScanLocal(s: string, t: string, i: nat, e: nat, delim: string, k: nat)
    requires i <= e <= |s| && e <= |t| && k < |delim|
    requires s[i..e] == t[i..e]
    ensures ScanAt(t, i, e, delim, k) == ScanAt(s, i, e, delim, k)
    decreases e - i
  {
    if i < e {
      assert s[i] == s[i..e][0] == t[i..e][0] == t[i];
      assert s[i + 1..e] == s[i..e][1..] == t[i..e][1..] == t[i + 1..e];
      ScanLocal(s, t, i + 1, e, delim, if k + 1 < |delim| then k + 1 else 0);
      ScanLocal(s, t, i + 1, e, delim, 0);
    }
  }

  /** The scan does not depend on what stands in front of the scanned bytes. */
  lemma {:induction false} ScanShift(s: string, t: string, d: nat, i: nat, e: nat, delim: string, k: nat)
    requires i <= e <= |t| && d + e <= |s| && k < |delim|
    requires s[d + i..d + e] == t[i..e]
    ensures ScanAt(s, d + i, d + e, delim, k) ==
            match ScanAt(t, i, e, delim, k) case None => None case Some(n) => Some(d + n)
    decreases e - i
  {
    if i < e {
      assert s[d + i] == s[d + i..d + e][0] == t[i..e][0] == t[i];
      assert s[d + i + 1..d + e] == s[d + i..d + e][1..] == t[i..e][1..] == t[i + 1..e];
      ScanShift(s, t, d, i + 1, e, delim, if s[d + i] == delim[k] && k + 1 < |delim| then k + 1 else 0);
    }
  }

  /** The length of the run of carriage returns that ends just before position j. */
  function CrRun(s: string, i: nat, j: nat): nat
    requires i <= j <= |s|
    decreases j
  {
    if j == i || s[j - 1] != '\r' then 0 else 1 + CrRun(s, i, j - 1)
  }

  /** Position j holds a line feed that the automaton started at i accepts. */
  predicate EndsLine(s: string, i: nat, j: nat)
    requires i <= j < |s|
  {
    s[j] == '\n' && CrRun(s, i, j) % 2 == 1
  }

  lemma {:induction false} CrlfFrom(s: string, i: nat, j: nat, e: nat)
    requires i <= j <= e <= |s|
    requires forall x | i <= x < j :: !EndsLine(s, i, x)
    ensures var r := ScanAt(s, j, e, CRLF, CrRun(s, i, j) % 2);
            match r
            case None => forall x | i <= x < e :: !EndsLine(s, i, x)
            case Some(n) =>
              i < n <= e && EndsLine(s, i, n - 1) && forall x | i <= x < n - 1 :: !EndsLine(s, i, x)
    decreases e - j
  {
    if j < e && !EndsLine(s, i, j) {
      assert CrRun(s, i, j + 1) == if s[j] == '\r' then 1 + CrRun(s, i, j) else 0;
      CrlfFrom(s, i, j + 1, e);
    }
  }

  /** find_delim with "\r\n": the end of the first '\n' preceded by an odd-length run of '\r'
      counted from the start of the scan. */
  lemma CrlfMeaning(s: string, i: nat, e: nat)
    requires i <= e <= |s|
    ensures match ScanAt(s, i, e, CRLF, 0)
            case None => forall x | i <= x < e :: !EndsLine(s, i, x)
            case Some(n) =>
              i < n <= e && EndsLine(s, i, n - 1) && forall x | i <= x < n - 1 :: !EndsLine(s, i, x)
  {
    CrlfFrom(s, i, i, e);
  }

  /** The accepted line end really is the two bytes "\r\n". */
  lemma CrlfBytes(s: string, i: nat, e: nat)
    requires i <= e <= |s|
    requires ScanAt(s, i, e, CRLF, 0).Some?
    ensures var n := ScanAt(s, i, e, CRLF, 0).value; i + 2 <= n && s[n - 2] == '\r' && s[n - 1] == '\n'
  {
    CrlfMeaning(s, i, e);
  }

  /** Equally for text that holds no carriage return: the first "\r\n" after it ends the line. */
  lemma {:induction false} ScanPlainLine(s: string, i: nat, n: nat)
    requires i <= n && n + 2 <= |s|
    requires '\r' !in s[i..n] && s[n] == '\r' && s[n + 1] == '\n'
    ensures ScanAt(s, i, |s|, CRLF, 0) == Some(n + 2)
    decreases n - i
  {
    if i < n {
      assert s[i] == s[i..n][0];
      assert s[i + 1..n] == s[i..n][1..];
      ScanPlainLine(s, i + 1, n);
    } else {
      assert ScanAt(s, i + 1, |s|, CRLF, 1) == Some(n + 2);
    }
  }

  /** The position of the first c in s, or |s| when there is none. */
  function IndexOf(s: string, c: char): (i: nat)
    ensures i <= |s|
    ensures c !in s[..i]
    ensures i < |s| ==> s[i] == c
  {
    if s == "" || s[0] == c then 0
    else
      var i := 1 + IndexOf(s[1..], c);
      assert s[..i] == [s[0]] + s[1..][..i - 1];
      i
  }

  /** find_delim with a one-byte delimiter: the end of its first occurrence. */
  lemma {:induction false} ScanByte(s: string, i: nat, e: nat, c: char)
    requires i <= e <= |s|
    ensures ScanAt(s, i, e, [c], 0) ==
            var k := IndexOf(s[i..e], c); if k == e - i then None else Some(i + k + 1)
    decreases e - i
  {
    if i < e && s[i] != c {
      assert s[i..e][1..] == s[i + 1..e];
      ScanByte(s, i + 1, e, c);
    }
  }

  // ---------------------------------------------------------------- my_utoa

  function Digit(d: nat): (c: char)
    requires d < 10
    ensures IsNumeric(c) && DigitValue(c) == d
  {
    (d + '0' as int) as char
  }

  /** The canonical decimal numeral of n. */
  function Dec(n: nat): (s: string)
    ensures s != "" && forall c | c in s :: IsNumeric(c)
  {
    if n < 10 then [Digit(n)] else Dec(n / 10) + [Digit(n % 10)]
  }

  function Pow10(k: nat): (p: nat)
    ensures p >= 1
  {
    if k == 0 then 1 else 10 * Pow10(k - 1)
  }

  /** The number that a string of digits denotes. */
  function Value(s: string): nat
    requires forall c | c in s :: IsNumeric(c)
  {
    if s == "" then 0 else Value(s[..|s| - 1]) * 10 + DigitValue(s[|s| - 1])
  }

  lemma {:induction false} DecValue(n: nat)
    ensures Value(Dec(n)) == n
  {
    var s := Dec(n);
    if n >= 10 {
      assert s[..|s| - 1] == Dec(n / 10);
      DecValue(n / 10);
    }
  }

  lemma {:induction false} DecLength(n: nat, k: nat)
    requires k >= 1 && n < Pow10(k)
    ensures |Dec(n)| <= k
  {
    if n >= 10 {
      assert Pow10(k) == 10 * Pow10(k - 1);
      DecLength(n / 10, k - 1);
    }
  }

  /** Canonical: no leading zero, so a numeral longer than one digit is at least 10^(length - 1). */
  lemma {:induction false} DecCanonical(n: nat)
    ensures n >= 10 ==> Dec(n)[0] != '0'
    ensures n > 0 ==> Pow10(|Dec(n)| - 1) <= n < Pow10(|Dec(n)|)
  {
    if n >= 10 {
      DecCanonical(n / 10);
      var k := |Dec(n / 10)|;
      assert Pow10(k) == 10 * Pow10(k - 1) && Pow10(k + 1) == 10 * Pow10(k);
    } else {
      assert Pow10(1) == 10 * Pow10(0);
    }
  }

  lemma TwentyDigits(n: nat)
    requires n < TWO_64
    ensures |Dec(n)| <= 20
  {
    assert Pow10(4) == 10000;
    assert Pow10(8) == 10000 * Pow10(4);
    assert Pow10(12) == 10000 * Pow10(8);
    assert Pow10(16) == 10000 * Pow10(12);
    assert Pow10(20) == 10000 * Pow10(16);
    DecLength(n, 20);
  }

  function Reverse(s: string): string {
    seq(|s|, k requires 0 <= k < |s| => s[|s| - 1 - k])
  }

  lemma ReverseSnoc(s: string, c: char)
    ensures Reverse(s + [c]) == [c] + Reverse(s)
  {
  }

  /** The first loop of my_utoa: the digits of i, least significant first. */
  method EmitDigits(i: nat, buf: array<char>, at: nat) returns (p: nat)
    requires at + |Dec(i)| <= buf.Length
    modifies buf
    ensures p == at + |Dec(i)| && Reverse(buf[at..p]) == Dec(i)
    ensures buf[..at] == old(buf[..at]) && buf[p..] == old(buf[p..])
  {
    var n := i;
    p := at;
    buf[p] := Digit(n % 10);
    n, p := n / 10, p + 1;
    assert buf[at..p] == [Digit(i % 10)];
    while n != 0
      invariant at < p <= buf.Length
      invariant Dec(i) == (if n == 0 then "" else Dec(n)) + Reverse(buf[at..p])
      invariant buf[..at] == old(buf[..at]) && buf[p..] == old(buf[p..])
      decreases n
    {
      ghost var done := buf[at..p];
      assert |Dec(i)| == |Dec(n)| + |done|;
      buf[p] := Digit(n % 10);
      assert buf[at..p + 1] == done + [Digit(n % 10)];
      ReverseSnoc(done, Digit(n % 10));
      n, p := n / 10, p + 1;
    }
  }

  /** s is `was` with the first and the last j of the len characters at `at` exchanged. */
  ghost predicate Swapped(s: string, was: string, at: nat, len: nat, j: nat) {
    && |s| == |was| && at + len <= |s| && 2 * j <= len
    && forall k | 0 <= k < |s| ::
         s[k] == was[if at <= k < at + j || at + len - j <= k < at + len then at + at + len - 1 - k else k]
  }

  lemma SwapOne(s: string, was: string, at: nat, len: nat, j: nat, x: nat, y: nat)
    requires Swapped(s, was, at, len, j) && j < len / 2 && x == at + j && y == at + len - j - 1
    ensures Swapped(s[x := s[y]][y := s[x]], was, at, len, j + 1)
  {}

  lemma SwappedHalf(s: string, was: string, at: nat, len: nat)
    requires Swapped(s, was, at, len, len / 2)
    ensures s[at..at + len] == Reverse(was[at..at + len])
    ensures s[..at] == was[..at] && s[at + len..] == was[at + len..]
  {
    assert s[at..at + len] == Reverse(was[at..at + len]);
  }

  /** The in-place reversal at the end of my_utoa. */
  method ReverseInPlace(buf: array<char>, at: nat, len: nat)
    requires at + len <= buf.Length
    modifies buf
    ensures buf[at..at + len] == Reverse(old(buf[at..at + len]))
    ensures buf[..at] == old(buf[..at]) && buf[at + len..] == old(buf[at + len..])
  {
    var j := 0;
    ghost var was := buf[..];
    while j < len / 2
      invariant 0 <= j <= len / 2 && Swapped(buf[..], was, at, len, j)
    {
      SwapOne(buf[..], was, at, len, j, at + j, at + len - j - 1);
      hide Swapped;
      ghost var s := buf[..];
      var c := buf[at + j];
      buf[at + j] := buf[at + len - j - 1];
      buf[at + len - j - 1] := c;
      assert buf[..] == s[at + j := s[at + len - j - 1]][at + len - j - 1 := s[at + j]];
      j := j + 1;
    }
    SwappedHalf(buf[..], was, at, len);
    assert buf[at..at + len] == buf[..][at..at + len];
    assert buf[..at] == buf[..][..at] && buf[at + len..] == buf[..][at + len..];
  }

  /** Writes the decimal numeral of i at buf[at..]. */
  method MyUtoa(i: nat, buf: array<char>, at: nat) returns (len: nat)
    requires i < TWO_64 && at + |Dec(i)| <= buf.Length
    modifies buf
    ensures len == |Dec(i)| <= 20
    ensures buf[..] == old(buf[..at]) + Dec(i) + old(buf[at + |Dec(i)|..])
  {
    TwentyDigits(i);
    var p := EmitDigits(i, buf, at);
    len := p - at;
    ReverseInPlace(buf, at, len);
    assert buf[..] == buf[..at] + buf[at..p] + buf[p..];
  }

  /** The free room behind `end` in a buffer of `len` bytes. */
  function BufLeft(end: nat, len: nat): nat
    requires end <= len
  {
    len - end
  }
}
