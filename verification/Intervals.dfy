/** The busy and idle time of perf_analyze.py: request intervals are sorted by their begin and
    merged when they overlap or touch. */
module Intervals {

  datatype Span = Span(begin: int, end: int)

  /** The interval contains tick t; both ends are included. */
  predicate Has(s: Span, t: int) { s.begin <= t <= s.end }

  predicate Covers(spans: seq<Span>, t: int) {
    exists i | 0 <= i < |spans| :: Has(spans[i], t)
  }

  predicate Proper(spans: seq<Span>) {
    forall i | 0 <= i < |spans| :: spans[i].begin <= spans[i].end
  }

  predicate Ordered(spans: seq<Span>) {
    forall i, j | 0 <= i < j < |spans| :: spans[i].begin <= spans[j].begin
  }

  /** In order, with at least one idle tick between neighbours. */
  predicate Canonical(spans: seq<Span>) {
    && Proper(spans)
    && forall i, j | 0 <= i < j < |spans| :: spans[i].end + 2 <= spans[j].begin
  }

  // ---------------------------------------------------------------- list.sort

  function Insert(x: Span, s: seq<Span>): (r: seq<Span>)
    requires Ordered(s)
    ensures Ordered(r) && multiset(r) == multiset(s) + multiset{x}
  {
    if s == [] then [x]
    else
      var n := |s| - 1;
      assert s == s[..n] + [s[n]];
      if s[n].begin <= x.begin then s + [x]
      else
        var r := Insert(x, s[..n]);
        InsertedBelow(x, s, n, r);
        r + [s[n]]
  }

  lemma InsertedBelow(x: Span, s: seq<Span>, n: nat, r: seq<Span>)
    requires Ordered(s) && n < |s| && x.begin <= s[n].begin
    requires Ordered(r) && multiset(r) == multiset(s[..n]) + multiset{x}
    ensures Ordered(r + [s[n]])
  {
    forall i | 0 <= i < |r| ensures r[i].begin <= s[n].begin {
      assert r[i] in multiset(r);
      assert r[i] == x || r[i] in s[..n];
    }
  }

  /** A stable sort by begin. */
  function SortByBegin(s: seq<Span>): (r: seq<Span>)
    ensures Ordered(r) && multiset(r) == multiset(s)
  {
    if s == [] then []
    else
      assert s == s[..|s| - 1] + [s[|s| - 1]];
      Insert(s[|s| - 1], SortByBegin(s[..|s| - 1]))
  }

  lemma SameCover(a: seq<Span>, b: seq<Span>, t: int)
    requires multiset(a) == multiset(b)
    ensures Covers(a, t) <==> Covers(b, t)
  {
    if i :| 0 <= i < |a| && Has(a[i], t) {
      assert a[i] in multiset(b);
    }
    if i :| 0 <= i < |b| && Has(b[i], t) {
      assert b[i] in multiset(a);
    }
  }

  // ---------------------------------------------------------------- the merge

  /** up_time: the fewest intervals that cover exactly the ticks of the data. */
  method UpTime(data: seq<Span>) returns (dt: seq<Span>)
    requires Proper(data)
    ensures Canonical(dt) && (data != [] ==> dt != [])
    ensures forall t :: Covers(dt, t) <==> Covers(data, t)
  {
    hide Covers, Canonical;
    var d2 := SortByBegin(data);
    SortedProper(data);
    dt := [];
    Nothing();
    for i := 0 to |d2|
      invariant Reached(d2, i, dt)
    {
      var begin, end := d2[i].begin, d2[i].end;
      ghost var before := dt;
      if dt != [] && dt[|dt| - 1].end >= begin - 1 {
        var last := |dt| - 1;
        dt := dt[last := Span(dt[last].begin, if dt[last].end >= end then dt[last].end else end)];
      } else {
        dt := dt + [Span(begin, end)];
      }
      OneTurn(d2, i, before, dt);
    }
    assert d2[..|d2|] == d2;
    forall t ensures Covers(dt, t) <==> Covers(data, t) {
      SameCover(d2, data, t);
    }
  }

  /** After i turns: the merged intervals cover the first i, and the last of them begins no later
      than any interval still to come. */
  ghost predicate Reached(d2: seq<Span>, i: int, dt: seq<Span>) {
    && 0 <= i <= |d2| && Canonical(dt) && (i > 0 <==> dt != [])
    && (i > 0 ==> dt[|dt| - 1].begin <= d2[i - 1].begin)
    && forall t :: Covers(dt, t) <==> Covers(d2[..i], t)
  }

  lemma Nothing()
    ensures Canonical([]) && forall t :: !Covers([], t)
  {}

  lemma SortedProper(data: seq<Span>)
    requires Proper(data)
    ensures Proper(SortByBegin(data))
  {
    var d2 := SortByBegin(data);
    forall i | 0 <= i < |d2| ensures d2[i].begin <= d2[i].end {
      assert d2[i] in multiset(data);
    }
  }

  /** The body of the loop. */
  predicate Merged(dt: seq<Span>, x: Span, now: seq<Span>) {
    if dt != [] && dt[|dt| - 1].end >= x.begin - 1 then
      now == dt[|dt| - 1 := Span(dt[|dt| - 1].begin, if dt[|dt| - 1].end >= x.end then dt[|dt| - 1].end else x.end)]
    else
      now == dt + [x]
  }

  lemma OneTurn(d2: seq<Span>, i: nat, dt: seq<Span>, now: seq<Span>)
    requires i < |d2| && Ordered(d2) && Proper(d2) && Reached(d2, i, dt) && Merged(dt, d2[i], now)
    ensures Reached(d2, i + 1, now)
  {
    CanonicalMerged(dt, d2[i], now);
    hide Merged, Canonical;
    forall t ensures Covers(now, t) <==> Covers(d2[..i + 1], t) {
      CoverOneMore(d2, i, t);
      CoverMerged(dt, d2[i], now, t);
    }
  }

  lemma CanonicalMerged(dt: seq<Span>, x: Span, now: seq<Span>)
    requires x.begin <= x.end && Canonical(dt) && Merged(dt, x, now)
    requires dt != [] ==> dt[|dt| - 1].begin <= x.begin
    ensures Canonical(now) && now != [] && now[|now| - 1].begin <= x.begin
  {}

  lemma CoverOneMore(s: seq<Span>, i: nat, t: int)
    requires i < |s|
    ensures Covers(s[..i + 1], t) <==> Covers(s[..i], t) || Has(s[i], t)
  {
    if Covers(s[..i], t) {
      var k :| 0 <= k < i && Has(s[..i][k], t);
      assert Has(s[..i + 1][k], t);
    }
    if Has(s[i], t) {
      assert Has(s[..i + 1][i], t);
    }
  }

  /** One turn of the loop adds the ticks of x and no others. */
  lemma CoverMerged(dt: seq<Span>, x: Span, now: seq<Span>, t: int)
    requires x.begin <= x.end && Canonical(dt)
    requires Merged(dt, x, now) && (dt != [] ==> dt[|dt| - 1].begin <= x.begin)
    ensures Covers(now, t) <==> Covers(dt, t) || Has(x, t)
  {
    if Covers(now, t) {
      var k :| 0 <= k < |now| && Has(now[k], t);
      assert k < |dt| && !Has(dt[k], t) ==> Has(x, t);
    }
    if Covers(dt, t) {
      var k :| 0 <= k < |dt| && Has(dt[k], t);
      assert Has(now[k], t);
    }
    if Has(x, t) {
      assert Has(now[|now| - 1], t);
    }
  }

  // ---------------------------------------------------------------- the result is determined

  lemma CoverAt(a: seq<Span>, i: nat, t: int)
    requires i < |a| && Has(a[i], t)
    ensures Covers(a, t)
  {}

  /** The ticks of the data determine the result: neither the order of the requests nor how they
      overlap matters. */
  lemma {:induction false} CanonicalUnique(a: seq<Span>, b: seq<Span>)
    requires Canonical(a) && Canonical(b)
    requires forall t :: Covers(a, t) <==> Covers(b, t)
    ensures a == b
  {
    if b != [] {
      CoverAt(b, 0, b[0].begin);
    }
    if a != [] {
      CoverAt(a, 0, a[0].begin);
      SameHead(a, b);
      SameHead(b, a);
      forall t ensures Covers(a[1..], t) <==> Covers(b[1..], t) {
        TailCovers(a, t);
        TailCovers(b, t);
      }
      CanonicalUnique(a[1..], b[1..]);
      assert a == [a[0]] + a[1..] && b == [b[0]] + b[1..];
    }
  }

  lemma SameHead(a: seq<Span>, b: seq<Span>)
    requires Canonical(a) && Canonical(b) && a != [] && b != []
    requires forall t :: Covers(a, t) <==> Covers(b, t)
    ensures a[0].begin >= b[0].begin
    ensures a[0].begin == b[0].begin ==> a[0].end <= b[0].end
  {
    CoverAt(a, 0, a[0].begin);
    if a[0].begin == b[0].begin && a[0].end > b[0].end {
      CoverAt(a, 0, b[0].end + 1);
    }
  }

  lemma TailCovers(a: seq<Span>, t: int)
    requires Canonical(a) && a != []
    ensures Covers(a[1..], t) <==> Covers(a, t) && t > a[0].end
  {
    if Covers(a[1..], t) {
      var k :| 0 <= k < |a| - 1 && Has(a[1..][k], t);
      assert Has(a[k + 1], t);
    }
    if Covers(a, t) && t > a[0].end {
      var k :| 0 <= k < |a| && Has(a[k], t);
      assert Has(a[1..][k - 1], t);
    }
  }

  // ---------------------------------------------------------------- idle time

  function Lengths(spans: seq<Span>): int {
    if spans == [] then 0
    else Lengths(spans[..|spans| - 1]) + spans[|spans| - 1].end - spans[|spans| - 1].begin
  }

  function Gaps(spans: seq<Span>): int {
    var n := |spans|;
    if n < 2 then 0 else Gaps(spans[..n - 1]) + spans[n - 1].begin - spans[n - 2].end
  }

  lemma {:induction false} LengthsAndGaps(spans: seq<Span>)
    requires Canonical(spans) && spans != []
    ensures Lengths(spans) + Gaps(spans) == spans[|spans| - 1].end - spans[0].begin
    ensures Gaps(spans) >= 2 * (|spans| - 1)
  {
    if |spans| > 1 {
      LengthsAndGaps(spans[..|spans| - 1]);
    } else {
      assert Lengths(spans[..0]) == 0;
    }
  }

  /** The ticks from lo up to, but without, hi that no interval contains. */
  function IdleTicks(spans: seq<Span>, lo: int, hi: int): nat
    decreases hi - lo
  {
    if hi <= lo then 0 else IdleTicks(spans, lo, hi - 1) + if Covers(spans, hi - 1) then 0 else 1
  }

  lemma {:induction false} IdleStretch(spans: seq<Span>, lo: int, mid: int, hi: int, busy: bool)
    requires lo <= mid <= hi && forall t | mid <= t < hi :: Covers(spans, t) == busy
    ensures IdleTicks(spans, lo, hi) == IdleTicks(spans, lo, mid) + if busy then 0 else hi - mid
    decreases hi - mid
  {
    if mid < hi {
      IdleStretch(spans, lo, mid, hi - 1, busy);
    }
  }

  lemma {:induction false} IdleAgree(a: seq<Span>, b: seq<Span>, lo: int, hi: int)
    requires forall t | lo <= t < hi :: Covers(a, t) == Covers(b, t)
    ensures IdleTicks(a, lo, hi) == IdleTicks(b, lo, hi)
    decreases hi - lo
  {
    if lo < hi {
      IdleAgree(a, b, lo, hi - 1);
    }
  }

  /** The gaps count the idle ticks, and one more for each gap. */
  lemma {:induction false} GapsAreIdle(spans: seq<Span>)
    requires Canonical(spans) && spans != []
    ensures Gaps(spans) == IdleTicks(spans, spans[0].begin, spans[|spans| - 1].end + 1) + |spans| - 1
  {
    var n, lo := |spans| - 1, spans[0].begin;
    BusyEnd(spans);
    if n > 0 {
      GapsAreIdle(spans[..n]);
      IdleGap(spans);
    }
  }

  lemma BusyEnd(spans: seq<Span>)
    requires Canonical(spans) && spans != []
    ensures var x := spans[|spans| - 1];
            IdleTicks(spans, spans[0].begin, x.end + 1) == IdleTicks(spans, spans[0].begin, x.begin)
  {
    hide IdleTicks;
    var n := |spans| - 1;
    forall t | spans[n].begin <= t < spans[n].end + 1 ensures Covers(spans, t) {
      CoverAt(spans, n, t);
    }
    IdleStretch(spans, spans[0].begin, spans[n].begin, spans[n].end + 1, true);
  }

  lemma IdleGap(spans: seq<Span>)
    requires Canonical(spans) && |spans| > 1
    ensures var n, lo := |spans| - 1, spans[0].begin;
            IdleTicks(spans, lo, spans[n].begin)
            == IdleTicks(spans[..n], lo, spans[n - 1].end + 1) + spans[n].begin - spans[n - 1].end - 1
  {
    hide IdleTicks;
    var n, lo := |spans| - 1, spans[0].begin;
    var e := spans[n - 1].end + 1;
    IdleStretch(spans, lo, e, spans[n].begin, false);
    forall t | lo <= t < e ensures Covers(spans, t) == Covers(spans[..n], t) {
      CoverOneMore(spans, n, t);
      assert spans[..n + 1] == spans;
    }
    IdleAgree(spans, spans[..n], lo, e);
  }

  function FirstBegin(data: seq<Span>): (b: int)
    requires data != []
    ensures (exists i | 0 <= i < |data| :: data[i].begin == b) && forall s | s in data :: b <= s.begin
  {
    var n := |data| - 1;
    if n == 0 then data[0].begin
    else
      var b := FirstBegin(data[..n]);
      assert forall s | s in data :: s in data[..n] || s == data[n];
      if data[n].begin < b then data[n].begin else b
  }

  function LastEnd(data: seq<Span>): (e: int)
    requires data != []
    ensures (exists i | 0 <= i < |data| :: data[i].end == e) && forall s | s in data :: s.end <= e
  {
    var n := |data| - 1;
    if n == 0 then data[0].end
    else
      var e := LastEnd(data[..n]);
      assert forall s | s in data :: s in data[..n] || s == data[n];
      if data[n].end > e then data[n].end else e
  }

  lemma SameEnds(data: seq<Span>, ut: seq<Span>)
    requires data != [] && Proper(data) && Canonical(ut)
    requires forall t :: Covers(ut, t) <==> Covers(data, t)
    ensures ut != [] && ut[0].begin == FirstBegin(data) && ut[|ut| - 1].end == LastEnd(data)
  {
    hide FirstBegin, LastEnd;
    var i :| 0 <= i < |data| && data[i].begin == FirstBegin(data);
    CoverAt(data, i, data[i].begin);
    var j :| 0 <= j < |data| && data[j].end == LastEnd(data);
    CoverAt(data, j, data[j].end);
    CoverAt(ut, 0, ut[0].begin);
    CoverAt(ut, |ut| - 1, ut[|ut| - 1].end);
  }

  /** The arithmetic of main: the idle time is the total time without the busy intervals.  It is
      the sum of the gaps, never negative, and zero exactly when there is no gap. */
  method IdleTime(data: seq<Span>) returns (ut: seq<Span>, down: int)
    requires data != [] && Proper(data)
    ensures Canonical(ut) && ut != [] && forall t :: Covers(ut, t) <==> Covers(data, t)
    ensures down == Gaps(ut) == IdleTicks(data, FirstBegin(data), LastEnd(data) + 1) + |ut| - 1
    ensures down >= 0 && (down == 0 <==> |ut| == 1)
  {
    hide Covers, Canonical, IdleTicks, Lengths, FirstBegin, LastEnd;
    var total := LastEnd(data) - FirstBegin(data);
    ut := UpTime(data);
    down := total - Lengths(ut);
    SameEnds(data, ut);
    LengthsAndGaps(ut);
    GapsAreIdle(ut);
    IdleAgree(data, ut, FirstBegin(data), LastEnd(data) + 1);
  }
}
