/**
 The orderings of `sortAchievements`. The comparator mirrors the source's: the
 millisecond difference of the two parsed dates for the date orders, a string
 comparison of titles for the title orders, and 0 for any other sort value.
 `Array.prototype.sort` is stable, so the sorted result is specified by a stable
 insertion sort, `SortBy`; `SortInPlace` sorts an array in place to exactly that.
 */
module Ordering {
  import opened Text
  import opened Records

  const DateDesc := "date-desc"
  const DateAsc := "date-asc"
  const TitleAsc := "title-asc"
  const TitleDesc := "title-desc"

  const MsPerDay := 86400000

  predicate IsDigit(c: char) {
    '0' <= c <= '9'
  }

  function DigitValue(c: char): nat
    requires IsDigit(c)
  {
    c as int - '0' as int
  }

  predicate IsLeapYear(y: int) {
    y % 4 == 0 && (y % 100 != 0 || y % 400 == 0)
  }

  function DaysInMonth(y: int, m: int): (n: int)
    requires 1 <= m <= 12
    ensures 28 <= n <= 31
  {
    if m == 2 then (if IsLeapYear(y) then 29 else 28)
    else if m == 4 || m == 6 || m == 9 || m == 11 then 30
    else 31
  }

  /** The well-formed shape `YYYY-MM-DD` (what the date input and the templates produce),
      naming an existing calendar day. */
  predicate IsIsoDate(s: string) {
    && |s| == 10
    && IsDigit(s[0]) && IsDigit(s[1]) && IsDigit(s[2]) && IsDigit(s[3]) && s[4] == '-'
    && IsDigit(s[5]) && IsDigit(s[6]) && s[7] == '-' && IsDigit(s[8]) && IsDigit(s[9])
    && 1 <= Month(s) <= 12
    && 1 <= Day(s) <= DaysInMonth(Year(s), Month(s))
  }

  function Year(s: string): nat
    requires |s| == 10 && IsDigit(s[0]) && IsDigit(s[1]) && IsDigit(s[2]) && IsDigit(s[3])
  {
    DigitValue(s[0]) * 1000 + DigitValue(s[1]) * 100 + DigitValue(s[2]) * 10 + DigitValue(s[3])
  }

  function Month(s: string): nat
    requires |s| == 10 && IsDigit(s[5]) && IsDigit(s[6])
  {
    DigitValue(s[5]) * 10 + DigitValue(s[6])
  }

  function Day(s: string): nat
    requires |s| == 10 && IsDigit(s[8]) && IsDigit(s[9])
  {
    DigitValue(s[8]) * 10 + DigitValue(s[9])
  }

  /** Days of the months before `m` in year `y`. */
  function DaysBeforeMonth(y: int, m: int): int
    requires 1 <= m <= 12
  {
    (if m == 1 then 0 else if m == 2 then 31 else if m == 3 then 59 else if m == 4 then 90
     else if m == 5 then 120 else if m == 6 then 151 else if m == 7 then 181
     else if m == 8 then 212 else if m == 9 then 243 else if m == 10 then 273
     else if m == 11 then 304 else 334)
    + (if m > 2 && IsLeapYear(y) then 1 else 0)
  }

  /** Days from 0000-01-01 to the first day of year `y` of the proleptic Gregorian
      calendar: 365 per year plus one per earlier leap year. */
  function YearStart(y: nat): int {
    365 * y + (y + 3) / 4 - (y + 99) / 100 + (y + 399) / 400
  }

  function YearLength(y: int): int {
    if IsLeapYear(y) then 366 else 365
  }

  /** Days from 0000-01-01 to the given day of the proleptic Gregorian calendar. */
  function DayNumber(y: nat, m: int, d: int): int
    requires 1 <= m <= 12
  {
    YearStart(y) + DaysBeforeMonth(y, m) + d - 1
  }

  /** Each year starts where the previous one ends. */
  lemma YearStartStep(y: nat)
    ensures YearStart(y + 1) == YearStart(y) + YearLength(y)
  {
    QuadrennialStep(y);
    CenturyStep(y);
    QuadricentennialStep(y);
    DivisibilityChain(y);
  }

  /** A multiple of 400 is a multiple of 100, and a multiple of 100 a multiple of 4. */
  lemma DivisibilityChain(y: nat)
    ensures y % 400 == 0 ==> y % 100 == 0
    ensures y % 100 == 0 ==> y % 4 == 0
  {
    if y % 400 == 0 {
      assert y == 100 * (4 * (y / 400));
    }
    if y % 100 == 0 {
      assert y == 4 * (25 * (y / 100));
    }
  }

  /** The count of years `0 <= x < y` divisible by 4 grows by one exactly at such a year. */
  lemma QuadrennialStep(y: nat)
    ensures (y + 4) / 4 == (y + 3) / 4 + (if y % 4 == 0 then 1 else 0)
  {
  }

  lemma CenturyStep(y: nat)
    ensures (y + 100) / 100 == (y + 99) / 100 + (if y % 100 == 0 then 1 else 0)
  {
  }

  lemma QuadricentennialStep(y: nat)
    ensures (y + 400) / 400 == (y + 399) / 400 + (if y % 400 == 0 then 1 else 0)
  {
  }

  /** A later year starts after an earlier one has ended. */
  lemma {:induction false} YearStartOrder(y1: nat, y2: nat)
    requires y1 < y2
    ensures YearStart(y1) + YearLength(y1) <= YearStart(y2)
    decreases y2 - y1
  {
    YearStartStep(y1);
    if y1 + 1 < y2 {
      YearStartOrder(y1 + 1, y2);
    }
  }

  /** Each month starts where the previous one ends, and December ends the year. */
  lemma MonthStep(y: int, m: int)
    requires 1 <= m <= 12
    ensures m < 12 ==> DaysBeforeMonth(y, m + 1) == DaysBeforeMonth(y, m) + DaysInMonth(y, m)
    ensures m == 12 ==> DaysBeforeMonth(y, m) + DaysInMonth(y, m) == YearLength(y)
  {
  }

  /** A later month of the same year starts after an earlier one has ended. */
  lemma {:induction false} MonthOrder(y: int, m1: int, m2: int)
    requires 1 <= m1 < m2 <= 12
    ensures DaysBeforeMonth(y, m1) + DaysInMonth(y, m1) <= DaysBeforeMonth(y, m2)
    decreases m2 - m1
  {
    MonthStep(y, m1);
    if m1 + 1 < m2 {
      MonthOrder(y, m1 + 1, m2);
    }
  }

  /** The day of a valid date lies inside its year. */
  lemma DayInYear(y: nat, m: int, d: int)
    requires 1 <= m <= 12 && 1 <= d <= DaysInMonth(y, m)
    ensures YearStart(y) <= DayNumber(y, m, d) < YearStart(y) + YearLength(y)
  {
    if m < 12 {
      MonthOrder(y, m, 12);
    }
    MonthStep(y, 12);
  }

  /** `a` names an earlier calendar day than `b`: an earlier year, or an earlier month
      of the same year, or an earlier day of the same month. */
  predicate CalendarBefore(a: string, b: string)
    requires IsIsoDate(a) && IsIsoDate(b)
  {
    || Year(a) < Year(b)
    || (Year(a) == Year(b) && Month(a) < Month(b))
    || (Year(a) == Year(b) && Month(a) == Month(b) && Day(a) < Day(b))
  }

  /** Day numbers follow the calendar. */
  lemma DayNumberOrder(a: string, b: string)
    requires IsIsoDate(a) && IsIsoDate(b)
    ensures CalendarBefore(a, b) ==> DayNumber(Year(a), Month(a), Day(a)) < DayNumber(Year(b), Month(b), Day(b))
  {
    var ya, ma, da := Year(a), Month(a), Day(a);
    var yb, mb, db := Year(b), Month(b), Day(b);
    if ya < yb {
      DayInYear(ya, ma, da);
      DayInYear(yb, mb, db);
      YearStartOrder(ya, yb);
    } else if ya == yb && ma < mb {
      MonthOrder(ya, ma, mb);
    }
  }

  /** Time values follow the calendar: a date's time value is smaller than another's
      exactly when it names an earlier day. */
  lemma TimeValueOrder(a: string, b: string)
    requires IsIsoDate(a) && IsIsoDate(b)
    ensures TimeValue(a).value < TimeValue(b).value <==> CalendarBefore(a, b)
  {
    DayNumberOrder(a, b);
    DayNumberOrder(b, a);
  }

  /** `new Date(s).getTime()` for a date-only ISO string (read as UTC midnight);
      `None` stands for the invalid date. */
  function TimeValue(s: string): (t: Option<int>)
    ensures t.Some? <==> IsIsoDate(s)
    ensures t.Some? ==> t.value % MsPerDay == 0
  {
    if IsIsoDate(s) then Some((DayNumber(Year(s), Month(s), Day(s)) - DayNumber(1970, 1, 1)) * MsPerDay)
    else None
  }

  /** `new Date(x) - new Date(y)`. With an invalid date the source gets `NaN`, which the
      sort treats in an implementation-defined way; the model reads it as a tie. */
  function DateDiff(x: string, y: string): (d: int)
    ensures TimeValue(x).None? || TimeValue(y).None? ==> d == 0
    ensures x == y ==> d == 0
  {
    match (TimeValue(x), TimeValue(y))
    case (Some(tx), Some(ty)) => tx - ty
    case _ => 0
  }

  /** A comparator in the sense of `Array.prototype.sort`: negative puts the first
      argument first, positive the second, zero keeps their order. */
  type Comparator = (Record, Record) -> int

  /** The comparator handed to `data.sort`: negative puts `a` first, positive puts `b`
      first, zero keeps their order. */
  function Cmp(order: string, a: Record, b: Record): (c: int)
    ensures order !in {DateDesc, DateAsc, TitleAsc, TitleDesc} ==> c == 0
    ensures IsDateOrder(order) && (TimeValue(a.data.date).None? || TimeValue(b.data.date).None?) ==> c == 0
    ensures order == DateDesc && TimeValue(a.data.date).Some? && TimeValue(b.data.date).Some? ==>
      (c < 0 <==> TimeValue(a.data.date).value > TimeValue(b.data.date).value)
    ensures order == DateAsc && TimeValue(a.data.date).Some? && TimeValue(b.data.date).Some? ==>
      (c < 0 <==> TimeValue(a.data.date).value < TimeValue(b.data.date).value)
    ensures (order == TitleAsc || order == TitleDesc) ==> (c == 0 <==> a.data.title == b.data.title)
    ensures order == TitleAsc ==> (c < 0 <==> StrCmp(a.data.title, b.data.title) < 0)
    ensures order == TitleDesc ==> (c < 0 <==> StrCmp(a.data.title, b.data.title) > 0)
  {
    if order == DateDesc then DateDiff(b.data.date, a.data.date)
    else if order == DateAsc then DateDiff(a.data.date, b.data.date)
    else if order == TitleAsc then StrCmp(a.data.title, b.data.title)
    else if order == TitleDesc then
      StrCmpAntisymmetric(a.data.title, b.data.title);
      StrCmp(b.data.title, a.data.title)
    else 0
  }

  /** The comparator is antisymmetric and transitive on the records of `dom`. */
  ghost predicate ConsistentOn(cmp: Comparator, dom: set<Record>) {
    && (forall a, b :: a in dom && b in dom ==> cmp(a, b) == -cmp(b, a))
    && (forall a, b, c :: a in dom && b in dom && c in dom && cmp(a, b) <= 0 && cmp(b, c) <= 0 ==> cmp(a, c) <= 0)
  }

  ghost predicate Within(s: seq<Record>, dom: set<Record>) {
    forall r :: r in s ==> r in dom
  }

  ghost predicate Sorted(cmp: Comparator, s: seq<Record>) {
    forall i, j :: 0 <= i < j < |s| ==> cmp(s[i], s[j]) <= 0
  }

  /** Records the comparator ties with `c`. */
  function SameRank(cmp: Comparator, c: Record): Record -> bool {
    (r: Record) => cmp(r, c) == 0
  }

  /** Insert `x` into `t` after every element the comparator puts strictly before it. */
  function Insert(cmp: Comparator, x: Record, t: seq<Record>): (r: seq<Record>)
    ensures |r| == |t| + 1
  {
    if t == [] then [x]
    else if cmp(t[0], x) < 0 then [t[0]] + Insert(cmp, x, t[1..])
    else [x] + t
  }

  /** The stable sort of `s` under `cmp`. */
  function SortBy(cmp: Comparator, s: seq<Record>): (r: seq<Record>)
    ensures |r| == |s|
  {
    if s == [] then []
    else Insert(cmp, s[0], SortBy(cmp, s[1..]))
  }

  lemma {:induction false} InsertPermutation(cmp: Comparator, x: Record, t: seq<Record>)
    ensures multiset(Insert(cmp, x, t)) == multiset(t) + multiset{x}
  {
    if t != [] && cmp(t[0], x) < 0 {
      InsertPermutation(cmp, x, t[1..]);
      assert t == [t[0]] + t[1..];
    }
  }

  /** Sorting returns a permutation of its input. */
  lemma {:induction false} SortByPermutation(cmp: Comparator, s: seq<Record>)
    ensures multiset(SortBy(cmp, s)) == multiset(s)
  {
    if s != [] {
      SortByPermutation(cmp, s[1..]);
      InsertPermutation(cmp, s[0], SortBy(cmp, s[1..]));
      assert s == [s[0]] + s[1..];
    }
  }

  lemma {:induction false} TailWithin(s: seq<Record>, dom: set<Record>)
    requires s != [] && Within(s, dom)
    ensures s[0] in dom && Within(s[1..], dom)
  {
    assert s[0] in s;
    forall r | r in s[1..] ensures r in dom {
      assert r in s;
    }
  }

  lemma {:induction false} SortByWithin(cmp: Comparator, s: seq<Record>, dom: set<Record>)
    requires Within(s, dom)
    ensures Within(SortBy(cmp, s), dom)
  {
    SortByPermutation(cmp, s);
    forall r | r in SortBy(cmp, s) ensures r in dom {
      assert r in multiset(SortBy(cmp, s));
      assert r in multiset(s);
    }
  }

  /** Inserting into a sorted sequence keeps it sorted. */
  lemma {:induction false} InsertSorted(cmp: Comparator, dom: set<Record>, x: Record, t: seq<Record>)
    requires ConsistentOn(cmp, dom) && x in dom && Within(t, dom)
    requires Sorted(cmp, t)
    ensures Sorted(cmp, Insert(cmp, x, t))
  {
    if t != [] {
      if cmp(t[0], x) < 0 {
        TailWithin(t, dom);
        SortedTail(cmp, t);
        InsertSorted(cmp, dom, x, t[1..]);
        HeadBeforeInsert(cmp, x, t);
        ConsSorted(cmp, t[0], Insert(cmp, x, t[1..]));
      } else {
        FrontBeforeAll(cmp, dom, x, t);
        ConsSorted(cmp, x, t);
      }
    }
  }

  lemma SortedTail(cmp: Comparator, t: seq<Record>)
    requires t != [] && Sorted(cmp, t)
    ensures Sorted(cmp, t[1..])
  {
    forall i, j | 0 <= i < j < |t| - 1 ensures cmp(t[1..][i], t[1..][j]) <= 0 {
      assert t[1..][i] == t[i + 1] && t[1..][j] == t[j + 1];
    }
  }

  /** Putting in front of a sorted sequence an element that sorts no later than any of
      its elements keeps it sorted. */
  lemma {:induction false} ConsSorted(cmp: Comparator, h: Record, u: seq<Record>)
    requires Sorted(cmp, u)
    requires forall k :: 0 <= k < |u| ==> cmp(h, u[k]) <= 0
    ensures Sorted(cmp, [h] + u)
  {
    var r := [h] + u;
    forall i, j | 0 <= i < j < |r| ensures cmp(r[i], r[j]) <= 0 {
      if i == 0 {
        assert r[j] == u[j - 1];
      } else {
        assert r[i] == u[i - 1] && r[j] == u[j - 1];
      }
    }
  }

  /** When the head of `t` sorts strictly before `x`, it sorts no later than anything in
      the insertion of `x` into the rest. */
  lemma {:induction false} HeadBeforeInsert(cmp: Comparator, x: Record, t: seq<Record>)
    requires t != [] && cmp(t[0], x) < 0
    requires Sorted(cmp, t)
    ensures forall k :: 0 <= k < |t| ==> cmp(t[0], Insert(cmp, x, t[1..])[k]) <= 0
  {
    var tail := Insert(cmp, x, t[1..]);
    InsertPermutation(cmp, x, t[1..]);
    forall k | 0 <= k < |tail| ensures cmp(t[0], tail[k]) <= 0 {
      assert tail[k] in multiset(tail);
      if tail[k] != x {
        assert tail[k] in multiset(t[1..]);
        var m :| 0 <= m < |t[1..]| && t[1..][m] == tail[k];
        assert t[m + 1] == tail[k];
      }
    }
  }

  /** When `x` does not sort after the head of a sorted `t`, it sorts no later than any
      element of `t`. */
  lemma {:induction false} FrontBeforeAll(cmp: Comparator, dom: set<Record>, x: Record, t: seq<Record>)
    requires ConsistentOn(cmp, dom) && x in dom && Within(t, dom)
    requires t != [] && cmp(t[0], x) >= 0
    requires Sorted(cmp, t)
    ensures forall k :: 0 <= k < |t| ==> cmp(x, t[k]) <= 0
  {
    assert t[0] in t;
    forall k | 0 <= k < |t| ensures cmp(x, t[k]) <= 0 {
      assert t[k] in t;
      assert cmp(x, t[0]) <= 0 && cmp(t[0], t[k]) <= 0;
    }
  }

  /** Sorting orders the records by the comparator, provided it is consistent on them. */
  lemma {:induction false} SortBySorted(cmp: Comparator, dom: set<Record>, s: seq<Record>)
    requires ConsistentOn(cmp, dom) && Within(s, dom)
    ensures Sorted(cmp, SortBy(cmp, s))
  {
    if s != [] {
      TailWithin(s, dom);
      SortBySorted(cmp, dom, s[1..]);
      SortByWithin(cmp, s[1..], dom);
      InsertSorted(cmp, dom, s[0], SortBy(cmp, s[1..]));
    }
  }

  lemma {:induction false} InsertKeepsTies(cmp: Comparator, dom: set<Record>, x: Record, t: seq<Record>, c: Record)
    requires ConsistentOn(cmp, dom) && x in dom && c in dom && Within(t, dom)
    ensures Select(Insert(cmp, x, t), SameRank(cmp, c))
         == (if cmp(x, c) == 0 then [x] else []) + Select(t, SameRank(cmp, c))
  {
    var tie := SameRank(cmp, c);
    if t == [] {
    } else if cmp(t[0], x) < 0 {
      TailWithin(t, dom);
      InsertKeepsTies(cmp, dom, x, t[1..], c);
      var r := [t[0]] + Insert(cmp, x, t[1..]);
      assert r[1..] == Insert(cmp, x, t[1..]);
      assert !(tie(t[0]) && tie(x));
    } else {
      var r := [x] + t;
      assert r[1..] == t;
    }
  }

  /** Sorting is stable: the records that tie with any given record appear in the sorted
      result in exactly the order they had in the input. */
  lemma {:induction false} SortByStable(cmp: Comparator, dom: set<Record>, s: seq<Record>, c: Record)
    requires ConsistentOn(cmp, dom) && c in dom && Within(s, dom)
    ensures Select(SortBy(cmp, s), SameRank(cmp, c)) == Select(s, SameRank(cmp, c))
  {
    if s != [] {
      TailWithin(s, dom);
      SortByStable(cmp, dom, s[1..], c);
      SortByWithin(cmp, s[1..], dom);
      InsertKeepsTies(cmp, dom, s[0], SortBy(cmp, s[1..]), c);
      assert s == [s[0]] + s[1..];
    }
  }

  /** A comparator that ties every pair leaves the records as they were. */
  lemma {:induction false} SortByAllTies(cmp: Comparator, s: seq<Record>)
    requires forall a, b :: cmp(a, b) == 0
    ensures SortBy(cmp, s) == s
  {
    if s != [] {
      SortByAllTies(cmp, s[1..]);
      assert s == [s[0]] + s[1..];
    }
  }

  /** Inserting past a prefix that all sorts strictly before `x`. */
  lemma {:induction false} InsertAfterPrefix(cmp: Comparator, x: Record, t: seq<Record>, k: nat)
    requires k <= |t|
    requires forall m :: 0 <= m < k ==> cmp(t[m], x) < 0
    ensures Insert(cmp, x, t) == t[..k] + Insert(cmp, x, t[k..])
  {
    if k > 0 {
      InsertAfterPrefix(cmp, x, t[1..], k - 1);
      assert t[1..][..k - 1] == t[1..k];
      assert t[1..][k - 1..] == t[k..];
      assert t[..k] == [t[0]] + t[1..k];
    }
  }

  /** One step of the sort: moves `a[i]` rightwards past the elements that sort strictly
      before it, leaving `a[i..]` as the insertion of the old `a[i]` into the old `a[i + 1..]`. */
  method InsertInPlace(a: array<Record>, i: int, cmp: Comparator)
    requires 0 <= i < a.Length
    modifies a
    ensures a[..i] == old(a[..i])
    ensures a[i..] == Insert(cmp, old(a[i]), old(a[i + 1..]))
  {
    ghost var t := a[i + 1..];
    var x := a[i];
    var j := i;
    while j + 1 < a.Length && cmp(a[j + 1], x) < 0
      invariant i <= j < a.Length
      invariant a[..i] == old(a[..i])
      invariant forall m :: i <= m < j ==> a[m] == t[m - i]
      invariant forall m :: j < m < a.Length ==> a[m] == t[m - 1 - i]
      invariant forall m :: 0 <= m < j - i ==> cmp(t[m], x) < 0
    {
      a[j] := a[j + 1];
      j := j + 1;
    }
    a[j] := x;
    PlacedIsInsert(cmp, x, t, a[i..], j - i);
  }

  lemma {:induction false} PlacedIsInsert(cmp: Comparator, x: Record, t: seq<Record>, r: seq<Record>, k: nat)
    requires k <= |t| && |r| == |t| + 1
    requires forall m :: 0 <= m < k ==> r[m] == t[m] && cmp(t[m], x) < 0
    requires r[k] == x
    requires forall m :: k < m < |r| ==> r[m] == t[m - 1]
    requires k == |t| || cmp(t[k], x) >= 0
    ensures r == Insert(cmp, x, t)
  {
    InsertAfterPrefix(cmp, x, t, k);
    assert Insert(cmp, x, t[k..]) == [x] + t[k..] by {
      if k < |t| {
        assert t[k..][0] == t[k];
      }
    }
    assert r == t[..k] + [x] + t[k..];
  }

  /** `data.sort(cmp)` on an array: the array ends up holding the stable sort of what it
      held. */
  method SortInPlace(a: array<Record>, cmp: Comparator)
    modifies a
    ensures a[..] == SortBy(cmp, old(a[..]))
  {
    ghost var s := a[..];
    var i := a.Length;
    while i > 0
      invariant 0 <= i <= a.Length
      invariant forall m :: 0 <= m < i ==> a[m] == s[m]
      invariant a[i..] == SortBy(cmp, s[i..])
    {
      i := i - 1;
      SortBySuffix(cmp, s, i);
      InsertInPlace(a, i, cmp);
    }
    assert a[..] == a[0..] && s == s[0..];
  }

  /** Sorting a suffix inserts its first element into the sorted rest. */
  lemma SortBySuffix(cmp: Comparator, s: seq<Record>, i: nat)
    requires i < |s|
    ensures SortBy(cmp, s[i..]) == Insert(cmp, s[i], SortBy(cmp, s[i + 1..]))
  {
    assert s[i..][1..] == s[i + 1..];
  }

  /** The comparator of `sortAchievements` for the current sort value. */
  function ComparatorFor(order: string): Comparator {
    (a: Record, b: Record) => Cmp(order, a, b)
  }

  predicate IsDateOrder(order: string) {
    order == DateDesc || order == DateAsc
  }

  /** The comparator is a consistent total preorder on records of this kind: under a
      date order, records whose date parses. */
  predicate Rankable(order: string, r: Record) {
    !IsDateOrder(order) || IsIsoDate(r.data.date)
  }

  ghost predicate Comparable(order: string, s: seq<Record>) {
    forall r :: r in s ==> Rankable(order, r)
  }

  lemma CmpAntisymmetric(order: string, a: Record, b: Record)
    ensures Cmp(order, a, b) == -Cmp(order, b, a)
  {
    StrCmpAntisymmetric(a.data.title, b.data.title);
  }

  lemma CmpTransitive(order: string, a: Record, b: Record, c: Record)
    requires Rankable(order, a) && Rankable(order, b) && Rankable(order, c)
    requires Cmp(order, a, b) <= 0 && Cmp(order, b, c) <= 0
    ensures Cmp(order, a, c) <= 0
  {
    if order == TitleAsc {
      StrCmpTransitive(a.data.title, b.data.title, c.data.title);
    } else if order == TitleDesc {
      StrCmpTransitive(c.data.title, b.data.title, a.data.title);
    }
  }

  /** On records whose dates parse, each of the source's comparators is a consistent
      total preorder. */
  lemma ComparatorConsistent(order: string, dom: set<Record>)
    requires forall r :: r in dom ==> Rankable(order, r)
    ensures ConsistentOn(ComparatorFor(order), dom)
  {
    var cmp := ComparatorFor(order);
    forall a, b | a in dom && b in dom ensures cmp(a, b) == -cmp(b, a) {
      CmpAntisymmetric(order, a, b);
    }
    forall a, b, c | a in dom && b in dom && c in dom && cmp(a, b) <= 0 && cmp(b, c) <= 0
      ensures cmp(a, c) <= 0
    {
      CmpTransitive(order, a, b, c);
    }
  }

  /** On records whose dates parse, sorting under the comparator of any sort value gives
      a permutation of the records, in the comparator's order. */
  lemma SortOrdersPermutation(order: string, s: seq<Record>)
    requires Comparable(order, s)
    ensures multiset(SortBy(ComparatorFor(order), s)) == multiset(s)
    ensures Sorted(ComparatorFor(order), SortBy(ComparatorFor(order), s))
  {
    var dom := set r | r in s;
    ComparatorConsistent(order, dom);
    SortByPermutation(ComparatorFor(order), s);
    SortBySorted(ComparatorFor(order), dom, s);
  }

  /** `sortAchievements` under any of the four sort values, on records whose dates parse:
      the result is a permutation of the input, ordered by the comparator, and stable. */
  lemma SortAchievementsSpec(order: string, s: seq<Record>)
    requires Comparable(order, s)
    ensures var r := SortBy(ComparatorFor(order), s);
      && multiset(r) == multiset(s)
      && Sorted(ComparatorFor(order), r)
      && forall c :: c in s ==> Select(r, SameRank(ComparatorFor(order), c)) == Select(s, SameRank(ComparatorFor(order), c))
  {
    var cmp := ComparatorFor(order);
    var dom := set r | r in s;
    ComparatorConsistent(order, dom);
    SortOrdersPermutation(order, s);
    forall c | c in s
      ensures Select(SortBy(cmp, s), SameRank(cmp, c)) == Select(s, SameRank(cmp, c))
    {
      SortByStable(cmp, dom, s, c);
    }
  }

  /** A sort value other than the four known ones leaves the records in mirror order. */
  lemma SortUnknownOrderKeepsOrder(order: string, s: seq<Record>)
    requires order !in {DateDesc, DateAsc, TitleAsc, TitleDesc}
    ensures SortBy(ComparatorFor(order), s) == s
  {
    SortByAllTies(ComparatorFor(order), s);
  }

  /** Both dates parse and the first is not earlier than the second. */
  ghost predicate NoOlder(a: Record, b: Record) {
    && TimeValue(a.data.date).Some? && TimeValue(b.data.date).Some?
    && TimeValue(a.data.date).value >= TimeValue(b.data.date).value
  }

  /** Every date parses, and the dates never increase from one record to a later one. */
  ghost predicate NewestFirst(r: seq<Record>) {
    forall i, j :: 0 <= i < j < |r| ==> NoOlder(r[i], r[j])
  }

  /** Under `date-desc` the sorted records run from the latest date to the earliest. */
  lemma DateDescNewestFirst(s: seq<Record>)
    requires forall r :: r in s ==> IsIsoDate(r.data.date)
    ensures NewestFirst(SortBy(ComparatorFor(DateDesc), s))
  {
    SortOrdersPermutation(DateDesc, s);
    DateDescSortedNewestFirst(s, SortBy(ComparatorFor(DateDesc), s));
  }

  /** A `date-desc` sorted permutation of records whose dates parse runs newest first. */
  lemma DateDescSortedNewestFirst(s: seq<Record>, r: seq<Record>)
    requires forall x :: x in s ==> IsIsoDate(x.data.date)
    requires multiset(r) == multiset(s) && Sorted(ComparatorFor(DateDesc), r)
    ensures NewestFirst(r)
  {
    forall i, j | 0 <= i < j < |r| ensures NoOlder(r[i], r[j]) {
      assert r[i] in multiset(s) && r[j] in multiset(s);
      assert Cmp(DateDesc, r[i], r[j]) <= 0;
    }
  }

  /** The titles never decrease from one record to a later one. */
  ghost predicate TitlesAscending(r: seq<Record>) {
    forall i, j :: 0 <= i < j < |r| ==> StrCmp(r[i].data.title, r[j].data.title) <= 0
  }

  /** Under `title-asc` the sorted records run in ascending title order. */
  lemma TitleAscAlphabetical(s: seq<Record>)
    ensures TitlesAscending(SortBy(ComparatorFor(TitleAsc), s))
  {
    var cmp := ComparatorFor(TitleAsc);
    SortOrdersPermutation(TitleAsc, s);
    var r := SortBy(cmp, s);
    forall i, j | 0 <= i < j < |r|
      ensures StrCmp(r[i].data.title, r[j].data.title) <= 0
    {
      assert cmp(r[i], r[j]) <= 0;
    }
  }

  /** The titles never increase from one record to a later one. */
  ghost predicate TitlesDescending(r: seq<Record>) {
    forall i, j :: 0 <= i < j < |r| ==> StrCmp(r[i].data.title, r[j].data.title) >= 0
  }

  /** Under `title-desc` the sorted records run in descending title order. */
  lemma TitleDescReverseAlphabetical(s: seq<Record>)
    ensures TitlesDescending(SortBy(ComparatorFor(TitleDesc), s))
  {
    var cmp := ComparatorFor(TitleDesc);
    SortOrdersPermutation(TitleDesc, s);
    var r := SortBy(cmp, s);
    forall i, j | 0 <= i < j < |r|
      ensures StrCmp(r[i].data.title, r[j].data.title) >= 0
    {
      assert cmp(r[i], r[j]) <= 0;
      StrCmpAntisymmetric(r[i].data.title, r[j].data.title);
    }
  }

  /** Both dates are calendar days and the first is not an earlier day than the second. */
  predicate CalendarNoOlder(a: Record, b: Record) {
    IsIsoDate(a.data.date) && IsIsoDate(b.data.date) && !CalendarBefore(a.data.date, b.data.date)
  }

  /** Every date is a calendar day, and none is followed by a later one. */
  ghost predicate CalendarDescending(r: seq<Record>) {
    forall i, j :: 0 <= i < j < |r| ==> CalendarNoOlder(r[i], r[j])
  }

  /** Records running from the largest time value down run from the latest calendar day
      down. */
  lemma NewestFirstOnCalendar(r: seq<Record>)
    requires NewestFirst(r)
    ensures CalendarDescending(r)
  {
    forall i, j | 0 <= i < j < |r| ensures CalendarNoOlder(r[i], r[j]) {
      NoOlderOnCalendar(r[i], r[j]);
    }
  }

  lemma NoOlderOnCalendar(a: Record, b: Record)
    requires NoOlder(a, b)
    ensures CalendarNoOlder(a, b)
  {
    TimeValueOrder(a.data.date, b.data.date);
  }

  /** Under `date-desc` no record is followed by one with a later calendar day. */
  lemma DateDescCalendarOrder(s: seq<Record>)
    requires forall r :: r in s ==> IsIsoDate(r.data.date)
    ensures CalendarDescending(SortBy(ComparatorFor(DateDesc), s))
  {
    DateDescNewestFirst(s);
    NewestFirstOnCalendar(SortBy(ComparatorFor(DateDesc), s));
  }
}
