/**
 * The in-memory part of `Leaderboard.record`: the per-size score lists, kept
 * sorted by time and cut to the ten fastest. Reading and writing the JSON
 * file is not part of this model.
 */
module Leaderboard {

  import Grid

  /** One score; `time` stands for the elapsed seconds (any totally ordered key). */
  datatype Entry = Entry(initials: string, time: int)

  /** The decoded leaderboard file: size key to score list. */
  type Board = map<string, seq<Entry>>

  /** Scores kept per grid size. */
  const TOP: nat := 10

  /** Characters of the initials that are stored. */
  const INITIALS_LENGTH: nat := 3

  function Min(a: int, b: int): int {
    if a <= b then a else b
  }

  function DigitChar(d: nat): char
    requires d < 10
  {
    (48 + d) as char
  }

  /** Decimal rendering of a natural number, as Python's `str` of an `int`. */
  function Decimal(n: nat): (s: string)
    ensures |s| >= 1
    ensures forall i :: 0 <= i < |s| ==> '0' <= s[i] <= '9'
  {
    if n < 10 then [DigitChar(n)] else Decimal(n / 10) + [DigitChar(n % 10)]
  }

  /** The number a string of decimal digits spells, most significant digit first. */
  function DecimalValue(s: string): nat
    requires forall i :: 0 <= i < |s| ==> '0' <= s[i] <= '9'
  {
    if |s| == 0 then 0
    else 10 * DecimalValue(s[..|s| - 1]) + (s[|s| - 1] as int - 48)
  }

  /** The digits `Decimal` writes spell `n` again. */
  lemma {:induction false} DecimalRoundTrip(n: nat)
    ensures DecimalValue(Decimal(n)) == n
    decreases n
  {
    if n >= 10 {
      var s := Decimal(n);
      assert s[..|s| - 1] == Decimal(n / 10);
      DecimalRoundTrip(n / 10);
    }
  }

  /** The size key `f"{rows}x{cols}"`. */
  function SizeKey(rows: nat, cols: nat): string {
    Decimal(rows) + "x" + Decimal(cols)
  }

  /**
   * The key is the decimal digits of `rows`, an `x`, then the decimal digits
   * of `cols`: the text before the first `x` spells `rows` and the text after
   * it spells `cols`.
   */
  lemma SizeKeyValue(rows: nat, cols: nat)
    ensures var k, m := SizeKey(rows, cols), |Decimal(rows)|;
      && m < |k| && k[m] == 'x' && 'x' !in k[..m]
      && k[..m] == Decimal(rows) && DecimalValue(k[..m]) == rows
      && k[m + 1..] == Decimal(cols) && DecimalValue(k[m + 1..]) == cols
  {
    var k, m := SizeKey(rows, cols), |Decimal(rows)|;
    assert k[..m] == Decimal(rows);
    assert k[m + 1..] == Decimal(cols);
    DecimalRoundTrip(rows);
    DecimalRoundTrip(cols);
  }

  /** For the grid sizes the game allows, the key is digit, `x`, digit. */
  lemma SizeKeyOfValidSize(rows: nat, cols: nat)
    requires Grid.ValidSize(rows, cols)
    ensures SizeKey(rows, cols) == [DigitChar(rows), 'x', DigitChar(cols)]
  {
  }

  /** Different numbers have different decimal renderings. */
  lemma {:induction false} DecimalInjective(m: nat, n: nat)
    requires Decimal(m) == Decimal(n)
    ensures m == n
  {
    if m >= 10 && n >= 10 {
      var dm, dn := Decimal(m), Decimal(n);
      assert dm[..|dm| - 1] == Decimal(m / 10);
      assert dn[..|dn| - 1] == Decimal(n / 10);
      DecimalInjective(m / 10, n / 10);
      assert dm[|dm| - 1] == DigitChar(m % 10);
    }
  }

  /** Different grid sizes are filed under different keys. */
  lemma SizeKeyInjective(r1: nat, c1: nat, r2: nat, c2: nat)
    requires SizeKey(r1, c1) == SizeKey(r2, c2)
    ensures r1 == r2 && c1 == c2
  {
    var k := SizeKey(r1, c1);
    var a1, a2 := Decimal(r1), Decimal(r2);
    assert k[|a1|] == 'x';
    assert k[|a2|] == 'x';
    assert a1 == k[..|a1|] == a2;
    assert Decimal(c1) == k[|a1| + 1..] == Decimal(c2);
    DecimalInjective(r1, r2);
    DecimalInjective(c1, c2);
  }

  predicate SortedByTime(s: seq<Entry>) {
    forall i, j :: 0 <= i < j < |s| ==> s[i].time <= s[j].time
  }

  /** The entries with time `t`, in list order; a sort is stable when it keeps these. */
  function WithTime(s: seq<Entry>, t: int): seq<Entry> {
    if |s| == 0 then []
    else (if s[0].time == t then [s[0]] else []) + WithTime(s[1..], t)
  }

  lemma {:induction false} WithTimeConcat(a: seq<Entry>, b: seq<Entry>, t: int)
    ensures WithTime(a + b, t) == WithTime(a, t) + WithTime(b, t)
  {
    if |a| == 0 {
      assert a + b == b;
    } else {
      var head := if a[0].time == t then [a[0]] else [];
      assert (a + b)[0] == a[0];
      assert (a + b)[1..] == a[1..] + b;
      WithTimeConcat(a[1..], b, t);
      assert WithTime(a + b, t) == head + (WithTime(a[1..], t) + WithTime(b, t));
      assert head + (WithTime(a[1..], t) + WithTime(b, t)) == (head + WithTime(a[1..], t)) + WithTime(b, t);
    }
  }

  lemma {:induction false} WithTimeNone(s: seq<Entry>, t: int)
    requires forall i :: 0 <= i < |s| ==> s[i].time != t
    ensures WithTime(s, t) == []
  {
    if |s| > 0 {
      WithTimeNone(s[1..], t);
    }
  }

  /** Every entry of `s` takes at least `t`. */
  predicate AtLeast(s: seq<Entry>, t: int) {
    forall i :: 0 <= i < |s| ==> t <= s[i].time
  }

  /** Inserts `x` before the first entry that is strictly slower than it. */
  function Insert(s: seq<Entry>, x: Entry): (r: seq<Entry>)
    ensures |r| == |s| + 1
    ensures multiset(r) == multiset(s) + multiset{x}
  {
    if |s| == 0 then [x]
    else if x.time < s[0].time then [x] + s
    else
      assert s == [s[0]] + s[1..];
      [s[0]] + Insert(s[1..], x)
  }

  /** Inserting into a sorted list keeps it sorted, and keeps every lower bound that `x` respects. */
  lemma {:induction false} InsertSorted(s: seq<Entry>, x: Entry)
    requires SortedByTime(s)
    ensures SortedByTime(Insert(s, x))
    ensures forall t :: AtLeast(s, t) && t <= x.time ==> AtLeast(Insert(s, x), t)
  {
    if |s| == 0 {
      assert Insert(s, x) == [x];
    } else if x.time < s[0].time {
      assert Insert(s, x) == [x] + s;
      assert AtLeast(s, s[0].time);
    } else {
      var rest := Insert(s[1..], x);
      assert Insert(s, x) == [s[0]] + rest;
      assert AtLeast(s[1..], s[0].time);
      InsertSorted(s[1..], x);
      assert AtLeast(rest, s[0].time);
      forall t | AtLeast(s, t) && t <= x.time
        ensures AtLeast(Insert(s, x), t)
      {
        assert AtLeast(s[1..], t);
      }
    }
  }

  /** Inserting `x` appends it to the entries of its own time and leaves the other times alone. */
  lemma {:induction false} InsertStable(s: seq<Entry>, x: Entry, t: int)
    requires SortedByTime(s)
    ensures WithTime(Insert(s, x), t) == WithTime(s, t) + (if x.time == t then [x] else [])
  {
    if |s| == 0 {
      assert Insert(s, x) == [x];
    } else if x.time < s[0].time {
      InsertFrontStable(s, x, t);
    } else {
      InsertStable(s[1..], x, t);
      InsertBehindStable(s, x, t);
    }
  }

  /** The step of `InsertStable` when `x` goes behind the first entry. */
  lemma InsertBehindStable(s: seq<Entry>, x: Entry, t: int)
    requires |s| > 0 && x.time >= s[0].time
    requires WithTime(Insert(s[1..], x), t) == WithTime(s[1..], t) + (if x.time == t then [x] else [])
    ensures WithTime(Insert(s, x), t) == WithTime(s, t) + (if x.time == t then [x] else [])
  {
    var rest := Insert(s[1..], x);
    var head := if s[0].time == t then [s[0]] else [];
    var tail := if x.time == t then [x] else [];
    assert WithTime(Insert(s, x), t) == head + WithTime(rest, t) by {
      assert Insert(s, x) == [s[0]] + rest;
      assert ([s[0]] + rest)[1..] == rest;
    }
    assert head + (WithTime(s[1..], t) + tail) == (head + WithTime(s[1..], t)) + tail;
  }

  lemma InsertFrontStable(s: seq<Entry>, x: Entry, t: int)
    requires SortedByTime(s) && |s| > 0 && x.time < s[0].time
    ensures WithTime([x] + s, t) == WithTime(s, t) + (if x.time == t then [x] else [])
  {
    assert ([x] + s)[1..] == s;
    if x.time == t {
      assert AtLeast(s, s[0].time);
      WithTimeNone(s, t);
    }
  }

  /**
   * Python's `sorted(scores, key=lambda x: x["time"])`: an insertion sort.
   * The result is ordered by time and is a permutation of the input;
   * `SortStable` shows that it keeps the input order among equal times.
   */
  function SortByTime(s: seq<Entry>): (r: seq<Entry>)
    ensures SortedByTime(r)
    ensures multiset(r) == multiset(s) && |r| == |s|
    decreases |s|
  {
    if |s| == 0 then []
    else
      var init, last := s[..|s| - 1], s[|s| - 1];
      assert s == init + [last];
      InsertSorted(SortByTime(init), last);
      Insert(SortByTime(init), last)
  }

  /** The sort is stable: for every time, the entries with that time keep their order. */
  lemma {:induction false} SortStable(s: seq<Entry>, t: int)
    ensures WithTime(SortByTime(s), t) == WithTime(s, t)
    decreases |s|
  {
    if |s| > 0 {
      var init, last := s[..|s| - 1], s[|s| - 1];
      assert s == init + [last];
      SortStable(init, t);
      InsertStable(SortByTime(init), last, t);
      WithTimeConcat(init, [last], t);
      assert WithTime([last], t) == (if last.time == t then [last] else []) by {
        assert [last][1..] == [];
      }
    }
  }

  /** No entry of `kept` is slower than an entry of `dropped`. */
  predicate NoSlower(kept: seq<Entry>, dropped: seq<Entry>) {
    forall i, j :: 0 <= i < |kept| && 0 <= j < |dropped| ==> kept[i].time <= dropped[j].time
  }

  /**
   * `kept` is a stable top-`|kept|` selection of `all`: sorted by time, drawn
   * from `all`, no slower than any entry left out, and, for every time, the
   * first of the entries with that time in the order of `all`.
   */
  ghost predicate Fastest(all: seq<Entry>, kept: seq<Entry>) {
    && SortedByTime(kept)
    && multiset(kept) <= multiset(all)
    && (exists dropped :: multiset(kept) + multiset(dropped) == multiset(all) && NoSlower(kept, dropped))
    && (forall t :: WithTime(kept, t) <= WithTime(all, t))
  }

  /** Cutting the stable sort of a list after `n` entries keeps its `n` fastest entries. */
  lemma TruncateSorted(all: seq<Entry>, n: nat)
    requires n <= |all|
    ensures |SortByTime(all)[..n]| == n
    ensures Fastest(all, SortByTime(all)[..n])
  {
    var sorted := SortByTime(all);
    forall t
      ensures WithTime(sorted, t) == WithTime(all, t)
    {
      SortStable(all, t);
    }
    CutKeepsFastest(all, sorted, n);
  }

  /** Any stable sorted permutation of `all`, cut after `n` entries, keeps the `n` fastest. */
  lemma CutKeepsFastest(all: seq<Entry>, sorted: seq<Entry>, n: nat)
    requires SortedByTime(sorted) && multiset(sorted) == multiset(all) && |sorted| == |all|
    requires forall t :: WithTime(sorted, t) == WithTime(all, t)
    requires n <= |sorted|
    ensures Fastest(all, sorted[..n])
  {
    var kept, rest := sorted[..n], sorted[n..];
    assert SortedByTime(kept);
    assert multiset(kept) + multiset(rest) == multiset(all) by {
      assert sorted == kept + rest;
    }
    assert NoSlower(kept, rest) by {
      CutIsNoFaster(sorted, n);
    }
    assert forall t :: WithTime(kept, t) <= WithTime(all, t) by {
      forall t
        ensures WithTime(kept, t) <= WithTime(all, t)
      {
        CutKeepsOrder(sorted, n, t);
      }
    }
  }

  /** In a sorted list, no entry after a cut is faster than one before it. */
  lemma CutIsNoFaster(sorted: seq<Entry>, n: nat)
    requires SortedByTime(sorted) && n <= |sorted|
    ensures NoSlower(sorted[..n], sorted[n..])
  {
    var kept, rest := sorted[..n], sorted[n..];
    forall i, j | 0 <= i < |kept| && 0 <= j < |rest|
      ensures kept[i].time <= rest[j].time
    {
      assert kept[i] == sorted[i] && rest[j] == sorted[n + j];
    }
  }

  /** The entries of one time before a cut are a prefix of that time's entries. */
  lemma CutKeepsOrder(sorted: seq<Entry>, n: nat, t: int)
    requires n <= |sorted|
    ensures WithTime(sorted[..n], t) <= WithTime(sorted, t)
  {
    assert sorted == sorted[..n] + sorted[n..];
    WithTimeConcat(sorted[..n], sorted[n..], t);
  }

  /** `data.get(key, [])`. */
  function Scores(data: Board, key: string): seq<Entry> {
    if key in data then data[key] else []
  }

  /** The stored entry: the initials cut to their first three characters. */
  function NewEntry(initials: string, time: int): (e: Entry)
    ensures |e.initials| == Min(|initials|, INITIALS_LENGTH)
    ensures e.initials <= initials
    ensures e.time == time
  {
    Entry(initials[..Min(|initials|, INITIALS_LENGTH)], time)
  }

  /**
   * `sorted(scores, key=...)[:10]`: the ten fastest entries, kept in a
   * stable order by time.
   */
  function Top(all: seq<Entry>): (kept: seq<Entry>)
    ensures |kept| == Min(|all|, TOP)
    ensures Fastest(all, kept)
  {
    TruncateSorted(all, Min(|all|, TOP));
    SortByTime(all)[..Min(|all|, TOP)]
  }

  /**
   * `Leaderboard.record` without the file: under the size key, the old list
   * plus the new entry, cut to its ten fastest; all other keys are left alone.
   */
  function Record(data: Board, rows: nat, cols: nat, time: int, initials: string): (r: Board)
    ensures r.Keys == data.Keys + {SizeKey(rows, cols)}
    ensures forall k :: k in data && k != SizeKey(rows, cols) ==> r[k] == data[k]
    ensures r[SizeKey(rows, cols)] == Top(Scores(data, SizeKey(rows, cols)) + [NewEntry(initials, time)])
  {
    var key := SizeKey(rows, cols);
    data[key := Top(Scores(data, key) + [NewEntry(initials, time)])]
  }

  /** A list of at most ten entries loses none of them. */
  lemma TopKeepsAllWhileRoom(all: seq<Entry>)
    requires |all| <= TOP
    ensures multiset(Top(all)) == multiset(all)
  {
    var kept := Top(all);
    assert |multiset(kept)| == |multiset(all)|;
    var d := multiset(all) - multiset(kept);
    assert multiset(all) == multiset(kept) + d;
    assert |d| == 0;
  }

  /** While the list for a size has room, the new score is always kept. */
  lemma RecordKeepsNewWhileRoom(data: Board, rows: nat, cols: nat, time: int, initials: string)
    requires |Scores(data, SizeKey(rows, cols))| < TOP
    ensures NewEntry(initials, time) in Record(data, rows, cols, time, initials)[SizeKey(rows, cols)]
  {
    var all := Scores(data, SizeKey(rows, cols)) + [NewEntry(initials, time)];
    TopKeepsAllWhileRoom(all);
    assert NewEntry(initials, time) in multiset(all);
  }

  /** Recording into an empty leaderboard files exactly the one new entry under its key. */
  lemma RecordOnEmpty(rows: nat, cols: nat, time: int, initials: string)
    ensures Record(map[], rows, cols, time, initials) == map[SizeKey(rows, cols) := [NewEntry(initials, time)]]
  {
    var e := NewEntry(initials, time);
    assert Scores(map[], SizeKey(rows, cols)) + [e] == [e];
    assert [e][..0] == [];
    assert SortByTime([e]) == Insert(SortByTime([]), e) == [e];
    assert Top([e]) == [e][..1] == [e];
  }
}
