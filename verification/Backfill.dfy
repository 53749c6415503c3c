// scripts/backfill_carbon_intensity.py: history appended to the cold carbon table in windows
// of at most 14 days.
module Backfill {
  import opened Prelude
  import opened Rows
  import opened ColdStore

  const CHUNK := 14 * 86400

  // The API as one run sees it: the rows of a window.
  type Api = (int, int) -> seq<Row>

  datatype Window = Window(lo: int, hi: int)

  function ChunkEnd(cursor: int, end: int): int {
    if cursor + CHUNK < end then cursor + CHUNK else end
  }

  function Windows(cursor: int, end: int): seq<Window>
    decreases end - cursor
  {
    if cursor >= end then []
    else [Window(cursor, ChunkEnd(cursor, end))] + Windows(ChunkEnd(cursor, end), end)
  }

  function Fetched(api: Api, windows: seq<Window>): seq<Row> {
    if windows == [] then []
    else Fetched(api, Init(windows)) + api(Last(windows).lo, Last(windows).hi)
  }

  // Where the loop stands once n windows are appended.
  function CursorAfter(windows: seq<Window>, start: int, n: nat): int
    requires n <= |windows|
  {
    if n == 0 then start else windows[n - 1].hi
  }

  // `budget` is the number of windows the process lives to append.
  method RunBackfill(table: IcebergTable, startDay: int, endDay: int, api: Api, budget: nat)
    returns (total: nat, cursor: int)
    modifies table
    ensures var windows := Windows(DayStart(startDay), DayStart(endDay));
            var n := Least(budget, |windows|);
            && table.Bag() == old(table.Bag()) + multiset(Fetched(api, windows[..n]))
            && total == |Fetched(api, windows[..n])|
            && cursor == CursorAfter(windows, DayStart(startDay), n)
  {
    hide DayStart, Windows, Fetched;
    NoWindowsYet(api, DayStart(startDay), DayStart(endDay));
    ghost var windows := Windows(DayStart(startDay), DayStart(endDay));
    total := 0;
    cursor := DayStart(startDay);
    var end := DayStart(endDay);
    var left := budget;
    ghost var n := 0;
    while cursor < end && left > 0
      invariant n <= |windows| && n + left == budget
      invariant windows[n..] == Windows(cursor, end)
      invariant cursor == CursorAfter(windows, DayStart(startDay), n)
      invariant table.Bag() == old(table.Bag()) + multiset(Fetched(api, windows[..n]))
      invariant total == |Fetched(api, windows[..n])|
      decreases left
    {
      var chunkEnd := ChunkEnd(cursor, end);
      var rows := api(cursor, chunkEnd);
      NextWindow(api, windows, n, cursor, end);
      if |rows| > 0 {
        table.Append(rows);
        total := total + |rows|;
      }
      cursor := chunkEnd;
      left := left - 1;
      n := n + 1;
    }
    NoWindowsLeft(cursor, end);
    assert |windows| == n + |windows[n..]|;
  }

  lemma NoWindowsYet(api: Api, start: int, end: int)
    ensures Fetched(api, Windows(start, end)[..0]) == []
  {
  }

  lemma NoWindowsLeft(cursor: int, end: int)
    ensures cursor >= end ==> Windows(cursor, end) == []
  {
  }

  // One turn of the loop, at window n.
  lemma NextWindow(api: Api, windows: seq<Window>, n: nat, cursor: int, end: int)
    requires n <= |windows| && windows[n..] == Windows(cursor, end) && cursor < end
    ensures n < |windows| && windows[n] == Window(cursor, ChunkEnd(cursor, end))
    ensures windows[n + 1..] == Windows(ChunkEnd(cursor, end), end)
    ensures Fetched(api, windows[..n + 1]) == Fetched(api, windows[..n]) + api(cursor, ChunkEnd(cursor, end))
  {
    assert windows[n] == windows[n..][0];
    assert windows[n + 1..] == windows[n..][1..];
    assert Init(windows[..n + 1]) == windows[..n];
  }

  // ---- The windows ----

  // Windows are non-empty, 14 days long but for a last one that may be shorter, contiguous, and cover
  // [start, end) exactly.
  ghost predicate Tile(windows: seq<Window>, start: int, end: int) {
    && (forall i :: 0 <= i < |windows| ==> windows[i].lo < windows[i].hi <= windows[i].lo + 14 * 86400)
    && (forall i :: 0 <= i < |windows| - 1 ==> windows[i].hi == windows[i].lo + 14 * 86400)
    && (forall i :: 0 < i < |windows| ==> windows[i].lo == windows[i - 1].hi)
    && (windows == [] ==> start >= end)
    && (windows != [] ==> windows[0].lo == start && Last(windows).hi == end)
  }

  lemma {:induction false} WindowsTile(start: int, end: int)
    ensures Tile(Windows(start, end), start, end)
    decreases end - start
  {
    if start < end {
      var next := ChunkEnd(start, end);
      WindowsTile(next, end);
      var windows, rest := Windows(start, end), Windows(next, end);
      assert forall i :: 0 < i < |windows| ==> windows[i] == rest[i - 1];
      assert rest != [] ==> next < end;
    }
  }

  // How many windows an instant lies in.
  function Holding(windows: seq<Window>, t: int): nat {
    if windows == [] then 0
    else (if windows[0].lo <= t < windows[0].hi then 1 else 0) + Holding(windows[1..], t)
  }

  // Every instant of [start, end) lies in exactly one window, and no other instant in any.
  lemma {:induction false} OneWindowPerInstant(start: int, end: int, t: int)
    ensures Holding(Windows(start, end), t) == if start <= t < end then 1 else 0
    decreases end - start
  {
    if start < end {
      OneWindowPerInstant(ChunkEnd(start, end), end, t);
      assert Windows(start, end)[1..] == Windows(ChunkEnd(start, end), end);
    }
  }

  // ---- What is appended ----

  // The API answers every window with exactly the rows of `all` that start in it.
  ghost predicate Faithful(api: Api, all: multiset<Row>) {
    forall lo, hi :: lo < hi ==> multiset(api(lo, hi)) == Within(all, lo, hi)
  }

  lemma WithinSplits(all: multiset<Row>, lo: int, mid: int, hi: int)
    requires lo <= mid <= hi
    ensures Within(all, lo, mid) + Within(all, mid, hi) == Within(all, lo, hi)
  {
    forall r: Row
      ensures (Within(all, lo, mid) + Within(all, mid, hi))[r] == Within(all, lo, hi)[r]
    {
    }
  }

  lemma EmptyRange(all: multiset<Row>, lo: int)
    ensures Within(all, lo, lo) == multiset{}
  {
    assert forall r: Row :: Within(all, lo, lo)[r] == 0;
  }

  // After n windows the table has gained exactly the rows between the start and the cursor.
  lemma {:induction false} AppendedUpToCursor(api: Api, all: multiset<Row>, start: int, end: int, n: nat)
    requires Faithful(api, all) && n <= |Windows(start, end)|
    ensures var windows := Windows(start, end);
            && start <= CursorAfter(windows, start, n)
            && multiset(Fetched(api, windows[..n])) == Within(all, start, CursorAfter(windows, start, n))
  {
    hide Within, IsWithin, Windows;
    var windows := Windows(start, end);
    WindowsTile(start, end);
    if n == 0 {
      EmptyRange(all, start);
    } else {
      AppendedUpToCursor(api, all, start, end, n - 1);
      var w := windows[n - 1];
      assert Init(windows[..n]) == windows[..n - 1] && Last(windows[..n]) == w;
      assert w.lo == CursorAfter(windows, start, n - 1);
      WithinSplits(all, start, w.lo, w.hi);
    }
  }

  lemma CompleteBackfill(api: Api, all: multiset<Row>, start: int, end: int)
    requires Faithful(api, all) && start <= end
    ensures multiset(Fetched(api, Windows(start, end))) == Within(all, start, end)
  {
    hide Within, IsWithin, Windows, Fetched;
    var windows := Windows(start, end);
    WindowsTile(start, end);
    AppendedUpToCursor(api, all, start, end, |windows|);
    assert windows[..|windows|] == windows;
    if windows == [] {
      EmptyRange(all, start);
    }
  }

  // Splitting the range between two runs, at any midnight, appends what one run would.
  lemma SplitBackfill(api: Api, all: multiset<Row>, start: int, mid: int, end: int)
    requires Faithful(api, all) && start <= mid <= end
    ensures multiset(Fetched(api, Windows(start, mid))) + multiset(Fetched(api, Windows(mid, end))) ==
            multiset(Fetched(api, Windows(start, end)))
  {
    hide Within, IsWithin, Windows, Fetched;
    CompleteBackfill(api, all, start, mid);
    CompleteBackfill(api, all, mid, end);
    CompleteBackfill(api, all, start, end);
    WithinSplits(all, start, mid, end);
  }

  // A run that died after n windows, completed by a second one started at `resume`: together
  // they append what one run would exactly when no row lies between the cursor and `resume`.
  // Resuming at the cursor is always right; earlier repeats rows, later leaves them out.
  lemma ResumedBackfill(api: Api, all: multiset<Row>, start: int, end: int, n: nat, resume: int)
    requires Faithful(api, all) && start <= resume <= end && n <= |Windows(start, end)|
    ensures var windows := Windows(start, end);
            var cursor := CursorAfter(windows, start, n);
            multiset(Fetched(api, windows[..n])) + multiset(Fetched(api, Windows(resume, end))) ==
            multiset(Fetched(api, windows))
            <==> Within(all, cursor, resume) == multiset{} && Within(all, resume, cursor) == multiset{}
  {
    hide Within, IsWithin, Windows, Fetched;
    var windows := Windows(start, end);
    var cursor := CursorAfter(windows, start, n);
    AppendedUpToCursor(api, all, start, end, n);
    CompleteBackfill(api, all, resume, end);
    CompleteBackfill(api, all, start, end);
    if cursor <= resume {
      WithinSplits(all, start, cursor, resume);
      WithinSplits(all, start, resume, end);
      ReversedRange(all, cursor, resume);
      Cancel(Within(all, start, cursor), Within(all, cursor, resume), Within(all, resume, end));
    } else {
      WithinSplits(all, start, resume, cursor);
      WithinSplits(all, start, resume, end);
      ReversedRange(all, resume, cursor);
      Cancel(Within(all, start, resume), Within(all, resume, cursor), Within(all, resume, end));
    }
  }

  lemma ReversedRange(all: multiset<Row>, lo: int, hi: int)
    requires lo <= hi
    ensures Within(all, hi, lo) == multiset{}
  {
    assert forall r: Row :: Within(all, hi, lo)[r] == 0;
  }

  lemma Cancel(a: multiset<Row>, gap: multiset<Row>, b: multiset<Row>)
    ensures a + gap + b == a + b <==> gap == multiset{}
  {
    if a + gap + b == a + b {
      forall r: Row
        ensures gap[r] == 0
      {
        assert (a + gap + b)[r] == (a + b)[r];
      }
    }
  }
}
