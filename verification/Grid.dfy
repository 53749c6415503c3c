// The half-hour grid: settlement periods start on multiples of 1800 seconds.
module Grid {
  import opened Prelude

  function GridPoints(lo: int, hi: int): set<int> {
    set t | lo <= t < hi && t % 1800 == 0
  }

  lemma {:induction false} GridFrom(lo: int, n: nat)
    requires lo % 1800 == 0
    ensures |GridPoints(lo, lo + 1800 * n)| == n
  {
    if n == 0 {
      assert GridPoints(lo, lo) == {};
    } else {
      var hi := lo + 1800 * (n - 1);
      GridFrom(lo, n - 1);
      forall t | hi <= t < hi + 1800
        ensures t % 1800 == 0 <==> t == hi
      {
      }
      assert GridPoints(lo, hi + 1800) == GridPoints(lo, hi) + {hi};
    }
  }

  // Whatever the instant, the next n half-hours' worth of time holds exactly n grid points:
  // 48 in any 24 hours, 672 in any 14 days.
  lemma HalfHoursIn(now: int, n: nat)
    ensures |GridPoints(now, now + 1800 * n)| == n
  {
    var p := (now + 1799) / 1800;
    var lo := 1800 * p;
    GridFrom(lo, n);
    forall t | t % 1800 == 0
      ensures now <= t <==> lo <= t
      ensures t < now + 1800 * n <==> t < lo + 1800 * n
    {
      var q := t / 1800;
      assert t == 1800 * q;
      assert now <= t <==> p <= q;
      assert t < now + 1800 * n <==> q < p + n;
    }
    assert GridPoints(now, now + 1800 * n) == GridPoints(lo, lo + 1800 * n);
  }

  // How many of the starts are off the grid.
  function OffGrid(starts: seq<int>): (n: nat)
    ensures n == 0 <==> forall i :: 0 <= i < |starts| ==> starts[i] % 1800 == 0
  {
    if starts == [] then 0 else OffGrid(Init(starts)) + if Last(starts) % 1800 == 0 then 0 else 1
  }

  lemma {:induction false} DistinctFit(starts: seq<int>, room: set<int>)
    requires forall i :: 0 <= i < |starts| && starts[i] % 1800 == 0 ==> starts[i] in room
    requires forall i, j :: 0 <= i < j < |starts| ==> starts[i] != starts[j]
    ensures |starts| <= |room| + OffGrid(starts)
  {
    if starts != [] {
      DistinctFit(Init(starts), if Last(starts) % 1800 == 0 then room - {Last(starts)} else room);
    }
  }

  // Of distinct starts inside n half-hours' worth of time, at most n are on the grid.
  lemma FitsGrid(starts: seq<int>, lo: int, n: nat)
    requires forall i :: 0 <= i < |starts| ==> lo <= starts[i] < lo + 1800 * n
    requires forall i, j :: 0 <= i < j < |starts| ==> starts[i] != starts[j]
    ensures |starts| <= n + OffGrid(starts)
  {
    HalfHoursIn(lo, n);
    DistinctFit(starts, GridPoints(lo, lo + 1800 * n));
  }
}
