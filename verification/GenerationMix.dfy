// dbt/models/staging/stg_generation_mix.sql and dbt/models/marts/mart_generation_mix_long.sql:
// the wide-to-long pivot of the eleven fuels and each fuel's share of its half-hour.
module GenerationMix {
  import opened Prelude
  import opened Rows

  datatype Fuel = Gas | Coal | Nuclear | Wind | WindEmb | Hydro | Imports | Biomass | Other | Solar | Storage

  // The branches of the UNION ALL, in order.
  const FUELS: seq<Fuel> := [Gas, Coal, Nuclear, Wind, WindEmb, Hydro, Imports, Biomass, Other, Solar, Storage]

  function Mw(f: Fuels, fuel: Fuel): real {
    match fuel
    case Gas => f.gas
    case Coal => f.coal
    case Nuclear => f.nuclear
    case Wind => f.wind
    case WindEmb => f.windEmbedded
    case Hydro => f.hydro
    case Imports => f.imports
    case Biomass => f.biomass
    case Other => f.other
    case Solar => f.solar
    case Storage => f.storage
  }

  predicate IsRenewable(fuel: Fuel) {
    fuel in {Wind, WindEmb, Hydro, Biomass, Solar}
  }

  datatype Wide = Wide(start: int, fuels: Fuels)
  datatype Long = Long(start: int, fuel: Fuel, mw: real, renewable: bool)

  function LongOf(w: Wide, fuel: Fuel): Long {
    Long(w.start, fuel, Mw(w.fuels, fuel), IsRenewable(fuel))
  }

  // One branch of the UNION ALL.
  function Branch(raw: seq<Wide>, fuel: Fuel): seq<Long> {
    if raw == [] then [] else Branch(Init(raw), fuel) + [LongOf(Last(raw), fuel)]
  }

  function Unpivot(raw: seq<Wide>, fuels: seq<Fuel>): seq<Long> {
    if fuels == [] then [] else Unpivot(raw, Init(fuels)) + Branch(raw, Last(fuels))
  }

  function Staging(raw: seq<Wide>): seq<Long> {
    Unpivot(raw, FUELS)
  }

  // GROUP BY period_start_utc: the group of one period.
  function Group(mix: seq<Long>, start: int): seq<Long> {
    if mix == [] then []
    else Group(Init(mix), start) + if Last(mix).start == start then [Last(mix)] else []
  }

  function Sum(rows: seq<Long>): real {
    if rows == [] then 0.0 else Sum(Init(rows)) + Last(rows).mw
  }

  datatype Shared = Shared(row: Long, share: Option<real>)

  function Percent(mw: real, total: real): real
    requires total > 0.0
  {
    100.0 * mw / total
  }

  function ShareOf(mw: real, total: real): Option<real> {
    if total > 0.0 then Some(Percent(mw, total)) else None
  }

  // The mart over the first rows of mix, totals taken over all of it.
  function Mart(mix: seq<Long>, rows: seq<Long>): seq<Shared> {
    if rows == [] then []
    else Mart(mix, Init(rows)) + [Shared(Last(rows), ShareOf(Last(rows).mw, Sum(Group(mix, Last(rows).start))))]
  }

  // ---- One period is one wide row, spelled out ----

  ghost predicate UniqueStarts(raw: seq<Wide>) {
    forall i, j :: 0 <= i < j < |raw| ==> raw[i].start != raw[j].start
  }

  function Spelled(w: Wide, fuels: seq<Fuel>): (rows: seq<Long>)
    ensures |rows| == |fuels|
  {
    seq(|fuels|, i requires 0 <= i < |fuels| => LongOf(w, fuels[i]))
  }

  lemma {:induction false} GroupConcat(a: seq<Long>, b: seq<Long>, start: int)
    ensures Group(a + b, start) == Group(a, start) + Group(b, start)
  {
    if b == [] {
      assert a + b == a;
    } else {
      assert Init(a + b) == a + Init(b);
      GroupConcat(a, Init(b), start);
    }
  }

  lemma {:induction false} GroupOfBranch(raw: seq<Wide>, fuel: Fuel, start: int)
    requires UniqueStarts(raw)
    ensures (forall i :: 0 <= i < |raw| ==> raw[i].start != start) ==> Group(Branch(raw, fuel), start) == []
    ensures forall i :: 0 <= i < |raw| && raw[i].start == start ==> Group(Branch(raw, fuel), start) == [LongOf(raw[i], fuel)]
  {
    if raw != [] {
      GroupOfBranch(Init(raw), fuel, start);
      assert Init(Branch(raw, fuel)) == Branch(Init(raw), fuel);
      assert forall i :: 0 <= i < |raw| - 1 ==> raw[i] == Init(raw)[i];
    }
  }

  lemma {:induction false} GroupOfUnpivot(raw: seq<Wide>, fuels: seq<Fuel>, i: nat)
    requires UniqueStarts(raw) && i < |raw|
    ensures Group(Unpivot(raw, fuels), raw[i].start) == Spelled(raw[i], fuels)
  {
    if fuels != [] {
      GroupOfUnpivot(raw, Init(fuels), i);
      GroupConcat(Unpivot(raw, Init(fuels)), Branch(raw, Last(fuels)), raw[i].start);
      GroupOfBranch(raw, Last(fuels), raw[i].start);
      assert Spelled(raw[i], fuels) == Spelled(raw[i], Init(fuels)) + [LongOf(raw[i], Last(fuels))];
    }
  }

  lemma {:induction false} StrangeStart(raw: seq<Wide>, fuels: seq<Fuel>, start: int)
    requires UniqueStarts(raw) && forall i :: 0 <= i < |raw| ==> raw[i].start != start
    ensures Group(Unpivot(raw, fuels), start) == []
  {
    if fuels != [] {
      StrangeStart(raw, Init(fuels), start);
      GroupConcat(Unpivot(raw, Init(fuels)), Branch(raw, Last(fuels)), start);
      GroupOfBranch(raw, Last(fuels), start);
    }
  }

  // The rows of one period, branch by branch of the UNION ALL.
  function ElevenRows(w: Wide): seq<Long> {
    [Long(w.start, Gas, w.fuels.gas, false),
     Long(w.start, Coal, w.fuels.coal, false),
     Long(w.start, Nuclear, w.fuels.nuclear, false),
     Long(w.start, Wind, w.fuels.wind, true),
     Long(w.start, WindEmb, w.fuels.windEmbedded, true),
     Long(w.start, Hydro, w.fuels.hydro, true),
     Long(w.start, Imports, w.fuels.imports, false),
     Long(w.start, Biomass, w.fuels.biomass, true),
     Long(w.start, Other, w.fuels.other, false),
     Long(w.start, Solar, w.fuels.solar, true),
     Long(w.start, Storage, w.fuels.storage, false)]
  }

  lemma SpelledOut(w: Wide)
    ensures Spelled(w, FUELS) == ElevenRows(w)
  {
  }

  // Every period of the raw table has exactly its eleven rows, one per fuel with its megawatts and
  // flag, and no other period has any.
  lemma ElevenRowsPerPeriod(raw: seq<Wide>, start: int)
    requires UniqueStarts(raw)
    ensures forall i :: 0 <= i < |raw| && raw[i].start == start ==>
                          Group(Staging(raw), start) == ElevenRows(raw[i])
    ensures (forall i :: 0 <= i < |raw| ==> raw[i].start != start) ==> Group(Staging(raw), start) == []
  {
    forall i | 0 <= i < |raw| && raw[i].start == start
      ensures Group(Staging(raw), start) == ElevenRows(raw[i])
    {
      GroupOfUnpivot(raw, FUELS, i);
      SpelledOut(raw[i]);
    }
    if forall i :: 0 <= i < |raw| ==> raw[i].start != start {
      StrangeStart(raw, FUELS, start);
    }
  }

  // ---- Back from long to wide ----

  // sum(mw) filter (where fuel = ..)
  function MwOf(rows: seq<Long>, fuel: Fuel): real {
    if rows == [] then 0.0 else MwOf(Init(rows), fuel) + if Last(rows).fuel == fuel then Last(rows).mw else 0.0
  }

  function Regroup(mix: seq<Long>, start: int): Wide {
    var g := Group(mix, start);
    Wide(start, Fuels(MwOf(g, Gas), MwOf(g, Coal), MwOf(g, Nuclear), MwOf(g, Wind), MwOf(g, WindEmb), MwOf(g, Hydro),
                      MwOf(g, Imports), MwOf(g, Biomass), MwOf(g, Other), MwOf(g, Solar), MwOf(g, Storage)))
  }

  lemma {:induction false} MwOfSpelled(w: Wide, fuels: seq<Fuel>, fuel: Fuel)
    requires forall i, j :: 0 <= i < j < |fuels| ==> fuels[i] != fuels[j]
    ensures MwOf(Spelled(w, fuels), fuel) == if fuel in fuels then Mw(w.fuels, fuel) else 0.0
  {
    if fuels != [] {
      MwOfSpelled(w, Init(fuels), fuel);
      assert Init(Spelled(w, fuels)) == Spelled(w, Init(fuels));
      assert fuel in fuels <==> fuel in Init(fuels) || fuel == Last(fuels);
    }
  }

  // The round trip: regrouping the long rows of a period gives back its wide row.
  lemma RegroupRecovers(raw: seq<Wide>, i: nat)
    requires UniqueStarts(raw) && i < |raw|
    ensures Regroup(Staging(raw), raw[i].start) == raw[i]
  {
    GroupOfUnpivot(raw, FUELS, i);
    forall fuel: Fuel
      ensures MwOf(Spelled(raw[i], FUELS), fuel) == Mw(raw[i].fuels, fuel)
    {
      MwOfSpelled(raw[i], FUELS, fuel);
      EveryFuelListed(fuel);
    }
  }

  lemma EveryFuelListed(fuel: Fuel)
    ensures fuel in FUELS
  {
    match fuel
    case Gas => assert FUELS[0] == fuel;
    case Coal => assert FUELS[1] == fuel;
    case Nuclear => assert FUELS[2] == fuel;
    case Wind => assert FUELS[3] == fuel;
    case WindEmb => assert FUELS[4] == fuel;
    case Hydro => assert FUELS[5] == fuel;
    case Imports => assert FUELS[6] == fuel;
    case Biomass => assert FUELS[7] == fuel;
    case Other => assert FUELS[8] == fuel;
    case Solar => assert FUELS[9] == fuel;
    case Storage => assert FUELS[10] == fuel;
  }

  // ---- Shares ----

  function AllFuels(f: Fuels): real {
    f.gas + f.coal + f.nuclear + f.wind + f.windEmbedded + f.hydro + f.imports + f.biomass + f.other + f.solar + f.storage
  }

  lemma SumSpelledStep(w: Wide, n: nat)
    requires n < |FUELS|
    ensures Sum(Spelled(w, FUELS[..n + 1])) == Sum(Spelled(w, FUELS[..n])) + Mw(w.fuels, FUELS[n])
  {
    assert Init(Spelled(w, FUELS[..n + 1])) == Spelled(w, FUELS[..n]);
  }

  lemma SumOfPeriod(w: Wide)
    ensures Sum(Spelled(w, FUELS)) == AllFuels(w.fuels)
  {
    hide Sum, Spelled;
    SumSpelledStep(w, 0);
    SumSpelledStep(w, 1);
    SumSpelledStep(w, 2);
    SumSpelledStep(w, 3);
    SumSpelledStep(w, 4);
    SumSpelledStep(w, 5);
    SumSpelledStep(w, 6);
    SumSpelledStep(w, 7);
    SumSpelledStep(w, 8);
    SumSpelledStep(w, 9);
    SumSpelledStep(w, 10);
    assert Sum(Spelled(w, FUELS[..0])) == 0.0 by {
      NothingSpelled(w);
    }
    assert FUELS[..11] == FUELS;
  }

  lemma NothingSpelled(w: Wide)
    ensures Sum(Spelled(w, FUELS[..0])) == 0.0
  {
  }

  function SharesOf(mart: seq<Shared>, start: int): seq<Option<real>> {
    if mart == [] then []
    else SharesOf(Init(mart), start) + if Last(mart).row.start == start then [Last(mart).share] else []
  }

  function SumShares(shares: seq<Option<real>>): real {
    if shares == [] then 0.0 else SumShares(Init(shares)) + if Last(shares).Some? then Last(shares).value else 0.0
  }

  lemma {:induction false} SharesOfMart(mix: seq<Long>, rows: seq<Long>, start: int)
    ensures var total := Sum(Group(mix, start));
            var shares := SharesOf(Mart(mix, rows), start);
            && |shares| == |Group(rows, start)|
            && (total > 0.0 ==> SumShares(shares) == Percent(Sum(Group(rows, start)), total))
            && forall i :: 0 <= i < |shares| ==> (shares[i].Some? <==> total > 0.0)
  {
    hide Percent, SumShares, Sum, Group, Mart, SharesOf;
    var total := Sum(Group(mix, start));
    if total > 0.0 {
      NoPercent(total);
    }
    if rows == [] {
      NoShares(mix, rows, start);
    } else {
      SharesOfMart(mix, Init(rows), start);
      MartStep(mix, rows, start);
      if Last(rows).start == start {
        StepSums(SharesOf(Mart(mix, Init(rows)), start), ShareOf(Last(rows).mw, total), Group(Init(rows), start), Last(rows));
        if total > 0.0 {
          PercentAdds(Sum(Group(Init(rows), start)), Last(rows).mw, total);
        }
      }
    }
  }

  // What the last row adds to its period, and to no other.
  lemma MartStep(mix: seq<Long>, rows: seq<Long>, start: int)
    requires rows != []
    ensures var here := Last(rows).start == start;
            var before := SharesOf(Mart(mix, Init(rows)), start);
            && SharesOf(Mart(mix, rows), start) ==
               (if here then before + [ShareOf(Last(rows).mw, Sum(Group(mix, start)))] else before)
            && Group(rows, start) == if here then Group(Init(rows), start) + [Last(rows)] else Group(Init(rows), start)
  {
    assert Init(Mart(mix, rows)) == Mart(mix, Init(rows));
  }

  lemma NoShares(mix: seq<Long>, rows: seq<Long>, start: int)
    requires rows == []
    ensures SharesOf(Mart(mix, rows), start) == [] && SumShares([]) == 0.0
    ensures Group(rows, start) == [] && Sum([]) == 0.0
  {
  }

  lemma StepSums(shares: seq<Option<real>>, share: Option<real>, rows: seq<Long>, row: Long)
    ensures SumShares(shares + [share]) == SumShares(shares) + if share.Some? then share.value else 0.0
    ensures Sum(rows + [row]) == Sum(rows) + row.mw
  {
    assert Init(shares + [share]) == shares;
    assert Init(rows + [row]) == rows;
  }

  lemma PercentAdds(a: real, b: real, t: real)
    requires t > 0.0
    ensures Percent(a + b, t) == Percent(a, t) + Percent(b, t)
  {
  }

  lemma NoPercent(t: real)
    requires t > 0.0
    ensures Percent(0.0, t) == 0.0 && Percent(t, t) == 100.0
  {
  }

  // Per period the eleven shares add up to exactly 100 when the eleven fuels, storage included
  // whatever its sign, total more than zero, and are all null otherwise.
  lemma SharesAddUp(raw: seq<Wide>, i: nat)
    requires UniqueStarts(raw) && i < |raw|
    ensures var shares := SharesOf(Mart(Staging(raw), Staging(raw)), raw[i].start);
            && |shares| == 11
            && (AllFuels(raw[i].fuels) > 0.0 ==> SumShares(shares) == 100.0 && forall k :: 0 <= k < 11 ==> shares[k].Some?)
            && (AllFuels(raw[i].fuels) <= 0.0 ==> forall k :: 0 <= k < 11 ==> shares[k].None?)
  {
    var mix, start := Staging(raw), raw[i].start;
    ElevenRowsPerPeriod(raw, start);
    SpelledOut(raw[i]);
    SumOfPeriod(raw[i]);
    SharesOfMart(mix, mix, start);
    if AllFuels(raw[i].fuels) > 0.0 {
      NoPercent(AllFuels(raw[i].fuels));
    }
  }

  lemma {:induction false} MartMeans(mix: seq<Long>, rows: seq<Long>, x: Shared)
    ensures x in Mart(mix, rows) <==> x.row in rows && x.share == ShareOf(x.row.mw, Sum(Group(mix, x.row.start)))
  {
    hide ShareOf, Sum, Group;
    if rows != [] {
      MartMeans(mix, Init(rows), x);
      assert x.row in rows <==> x.row in Init(rows) || x.row == Last(rows);
    }
  }

  lemma {:induction false} GroupHolds(mix: seq<Long>, row: Long)
    ensures row in Group(mix, row.start) <==> row in mix
  {
    if mix != [] {
      GroupHolds(Init(mix), row);
      assert row in mix <==> row in Init(mix) || row == Last(mix);
    }
  }

  // The mart, row by row: it holds each of the eleven rows of each period and no other, with 100
  // times its megawatts over the period's total as its share, null unless that total is positive.
  lemma ShareOfEachFuel(raw: seq<Wide>, x: Shared)
    requires UniqueStarts(raw)
    ensures x in Mart(Staging(raw), Staging(raw)) <==>
            exists i :: 0 <= i < |raw| && x.row in ElevenRows(raw[i]) &&
                        var total := AllFuels(raw[i].fuels);
                        x.share == if total > 0.0 then Some(100.0 * x.row.mw / total) else None
  {
    hide Staging, Mart, Sum, AllFuels, ElevenRows;
    var mix := Staging(raw);
    MartMeans(mix, mix, x);
    GroupHolds(mix, x.row);
    ElevenRowsPerPeriod(raw, x.row.start);
    forall i | 0 <= i < |raw|
      ensures x.row in ElevenRows(raw[i]) ==> x.row.start == raw[i].start
      ensures Sum(ElevenRows(raw[i])) == AllFuels(raw[i].fuels)
    {
      if x.row in ElevenRows(raw[i]) {
        RowsOfStart(raw[i], x.row);
      }
      SpelledOut(raw[i]);
      SumOfPeriod(raw[i]);
    }
  }

  lemma RowsOfStart(w: Wide, row: Long)
    requires row in ElevenRows(w)
    ensures row.start == w.start
  {
  }
}
