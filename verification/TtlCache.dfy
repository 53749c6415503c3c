// gridpulse/api/cache.py: cache keys, the TTL cache under them, and one wrapper call.
module TtlCache {
  import opened Prelude
  import opened Sorting
  import opened Names

  // ---- Keys ----

  // Hashable Python values: ints, strings, datetimes, and the (name, value) tuples that keyword
  // arguments turn into.
  datatype Value = Int(n: int) | Str(s: string) | Time(t: int) | Pair(name: string, value: Value)

  datatype Keyword = Keyword(name: string, value: Value)

  // A call of the cached function: keyword arguments in the order they were written.
  datatype Call = Call(func: string, args: seq<Value>, kwargs: seq<Keyword>)

  datatype CacheKey = CacheKey(func: string, parts: seq<Value>)

  predicate ByName(a: Keyword, b: Keyword) {
    NameLess(a.name, b.name)
  }

  // tuple(sorted(kwargs.items()))
  function Items(kwargs: seq<Keyword>): (items: seq<Value>)
    ensures |items| == |kwargs|
    ensures forall i :: 0 <= i < |items| ==> items[i].Pair?
  {
    var sorted := Sort(ByName, kwargs);
    seq(|sorted|, i requires 0 <= i < |sorted| => Pair(sorted[i].name, sorted[i].value))
  }

  function HashableKey(args: seq<Value>, kwargs: seq<Keyword>): seq<Value> {
    args + Items(kwargs)
  }

  function KeyOf(c: Call): CacheKey {
    CacheKey(c.func, HashableKey(c.args, c.kwargs))
  }

  // Python refuses a repeated keyword.
  ghost predicate WellFormed(c: Call) {
    forall i, j :: 0 <= i < j < |c.kwargs| ==> c.kwargs[i].name != c.kwargs[j].name
  }

  // The order in which keyword arguments are written does not reach the key.
  lemma KeywordOrderIgnored(c1: Call, c2: Call)
    requires WellFormed(c1) && WellFormed(c2)
    requires c1.func == c2.func && c1.args == c2.args && multiset(c1.kwargs) == multiset(c2.kwargs)
    ensures KeyOf(c1) == KeyOf(c2)
  {
    KeywordsUntied(c1);
    KeywordsUntied(c2);
    SortIgnoresArrival(ByName, c1.kwargs, c2.kwargs);
  }

  lemma KeywordsUntied(c: Call)
    requires WellFormed(c)
    ensures StrictOrder(ByName) && NoTies(ByName, c.kwargs)
  {
    forall a: Keyword
      ensures !ByName(a, a)
    {
      NameLessIrreflexive(a.name);
    }
    forall x: Keyword, y: Keyword, z: Keyword | ByName(x, y) && ByName(y, z)
      ensures ByName(x, z)
    {
      NameLessTransitive(x.name, y.name, z.name);
    }
    forall i, j | 0 <= i < j < |c.kwargs|
      ensures ByName(c.kwargs[i], c.kwargs[j]) || ByName(c.kwargs[j], c.kwargs[i])
    {
      NameLessTotal(c.kwargs[i].name, c.kwargs[j].name);
    }
  }

  // What the key of a call is: its function, its positional arguments as they are, then one tuple per
  // keyword argument, by name, character by character.
  lemma KeyMeans(c: Call)
    requires WellFormed(c)
    ensures KeyOf(c).func == c.func && |KeyOf(c).parts| == |c.args| + |c.kwargs|
    ensures KeyOf(c).parts[..|c.args|] == c.args
    ensures var items := KeyOf(c).parts[|c.args|..];
            && (forall kw :: kw in c.kwargs ==> Pair(kw.name, kw.value) in items)
            && (forall i :: 0 <= i < |items| ==> items[i].Pair? && Keyword(items[i].name, items[i].value) in c.kwargs)
            && (forall i, j :: 0 <= i < j < |items| ==> ComesBefore(items[i].name, items[j].name))
  {
    hide ComesBefore;
    KeywordsUntied(c);
    SortSorts(ByName, c.kwargs);
    var sorted, items := Sort(ByName, c.kwargs), Items(c.kwargs);
    assert KeyOf(c).parts[|c.args|..] == items;
    forall kw | kw in c.kwargs
      ensures Pair(kw.name, kw.value) in items
    {
      var i :| 0 <= i < |sorted| && sorted[i] == kw;
      assert items[i] == Pair(kw.name, kw.value);
    }
    forall i | 0 <= i < |items|
      ensures Keyword(items[i].name, items[i].value) in c.kwargs
    {
      assert sorted[i] in sorted && sorted[i] == Keyword(items[i].name, items[i].value);
    }
    forall i, j | 0 <= i < j < |items|
      ensures ComesBefore(items[i].name, items[j].name)
    {
      assert ByName(sorted[i], sorted[j]);
      NameLessMeans(sorted[i].name, sorted[j].name);
    }
  }

  // Two calls share a key exactly when the surplus keyword arguments of one, as tuples, are the
  // last positional arguments of the other.
  lemma KeysEqualExactlyWhen(c1: Call, c2: Call)
    requires |c1.kwargs| <= |c2.kwargs|
    ensures var surplus := |c2.kwargs| - |c1.kwargs|;
            KeyOf(c1) == KeyOf(c2) <==>
            c1.func == c2.func && c1.args == c2.args + Items(c2.kwargs)[..surplus] && Items(c1.kwargs) == Items(c2.kwargs)[surplus..]
  {
    var i1, i2 := Items(c1.kwargs), Items(c2.kwargs);
    var surplus := |i2| - |i1|;
    assert c2.args + i2 == (c2.args + i2[..surplus]) + i2[surplus..];
    if c1.args + i1 == c2.args + i2 {
      SameEnds(c1.args, i1, c2.args + i2[..surplus], i2[surplus..]);
    }
  }

  lemma SameEnds(a: seq<Value>, b: seq<Value>, x: seq<Value>, y: seq<Value>)
    requires a + b == x + y && |b| == |y|
    ensures a == x && b == y
  {
    assert |a| == |x|;
    assert a == (a + b)[..|a|] && x == (x + y)[..|x|];
    assert b == (a + b)[|a|..] && y == (x + y)[|x|..];
  }

  // The call has positional arguments only, the last of them not a tuple.
  ghost predicate Positional(c: Call) {
    c.kwargs == [] && (c.args == [] || !Last(c.args).Pair?)
  }

  lemma PositionalKeysNeverCollide(c1: Call, c2: Call)
    requires Positional(c1) && KeyOf(c1) == KeyOf(c2)
    ensures c1 == c2
  {
    hide Items, HashableKey, KeyOf;
    KeysEqualExactlyWhen(c1, c2);
    var items := Items(c2.kwargs);
    assert c2.args + items[..|items|] == c2.args + items;
    NoTuplesLeft(c1.args, c2.args, items);
  }

  lemma NoTuplesLeft(args: seq<Value>, front: seq<Value>, items: seq<Value>)
    requires args == front + items
    requires forall i :: 0 <= i < |items| ==> items[i].Pair?
    requires args == [] || !Last(args).Pair?
    ensures items == [] && args == front
  {
    if items != [] {
      TupleAtTheEnd(args, front, items);
    }
  }

  lemma TupleAtTheEnd(args: seq<Value>, front: seq<Value>, items: seq<Value>)
    requires args == front + items && items != [] && Last(items).Pair?
    ensures args != [] && Last(args).Pair?
  {
  }

  // Passing the keyword arguments as tuples instead gives the same key, and so does passing a last
  // tuple as a keyword argument.
  lemma TwinCall(c: Call) returns (twin: Call)
    requires !Positional(c)
    ensures twin != c && KeyOf(twin) == KeyOf(c)
  {
    assert Items([]) == [];
    if c.kwargs != [] {
      twin := Call(c.func, c.args + Items(c.kwargs), []);
      assert twin.args + [] == twin.args;
    } else {
      var pair := Last(c.args);
      twin := Call(c.func, Init(c.args), [Keyword(pair.name, pair.value)]);
      OneItem(twin.kwargs[0]);
      assert c.args == Init(c.args) + [pair];
      assert c.args + [] == c.args;
    }
  }

  lemma OneItem(kw: Keyword)
    ensures Items([kw]) == [Pair(kw.name, kw.value)]
  {
    assert Init([kw]) == [] && Last([kw]) == kw;
    assert Sort(ByName, [kw]) == [kw];
  }

  // A call shares its key with no other call whatever exactly when it has positional arguments
  // only, the last of them not a tuple.
  lemma KeyUnsharedExactlyWhen(c: Call)
    ensures (forall c2 :: KeyOf(c2) == KeyOf(c) ==> c2 == c) <==> Positional(c)
  {
    hide Items, HashableKey, KeyOf;
    if Positional(c) {
      forall c2 | KeyOf(c2) == KeyOf(c)
        ensures c2 == c
      {
        PositionalKeysNeverCollide(c, c2);
      }
    } else {
      var twin := TwinCall(c);
    }
  }

  // ---- The cache ----

  datatype Entry<V> = Entry(value: V, expires: int)

  type Entries<V> = map<CacheKey, Entry<V>>

  datatype Config = Config(maxsize: nat, ttl: nat)

  const CURRENT := Config(256, 30)
  const RANGE := Config(128, 120)

  predicate Live<V>(es: Entries<V>, k: CacheKey, now: int) {
    k in es && now < es[k].expires
  }

  function Unexpired<V>(es: Entries<V>, now: int): Entries<V> {
    map k | k in es && now < es[k].expires :: es[k]
  }

  // Whether storing k must evict: the cache is full of live entries, and k is not one of them.
  predicate Full<V>(cfg: Config, es: Entries<V>, k: CacheKey, now: int) {
    k !in Unexpired(es, now) && |Unexpired(es, now)| >= cfg.maxsize
  }

  // cache[k] = v: expired entries go, then a victim if the cache is full.
  function Stored<V>(cfg: Config, es: Entries<V>, k: CacheKey, v: V, now: int, victim: CacheKey): Entries<V> {
    (Unexpired(es, now) - if Full(cfg, es, k, now) then {victim} else {})[k := Entry(v, now + cfg.ttl)]
  }

  // The victim is whichever entry the cache picks.
  predicate MayEvict<V>(cfg: Config, es: Entries<V>, k: CacheKey, now: int, victim: CacheKey) {
    Full(cfg, es, k, now) ==> victim in Unexpired(es, now)
  }

  lemma StoredFits<V>(cfg: Config, es: Entries<V>, k: CacheKey, v: V, now: int, victim: CacheKey)
    requires cfg.maxsize >= 1 && |es| <= cfg.maxsize && MayEvict(cfg, es, k, now, victim)
    ensures |Stored(cfg, es, k, v, now, victim)| <= cfg.maxsize
  {
    hide Full;
    var live := Unexpired(es, now);
    var room := live - if Full(cfg, es, k, now) then {victim} else {};
    assert live.Keys <= es.Keys;
    Subset(live.Keys, es.Keys);
    FullMeans(cfg, es, k, now);
    assert room.Keys == live.Keys - if Full(cfg, es, k, now) then {victim} else {};
    KeyCount(es);
    KeyCount(live);
    AddedKey(room, k, Entry(v, now + cfg.ttl));
    KeyCount(room);
  }

  // Entry by entry: after a store the key holds the new value for the next ttl seconds, expired
  // entries are gone, and of the others at most the victim is, and that only from a full cache.
  lemma StoredMeans<V>(cfg: Config, es: Entries<V>, k: CacheKey, v: V, now: int, victim: CacheKey, j: CacheKey,
                       t: int)
    requires t >= now
    ensures var after := Stored(cfg, es, k, v, now, victim);
            && (Live(after, k, t) <==> t < now + cfg.ttl)
            && k in after && after[k].value == v
            && (j != k ==> (j in after <==> Live(es, j, now) && !(Full(cfg, es, k, now) && j == victim)))
            && (j != k && j in after ==> after[j] == es[j])
    ensures Live(es, k, now) || |set i | i in es && now < es[i].expires| < cfg.maxsize ==> !Full(cfg, es, k, now)
  {
    var live := set i | i in es && now < es[i].expires;
    assert Unexpired(es, now).Keys == live;
    KeyCount(Unexpired(es, now));
  }

  lemma FullMeans<V>(cfg: Config, es: Entries<V>, k: CacheKey, now: int)
    ensures Full(cfg, es, k, now) <==> k !in Unexpired(es, now) && |Unexpired(es, now)| >= cfg.maxsize
  {
  }

  lemma KeyCount<V>(es: Entries<V>)
    ensures |es| == |es.Keys|
  {
  }

  lemma AddedKey<V>(es: Entries<V>, k: CacheKey, e: Entry<V>)
    ensures |es[k := e]| == |es| + if k in es then 0 else 1
  {
    assert es[k := e].Keys == es.Keys + {k};
    KeyCount(es);
    KeyCount(es[k := e]);
  }

  lemma {:induction false} Subset<T>(a: set<T>, b: set<T>)
    requires a <= b
    ensures |a| <= |b|
  {
    if a != {} {
      var x :| x in a;
      Subset(a - {x}, b - {x});
    }
  }

  datatype Answer<V> = Returned(value: V) | KeyError | QueryFailed

  class Cache<V> {
    const cfg: Config
    var entries: Entries<V>

    ghost predicate Valid()
      reads this
    {
      cfg.maxsize >= 1 && |entries| <= cfg.maxsize
    }

    constructor (cfg: Config)
      requires cfg.maxsize >= 1
      ensures this.cfg == cfg && entries == map[] && Valid()
    {
      this.cfg := cfg;
      entries := map[];
    }

    method Contains(k: CacheKey, now: int) returns (r: bool)
      ensures r == Live(entries, k, now)
    {
      r := k in entries && now < entries[k].expires;
    }

    // None is a KeyError.
    method Get(k: CacheKey, now: int) returns (r: Option<V>)
      ensures r == if Live(entries, k, now) then Some(entries[k].value) else None
    {
      if k in entries && now < entries[k].expires {
        r := Some(entries[k].value);
      } else {
        r := None;
      }
    }

    method Set(k: CacheKey, v: V, now: int) returns (ghost victim: CacheKey)
      requires Valid()
      modifies this
      ensures Valid()
      ensures MayEvict(cfg, old(entries), k, now, victim)
      ensures entries == Stored(cfg, old(entries), k, v, now, victim)
    {
      hide Stored;
      var live := Unexpired(entries, now);
      victim := k;
      if k !in live && |live| >= cfg.maxsize {
        assert live.Keys != {} by {
          assert |live| == |live.Keys|;
        }
        var chosen :| chosen in live.Keys;
        victim := chosen;
        live := live - {chosen};
      }
      StoredFits(cfg, entries, k, v, now, victim);
      StoredIs(cfg, entries, k, v, now, victim, live);
      entries := live[k := Entry(v, now + cfg.ttl)];
    }

    method Clear()
      modifies this
      ensures entries == map[]
    {
      entries := map[];
    }

    // One wrapper call with nothing in between; `check`, `read` and `store` are the clock at
    // the membership test, the subscript and the assignment. `query` is None when it raises.
    method Wrapper(call: Call, query: Call -> Option<V>, check: int, read: int, store: int) returns (r: Answer<V>)
      requires Valid()
      modifies this
      ensures Valid()
      ensures Live(old(entries), KeyOf(call), check) ==>
                && entries == old(entries)
                && r == if Live(old(entries), KeyOf(call), read) then Returned(old(entries)[KeyOf(call)].value) else KeyError
      ensures !Live(old(entries), KeyOf(call), check) && query(call).None? ==> entries == old(entries) && r == QueryFailed
      ensures !Live(old(entries), KeyOf(call), check) && query(call).Some? ==>
                && r == Returned(query(call).value)
                && exists victim :: MayEvict(cfg, old(entries), KeyOf(call), store, victim) &&
                                    entries == Stored(cfg, old(entries), KeyOf(call), query(call).value, store, victim)
    {
      hide KeyOf, Stored, MayEvict;
      var key := KeyOf(call);
      var hit := Contains(key, check);
      if hit {
        var value := Get(key, read);
        return if value.Some? then Returned(value.value) else KeyError;
      }
      var result := query(call);
      if result.None? {
        return QueryFailed;
      }
      var _ := Set(key, result.value, store);
      r := Returned(result.value);
    }
  }

  lemma StoredIs<V>(cfg: Config, es: Entries<V>, k: CacheKey, v: V, now: int, victim: CacheKey, room: Entries<V>)
    requires room == if Full(cfg, es, k, now) then Unexpired(es, now) - {victim} else Unexpired(es, now)
    ensures Stored(cfg, es, k, v, now, victim) == room[k := Entry(v, now + cfg.ttl)]
  {
  }

  // The two caches of the process, as the module declares them.
  class Caches<V> {
    const current: Cache<V>
    const range: Cache<V>

    constructor ()
      ensures current.cfg == Config(256, 30) && range.cfg == Config(128, 120) && current != range
      ensures current.Valid() && range.Valid() && current.entries == map[] && range.entries == map[]
    {
      var c := new Cache<V>(CURRENT);
      var r := new Cache<V>(RANGE);
      current, range := c, r;
    }

    method ClearAll()
      modifies current, range
      ensures current.entries == map[] && range.entries == map[]
    {
      current.Clear();
      range.Clear();
    }
  }
}
