/**
 The PNG cache (common/RenderTiles.hpp, class PngCache) as functions: what balancing does to the
 cached images for a given iteration order of the hash table, and how wire ids are handed out.
 The class itself is in `PngCaches`.
*/
module PngCacheSpec {

  import opened Arithmetic
  import opened Wrappers

  /** The 64-bit hash of a tile; 0 means that there is none. */
  type Hash = nat

  const TWO_TO_THE_32: nat := 0x1_0000_0000

  type WireId = x: int | 0 <= x < TWO_TO_THE_32

  const SOFT_LIMIT: nat := 1024 * 4 * 32
  const HARD_LIMIT: nat := 2 * SOFT_LIMIT
  const WID_HARD_LIMIT: nat := 4096

  datatype Entry = Entry(hitCount: nat, wireId: WireId, data: seq<byte>)

  type Cache = map<Hash, Entry>

  type WireIds = map<Hash, WireId>

  // ----- sums over a table ------------------------------------------------------------------

  /** The sum of all values. */
  ghost function Total(m: map<Hash, nat>): nat
    decreases |m|
  {
    if m == map[] then 0
    else
      var h :| h in m;
      m[h] + Total(m - {h})
  }

  /** Whatever key is taken out first. */
  lemma {:induction false} TotalWithout(m: map<Hash, nat>, h: Hash)
    requires h in m
    ensures Total(m) == m[h] + Total(m - {h})
    decreases |m|
  {
    var g :| g in m && Total(m) == m[g] + Total(m - {g});
    if g != h {
      TotalWithout(m - {g}, h);
      TotalWithout(m - {h}, g);
      assert m - {g} - {h} == m - {h} - {g};
    }
  }

  ghost function Sizes(cache: Cache): map<Hash, nat> {
    map h | h in cache :: |cache[h].data|
  }

  ghost function Hits(cache: Cache): map<Hash, nat> {
    map h | h in cache :: cache[h].hitCount
  }

  /** The bytes held by the cache. */
  ghost function TotalSize(cache: Cache): nat {
    Total(Sizes(cache))
  }

  ghost function TotalHits(cache: Cache): nat {
    Total(Hits(cache))
  }

  lemma {:induction false} SizeWithout(cache: Cache, h: Hash)
    requires h in cache
    ensures TotalSize(cache) == |cache[h].data| + TotalSize(cache - {h})
  {
    TotalWithout(Sizes(cache), h);
    assert Sizes(cache) - {h} == Sizes(cache - {h});
  }

  /** Changing a hit count changes no size. */
  lemma {:induction false} SizeWithHits(cache: Cache, h: Hash, n: nat)
    requires h in cache
    ensures TotalSize(cache[h := cache[h].(hitCount := n)]) == TotalSize(cache)
  {
    assert Sizes(cache[h := cache[h].(hitCount := n)]) == Sizes(cache);
  }

  lemma {:induction false} SizeWith(cache: Cache, h: Hash, e: Entry)
    requires h !in cache
    ensures TotalSize(cache[h := e]) == TotalSize(cache) + |e.data|
  {
    SizeWithout(cache[h := e], h);
    assert cache[h := e] - {h} == cache;
  }

  lemma {:induction false} NothingCached(cache: Cache)
    requires cache == map[]
    ensures TotalSize(cache) == 0
  {
    assert Sizes(cache) == map[];
  }

  // ----- iteration orders -------------------------------------------------------------------

  /** `order` lists some of the keys, none twice. */
  ghost predicate Lists(order: seq<Hash>, keys: set<Hash>) {
    && (forall i, j :: 0 <= i < j < |order| ==> order[i] != order[j])
    && (forall h :: h in order ==> h in keys)
  }

  /** `order` lists every key once: an order in which a hash table may be iterated. */
  ghost predicate IsOrder(order: seq<Hash>, keys: set<Hash>) {
    Lists(order, keys) && forall h :: h in keys ==> h in order
  }

  // ----- lookups ----------------------------------------------------------------------------

  /** A lookup counts one use more of the image if it is cached. */
  function Hit(cache: Cache, h: Hash): Cache {
    if h in cache then cache[h := cache[h].(hitCount := cache[h].hitCount + 1)] else cache
  }

  // ----- balancing the images ---------------------------------------------------------------

  datatype Images = Images(cache: Cache, size: nat) {
    /** _cacheSize is the number of bytes held. */
    ghost predicate Valid() {
      size == TotalSize(cache)
    }
  }

  /** Whether the sweep drops an entry with this hit count when `size` bytes are still held. */
  predicate Evicts(hitCount: nat, size: nat, avgHits: nat) {
    || (size > SOFT_LIMIT && hitCount == 0)
    || (size > HARD_LIMIT && 0 < hitCount <= avgHits)
  }

  function Age(e: Entry): Entry {
    if e.hitCount > 0 then e.(hitCount := e.hitCount - 1) else e
  }

  /** One step of the sweep. */
  function SweepOne(s: Images, h: Hash, avgHits: nat): (r: Images)
    requires s.Valid() && h in s.cache
    ensures r.Valid()
  {
    SizeWithout(s.cache, h);
    var e := s.cache[h];
    if Evicts(e.hitCount, s.size, avgHits) then Images(s.cache - {h}, s.size - |e.data|)
    else
      SizeWithHits(s.cache, h, Age(e).hitCount);
      assert e.(hitCount := Age(e).hitCount) == Age(e);
      Images(s.cache[h := Age(e)], s.size)
  }

  lemma {:induction false} SweepOneMeans(s: Images, h: Hash, avgHits: nat)
    requires s.Valid() && h in s.cache
    ensures var e := s.cache[h];
            SweepOne(s, h, avgHits) ==
            if Evicts(e.hitCount, s.size, avgHits) then Images(s.cache - {h}, s.size - |e.data|)
            else Images(s.cache[h := Age(e)], s.size)
    ensures |s.cache[h].data| <= s.size
    ensures SweepOne(s, h, avgHits).Valid()
  {
    SizeWithout(s.cache, h);
  }

  /** The entries not yet visited are as they were. */
  ghost predicate Untouched(was: Cache, now: Cache, visited: seq<Hash>) {
    forall h :: h in was && h !in visited ==> h in now && now[h] == was[h]
  }

  /** The sweep after visiting the entries in `order`. */
  function Sweep(s: Images, order: seq<Hash>, avgHits: nat): (r: Images)
    requires s.Valid() && Lists(order, s.cache.Keys)
    ensures r.Valid()
    ensures Untouched(s.cache, r.cache, order)
    decreases |order|
  {
    if order == [] then s
    else
      var n := |order| - 1;
      var p := Sweep(s, order[..n], avgHits);
      assert order[n] in order && order[n] !in order[..n];
      assert order == order[..n] + [order[n]];
      SweepOne(p, order[n], avgHits)
  }

  lemma {:induction false} SweepStep(s: Images, order: seq<Hash>, h: Hash, avgHits: nat)
    requires s.Valid() && Lists(order, s.cache.Keys)
    requires h in s.cache && h !in order
    ensures Lists(order + [h], s.cache.Keys)
    ensures var p := Sweep(s, order, avgHits);
            h in p.cache && Sweep(s, order + [h], avgHits) == SweepOne(p, h, avgHits)
  {
    hide TotalSize, SweepOne;
    assert (order + [h])[..|order|] == order;
  }

  lemma {:induction false} SweepNothing(s: Images, avgHits: nat)
    requires s.Valid()
    ensures Sweep(s, [], avgHits) == s
  {
  }

  function AverageHits(cache: Cache, totalHits: nat): nat
    requires |cache| > 0
  {
    totalHits / |cache|
  }

  /** A cache that holds any bytes has an entry: the average is defined. */
  lemma {:induction false} NonEmpty(s: Images)
    requires s.Valid() && s.size > 0
    ensures |s.cache| > 0
  {
    if s.cache == map[] {
      NothingCached(s.cache);
    }
  }

  /** balanceCache, the part about images. */
  ghost function Balanced(s: Images, order: seq<Hash>): (r: Images)
    requires s.Valid() && IsOrder(order, s.cache.Keys)
    ensures r.Valid()
  {
    if s.size > HARD_LIMIT then
      NonEmpty(s);
      Sweep(s, order, AverageHits(s.cache, TotalHits(s.cache)))
    else s
  }

  /** What an entry that survived has become: used once less, or still unused. */
  ghost predicate AgedFrom(was: Cache, now: Cache) {
    && now.Keys <= was.Keys
    && forall h :: h in now ==> now[h] == Age(was[h])
  }

  /** What is known of the sweep when it has visited `seen`: the visited entries that are left are
      the old ones aged once, only entries with at most average hits were dropped, and as long as the
      size is above the hard limit all of those were dropped. */
  ghost predicate SweptTo(s: Images, r: Images, seen: seq<Hash>, avgHits: nat) {
    && r.cache.Keys <= s.cache.Keys && r.size <= s.size
    && (forall h :: h in seen ==> h in s.cache)
    && (forall h :: h in r.cache && h in seen ==> r.cache[h] == Age(s.cache[h]))
    && (forall h :: h in s.cache && h !in r.cache ==> s.cache[h].hitCount <= avgHits)
    && (r.size > HARD_LIMIT ==> forall h :: h in seen ==> (h in r.cache <==> s.cache[h].hitCount > avgHits))
  }

  lemma {:induction false} SweptOneMore(s: Images, p: Images, h: Hash, seen: seq<Hash>, avgHits: nat)
    requires p.Valid() && SweptTo(s, p, seen, avgHits)
    requires h in s.cache && h !in seen && h in p.cache && p.cache[h] == s.cache[h]
    ensures SweptTo(s, SweepOne(p, h, avgHits), seen + [h], avgHits)
  {
    hide TotalSize;
    var r := SweepOne(p, h, avgHits);
    forall g | g in seen + [h] ensures g == h || g in seen {
    }
  }

  lemma {:induction false} SweepIsExact(s: Images, order: seq<Hash>, avgHits: nat)
    requires s.Valid() && Lists(order, s.cache.Keys)
    ensures SweptTo(s, Sweep(s, order, avgHits), order, avgHits)
    decreases |order|
  {
    hide TotalSize, SweptTo, SweepOne;
    if order == [] {
      SweptNothing(s, avgHits);
    } else {
      var before, h := order[..|order| - 1], order[|order| - 1];
      assert order == before + [h];
      SweepIsExact(s, before, avgHits);
      assert h in order && h !in before;
      SweptOneMore(s, Sweep(s, before, avgHits), h, before, avgHits);
    }
  }

  lemma {:induction false} SweptNothing(s: Images, avgHits: nat)
    ensures SweptTo(s, s, [], avgHits)
  {
  }

  lemma {:induction false} TotalAboveAll(m: map<Hash, nat>, a: nat)
    requires forall h :: h in m ==> m[h] >= a
    ensures Total(m) >= a * |m|
    decreases |m|
  {
    if m == map[] {
    } else {
      var h :| h in m;
      TotalWithout(m, h);
      var rest := m - {h};
      assert rest.Keys == m.Keys - {h};
      TotalAboveAll(rest, a);
      OneMore(a, |rest|);
    }
  }

  /** Some entry has at most average hits. */
  lemma {:induction false} AverageIsReached(cache: Cache)
    requires |cache| > 0
    ensures exists h :: h in cache && cache[h].hitCount <= AverageHits(cache, TotalHits(cache))
  {
    var t, n := TotalHits(cache), |cache|;
    var a := AverageHits(cache, t);
    assert Hits(cache).Keys == cache.Keys;
    if forall h :: h in cache ==> cache[h].hitCount > a {
      TotalAboveAll(Hits(cache), a + 1);
      BelowNext(t, n);
    }
  }

  lemma {:induction false} BelowNext(t: nat, n: nat)
    requires n > 0
    ensures t < (t / n + 1) * n
  {
    assert t == (t / n) * n + t % n;
  }

  /** Balancing, for any iteration order of the table.  Below the hard limit nothing happens.  Above
      it at least one entry goes, none that was used more than average goes, every entry that stays
      has aged by one use (never below zero), and the size afterwards is the size of what is left:
      at most the hard limit, or else exactly the entries used more than average are left. */
  lemma {:induction false} BalanceShrinks(s: Images, order: seq<Hash>)
    requires s.Valid() && IsOrder(order, s.cache.Keys)
    ensures var r := Balanced(s, order);
            && r.Valid() && r.size <= s.size
            && (s.size <= HARD_LIMIT ==> r == s)
            && (s.size > HARD_LIMIT ==>
                  && |s.cache| > 0
                  && var avgHits := AverageHits(s.cache, TotalHits(s.cache));
                  && AgedFrom(s.cache, r.cache)
                  && |r.cache| < |s.cache|
                  && (forall h :: h in s.cache && s.cache[h].hitCount > avgHits ==> h in r.cache)
                  && (r.size <= HARD_LIMIT ||
                        forall h :: h in s.cache ==> (h in r.cache <==> s.cache[h].hitCount > avgHits)))
  {
    hide TotalSize, TotalHits, Sweep;
    if s.size > HARD_LIMIT {
      NonEmpty(s);
      var avgHits := AverageHits(s.cache, TotalHits(s.cache));
      SweepIsExact(s, order, avgHits);
      assert forall h :: h in s.cache ==> h in order;
      AverageIsReached(s.cache);
      var r := Balanced(s, order);
      var low :| low in s.cache && s.cache[low].hitCount <= avgHits;
      if r.cache.Keys == s.cache.Keys {
        AgingKeepsData(s.cache, r.cache);
        assert false;
      }
      KeysShrink(r.cache.Keys, s.cache.Keys);
    }
  }

  lemma {:induction false} KeysShrink(a: set<Hash>, b: set<Hash>)
    requires a <= b && a != b
    ensures |a| < |b|
  {
    var x :| x in b && x !in a;
    KeysSubset(a, b - {x});
  }

  lemma {:induction false} KeysSubset(a: set<Hash>, b: set<Hash>)
    requires a <= b
    ensures |a| <= |b|
    decreases |a|
  {
    if a == {} {
    } else {
      var x :| x in a;
      KeysSubset(a - {x}, b - {x});
    }
  }

  /** Balancing again and again, whatever the iteration order is each time. */
  ghost predicate Rounds(rounds: seq<Images>) {
    && (forall i :: 0 <= i < |rounds| ==> rounds[i].Valid())
    && (forall i :: 0 < i < |rounds| ==> BalancedFrom(rounds[i - 1], rounds[i]))
  }

  ghost predicate BalancedFrom(s: Images, r: Images)
    requires s.Valid()
  {
    exists order :: IsOrder(order, s.cache.Keys) && r == Balanced(s, order)
  }

  /** As many rounds as there were entries bring the size to the hard limit or below. */
  lemma {:induction false} RoundsReachTheLimit(rounds: seq<Images>)
    requires Rounds(rounds)
    requires |rounds| > 0 && |rounds| - 1 >= |rounds[0].cache|
    ensures rounds[|rounds| - 1].size <= HARD_LIMIT
  {
    hide Balanced, TotalSize;
    RoundsShrink(rounds, |rounds| - 1);
    var last := rounds[|rounds| - 1];
    if last.size > HARD_LIMIT {
      NonEmpty(last);
    }
  }

  lemma {:induction false} RoundsShrink(rounds: seq<Images>, n: nat)
    requires Rounds(rounds) && n < |rounds|
    ensures rounds[n].size <= HARD_LIMIT || |rounds[n].cache| + n <= |rounds[0].cache|
    decreases n
  {
    hide Balanced, TotalSize, TotalHits, AverageHits;
    if n > 0 {
      RoundsShrink(rounds, n - 1);
      var s, r := rounds[n - 1], rounds[n];
      assert BalancedFrom(s, r);
      var order :| IsOrder(order, s.cache.Keys) && r == Balanced(s, order);
      BalanceShrinks(s, order);
    }
  }

  // ----- which images go --------------------------------------------------------------------

  /** The bytes still held when the entries `seen` have been visited, if `now` is what is left in the end. */
  ghost function Held(was: Cache, now: Cache, seen: seq<Hash>): nat {
    TotalSize(NotDropped(was, now, seen))
  }

  ghost function NotDropped(was: Cache, now: Cache, seen: seq<Hash>): Cache {
    map h | h in was && (h in now || h !in seen) :: was[h]
  }

  /** The `k`-th entry visited goes just if it is unused and the bytes still held are above the soft limit,
      or if it was used, but not more than average, and they are above the hard limit. */
  ghost predicate WellJudged(was: Cache, now: Cache, order: seq<Hash>, k: nat, avgHits: nat)
    requires k < |order| && order[k] in was
  {
    var hits, held := was[order[k]].hitCount, Held(was, now, order[..k]);
    order[k] !in now <==> if hits == 0 then held > SOFT_LIMIT else held > HARD_LIMIT && hits <= avgHits
  }

  ghost predicate AllWellJudged(was: Cache, now: Cache, order: seq<Hash>, avgHits: nat)
    requires Lists(order, was.Keys)
  {
    forall k :: 0 <= k < |order| ==> WellJudged(was, now, order, k, avgHits)
  }

  /** What is held depends only on which of the visited entries are left, and on no hit count. */
  lemma {:induction false} HeldIs(was: Cache, now: Cache, other: Cache, seen: seq<Hash>)
    requires now.Keys <= was.Keys && other.Keys <= was.Keys
    requires forall h :: h in seen ==> (h in now <==> h in other)
    ensures Held(was, now, seen) == Held(was, other, seen)
  {
    assert NotDropped(was, now, seen) == NotDropped(was, other, seen);
  }

  lemma {:induction false} HeldByAged(was: Cache, p: Cache, now: Cache, seen: seq<Hash>)
    requires p.Keys <= was.Keys && now.Keys <= was.Keys && SameData(was, p)
    requires forall h :: h in was && h !in seen ==> h in p
    requires forall h :: h in seen ==> (h in now <==> h in p)
    ensures Held(was, now, seen) == TotalSize(p)
  {
    var m := NotDropped(was, now, seen);
    assert m.Keys == p.Keys;
    assert Sizes(m) == Sizes(p);
  }

  ghost predicate SameData(was: Cache, now: Cache) {
    forall h :: h in now ==> h in was && now[h].data == was[h].data
  }

  lemma {:induction false} SweepKeepsData(s: Images, order: seq<Hash>, avgHits: nat)
    requires s.Valid() && Lists(order, s.cache.Keys)
    ensures SameData(s.cache, Sweep(s, order, avgHits).cache)
  {
    hide TotalSize, Sweep;
    SweepIsExact(s, order, avgHits);
    var r := Sweep(s, order, avgHits);
    assert SweptTo(s, r, order, avgHits) && Untouched(s.cache, r.cache, order);
  }

  /** One entry more. */
  lemma {:induction false} JudgedOne(s: Images, p: Images, before: seq<Hash>, h: Hash, avgHits: nat)
    requires p.Valid() && h in s.cache && h !in before && h in p.cache && p.cache[h] == s.cache[h]
    requires SameData(s.cache, p.cache) && Untouched(s.cache, p.cache, before)
    ensures WellJudged(s.cache, SweepOne(p, h, avgHits).cache, before + [h], |before|, avgHits)
    ensures forall g :: g != h ==> (g in SweepOne(p, h, avgHits).cache <==> g in p.cache)
  {
    hide TotalSize, Held;
    var r := SweepOne(p, h, avgHits);
    assert (before + [h])[..|before|] == before;
    HeldByAged(s.cache, p.cache, r.cache, before);
  }

  lemma {:induction false} SweepJudgesWell(s: Images, order: seq<Hash>, avgHits: nat)
    requires s.Valid() && Lists(order, s.cache.Keys)
    ensures AllWellJudged(s.cache, Sweep(s, order, avgHits).cache, order, avgHits)
    decreases |order|
  {
    hide TotalSize, SweepOne, Held;
    if order != [] {
      var before, h := order[..|order| - 1], order[|order| - 1];
      assert order == before + [h];
      var p := Sweep(s, before, avgHits);
      SweepJudgesWell(s, before, avgHits);
      SweepKeepsData(s, before, avgHits);
      SweepKeepsData(s, order, avgHits);
      assert h in order && h !in before;
      JudgedOne(s, p, before, h, avgHits);
      JudgedStay(s.cache, p.cache, Sweep(s, order, avgHits).cache, before, h, avgHits);
    }
  }

  lemma {:induction false} JudgedStay(was: Cache, p: Cache, now: Cache, before: seq<Hash>, h: Hash, avgHits: nat)
    requires Lists(before + [h], was.Keys) && Lists(before, was.Keys) && now.Keys <= was.Keys && p.Keys <= was.Keys
    requires AllWellJudged(was, p, before, avgHits)
    requires WellJudged(was, now, before + [h], |before|, avgHits)
    requires forall g :: g != h ==> (g in now <==> g in p)
    ensures AllWellJudged(was, now, before + [h], avgHits)
  {
    hide Held;
    var order := before + [h];
    forall k | 0 <= k < |before| ensures WellJudged(was, now, order, k, avgHits) {
      assert WellJudged(was, p, before, k, avgHits);
      assert order[..k] == before[..k];
      assert order[k] != order[|before|];
      forall g | g in order[..k] ensures g != h {
        var i :| 0 <= i < k && order[i] == g;
        assert order[i] != order[|before|];
      }
      HeldIs(was, p, now, order[..k]);
    }
  }

  /** One order and these rules leave only one choice. */
  lemma {:induction false} JudgedAlike(was: Cache, now: Cache, other: Cache, order: seq<Hash>, n: nat, avgHits: nat)
    requires Lists(order, was.Keys) && n <= |order| && now.Keys <= was.Keys && other.Keys <= was.Keys
    requires AllWellJudged(was, now, order, avgHits) && AllWellJudged(was, other, order, avgHits)
    ensures forall k :: 0 <= k < n ==> (order[k] in now <==> order[k] in other)
  {
    hide Held;
    if n > 0 {
      JudgedAlike(was, now, other, order, n - 1, avgHits);
      HeldIs(was, now, other, order[..n - 1]);
      assert WellJudged(was, now, order, n - 1, avgHits) && WellJudged(was, other, order, n - 1, avgHits);
    }
  }

  /** What balancing may come to, said without the sweep: above the hard limit, some order of the entries in
      which each is judged by the bytes still held, and what stays ages by one use; else no change. */
  lemma {:induction false} BalancedExactly(s: Images, r: Images)
    requires s.Valid()
    ensures BalancedFrom(s, r) <==>
            if s.size <= HARD_LIMIT then r == s
            else
              && r.Valid() && |s.cache| > 0 && AgedFrom(s.cache, r.cache)
              && exists order :: IsOrder(order, s.cache.Keys) &&
                   AllWellJudged(s.cache, r.cache, order, AverageHits(s.cache, TotalHits(s.cache)))
  {
    hide TotalSize, TotalHits, Sweep, AllWellJudged;
    var some := SomeOrder(s.cache.Keys);
    if s.size <= HARD_LIMIT {
      assert Balanced(s, some) == s;
    } else {
      NonEmpty(s);
      var avgHits := AverageHits(s.cache, TotalHits(s.cache));
      if BalancedFrom(s, r) {
        var order :| IsOrder(order, s.cache.Keys) && r == Balanced(s, order);
        BalanceShrinks(s, order);
        SweepJudgesWell(s, order, avgHits);
      }
      if r.Valid() && AgedFrom(s.cache, r.cache) {
        forall order | IsOrder(order, s.cache.Keys) && AllWellJudged(s.cache, r.cache, order, avgHits)
          ensures r == Balanced(s, order)
        {
          JudgedIsBalanced(s, r, order, avgHits);
        }
      }
    }
  }

  lemma {:induction false} JudgedIsBalanced(s: Images, r: Images, order: seq<Hash>, avgHits: nat)
    requires s.Valid() && s.size > HARD_LIMIT && r.Valid() && AgedFrom(s.cache, r.cache)
    requires |s.cache| > 0 && avgHits == AverageHits(s.cache, TotalHits(s.cache))
    requires IsOrder(order, s.cache.Keys) && AllWellJudged(s.cache, r.cache, order, avgHits)
    ensures r == Balanced(s, order)
  {
    hide TotalSize, TotalHits, Sweep, AllWellJudged;
    var q := Balanced(s, order);
    BalanceShrinks(s, order);
    SweepJudgesWell(s, order, avgHits);
    JudgedAlike(s.cache, r.cache, q.cache, order, |order|, avgHits);
    forall h | h in s.cache ensures h in r.cache <==> h in q.cache {
      var k :| 0 <= k < |order| && order[k] == h;
    }
    assert r.cache.Keys == q.cache.Keys;
    assert r.cache == q.cache;
  }

  /** Every set of keys can be listed. */
  ghost function SomeOrder(keys: set<Hash>): (order: seq<Hash>)
    ensures IsOrder(order, keys)
    decreases |keys|
  {
    if keys == {} then []
    else
      var h :| h in keys;
      SomeOrder(keys - {h}) + [h]
  }

  /** No more goes than has to: with the image dropped last the size would still be above the soft limit.
      And what stays is at most that, or all that stays was in use. */
  lemma {:induction false} BalanceDropsNoMore(s: Images, r: Images)
    requires s.Valid() && BalancedFrom(s, r) && s.size > HARD_LIMIT
    ensures WouldExceed(s.cache, r.cache, r.size)
    ensures r.size <= SOFT_LIMIT || AllInUse(s.cache, r.cache)
  {
    hide TotalSize, TotalHits, Balanced, AllWellJudged, BalancedFrom, WouldExceed, AllInUse;
    BalancedExactly(s, r);
    SomethingGoes(s, r);
    var avgHits := AverageHits(s.cache, TotalHits(s.cache));
    var order :| IsOrder(order, s.cache.Keys) && AllWellJudged(s.cache, r.cache, order, avgHits);
    var h :| h in s.cache && h !in r.cache;
    var k :| 0 <= k < |order| && order[k] == h;
    LastWouldExceed(s.cache, r.cache, order, LastDropped(order, r.cache, k, |order|), avgHits);
    if r.size > SOFT_LIMIT {
      UnusedWouldGo(s.cache, r.cache, order, avgHits);
    }
  }

  lemma {:induction false} LastWouldExceed(was: Cache, now: Cache, order: seq<Hash>, l: nat, avgHits: nat)
    requires IsOrder(order, was.Keys) && AllWellJudged(was, now, order, avgHits) && AgedFrom(was, now)
    requires l < |order| && order[l] !in now && forall i :: l < i < |order| ==> order[i] in now
    ensures WouldExceed(was, now, TotalSize(now))
  {
    hide TotalSize, Held;
    assert WellJudged(was, now, order, l, avgHits);
    HeldByLast(was, now, order, l);
  }

  lemma {:induction false} UnusedWouldGo(was: Cache, now: Cache, order: seq<Hash>, avgHits: nat)
    requires IsOrder(order, was.Keys) && AllWellJudged(was, now, order, avgHits) && AgedFrom(was, now)
    requires TotalSize(now) > SOFT_LIMIT
    ensures AllInUse(was, now)
  {
    hide TotalSize, Held;
    forall g | g in now ensures g in was && was[g].hitCount > 0 {
      var i :| 0 <= i < |order| && order[i] == g;
      assert WellJudged(was, now, order, i, avgHits);
      HeldAtLeast(was, now, order[..i]);
    }
  }

  /** With one more of the images the size would be above the soft limit. */
  ghost predicate WouldExceed(was: Cache, now: Cache, size: nat) {
    exists h :: h in was && h !in now && size + |was[h].data| > SOFT_LIMIT
  }

  ghost predicate AllInUse(was: Cache, now: Cache) {
    forall h :: h in now ==> h in was && was[h].hitCount > 0
  }

  lemma {:induction false} SomethingGoes(s: Images, r: Images)
    requires s.Valid() && BalancedFrom(s, r) && s.size > HARD_LIMIT
    ensures exists h :: h in s.cache && h !in r.cache
  {
    hide TotalSize, TotalHits, Balanced;
    var order :| IsOrder(order, s.cache.Keys) && r == Balanced(s, order);
    BalanceShrinks(s, order);
    assert s.cache.Keys != r.cache.Keys;
  }

  /** The last of the first `n` entries that is dropped, if the `k`-th is. */
  ghost function LastDropped(order: seq<Hash>, now: Cache, k: nat, n: nat): (l: nat)
    requires k < n <= |order| && order[k] !in now
    ensures l < n && order[l] !in now && forall i :: l < i < n ==> order[i] in now
  {
    if order[n - 1] !in now then n - 1 else LastDropped(order, now, k, n - 1)
  }

  lemma {:induction false} HeldByLast(was: Cache, now: Cache, order: seq<Hash>, l: nat)
    requires IsOrder(order, was.Keys) && AgedFrom(was, now) && l < |order| && order[l] !in now
    requires forall i :: l < i < |order| ==> order[i] in now
    ensures Held(was, now, order[..l]) == TotalSize(now) + |was[order[l]].data|
  {
    hide TotalSize;
    var h := order[l];
    var m := NotDropped(was, now, order[..l]);
    forall g | g in was && g != h && g !in now ensures g in order[..l] {
      var i :| 0 <= i < |order| && order[i] == g;
      assert order[..l][i] == g;
    }
    assert h in m by {
      assert h !in order[..l];
    }
    SizeWithout(m, h);
    AgingKeepsData(m - {h}, now);
  }

  lemma {:induction false} AgingKeepsData(was: Cache, now: Cache)
    requires now.Keys == was.Keys && SameData(was, now)
    ensures TotalSize(was) == TotalSize(now)
  {
    assert Sizes(was) == Sizes(now);
  }

  lemma {:induction false} HeldAtLeast(was: Cache, now: Cache, seen: seq<Hash>)
    requires AgedFrom(was, now)
    ensures Held(was, now, seen) >= TotalSize(now)
  {
    var m := NotDropped(was, now, seen);
    MoreIsBigger(Sizes(now), Sizes(m));
  }

  lemma {:induction false} MoreIsBigger(a: map<Hash, nat>, b: map<Hash, nat>)
    requires a.Keys <= b.Keys && forall h :: h in a ==> a[h] == b[h]
    ensures Total(a) <= Total(b)
    decreases |a|
  {
    if a != map[] {
      var h :| h in a;
      TotalWithout(a, h);
      TotalWithout(b, h);
      assert |a - {h}| < |a| by {
        assert (a - {h}).Keys == a.Keys - {h};
      }
      MoreIsBigger(a - {h}, b - {h});
    }
  }

  /** Examples with the sizes in bytes.  Of three unused images that together hold one byte more than the
      hard limit, the sweep drops those it visits first until it is at the soft limit. */
  lemma {:induction false} UnusedGoFirst(a: seq<byte>, b: seq<byte>, c: seq<byte>)
    requires |a| == |b| == 131072 && |c| == 1
    ensures var s := Images(map[1 := Entry(0, 2, a), 2 := Entry(0, 3, b), 3 := Entry(0, 4, c)], 262145);
            && s.Valid() && IsOrder([1, 2, 3], s.cache.Keys)
            && Balanced(s, [1, 2, 3]) == Images(map[3 := Entry(0, 4, c)], 1)
  {
    hide TotalSize, TotalHits, Sweep, SweepOne;
    var (e, f, g) := (Entry(0, 2, a), Entry(0, 3, b), Entry(0, 4, c));
    var s := Images(map[1 := e, 2 := f, 3 := g], 262145);
    ThreeImages(e, f, g);
    var avgHits := AverageHits(s.cache, TotalHits(s.cache));
    var p, q := Images(map[2 := f, 3 := g], 131073), Images(map[3 := g], 1);
    Goes(s, 1, avgHits, p);
    Goes(p, 2, avgHits, q);
    Stays(q, 3, avgHits, q);
    SweepOfThree(s, 1, 2, 3, avgHits);
  }

  /** The same in another order. */
  lemma {:induction false} UnusedStayAtTheSoftLimit(a: seq<byte>, b: seq<byte>, c: seq<byte>)
    requires |a| == |b| == 131072 && |c| == 1
    ensures var s := Images(map[1 := Entry(0, 2, a), 2 := Entry(0, 3, b), 3 := Entry(0, 4, c)], 262145);
            && s.Valid() && IsOrder([3, 1, 2], s.cache.Keys)
            && Balanced(s, [3, 1, 2]) == Images(map[2 := Entry(0, 3, b)], 131072)
  {
    hide TotalSize, TotalHits, Sweep, SweepOne;
    var (e, f, g) := (Entry(0, 2, a), Entry(0, 3, b), Entry(0, 4, c));
    var s := Images(map[1 := e, 2 := f, 3 := g], 262145);
    ThreeImages(e, f, g);
    var avgHits := AverageHits(s.cache, TotalHits(s.cache));
    var p, q := Images(map[1 := e, 2 := f], 262144), Images(map[2 := f], 131072);
    Goes(s, 3, avgHits, p);
    Goes(p, 1, avgHits, q);
    Stays(q, 2, avgHits, q);
    SweepOfThree(s, 3, 1, 2, avgHits);
  }

  /** Images in use go only above the hard limit, and not if they were used more than average. */
  lemma {:induction false} UsedGoAboveTheHardLimit(a: seq<byte>, b: seq<byte>, c: seq<byte>)
    requires |a| == 200000 && |b| == 100000 && |c| == 1
    ensures var s := Images(map[1 := Entry(1, 2, a), 2 := Entry(1, 3, b), 3 := Entry(2, 4, c)], 300001);
            && s.Valid() && IsOrder([3, 1, 2], s.cache.Keys)
            && Balanced(s, [3, 1, 2]) == Images(map[2 := Entry(0, 3, b), 3 := Entry(1, 4, c)], 100001)
  {
    hide TotalSize, TotalHits, Sweep, SweepOne;
    var (e, f, g) := (Entry(1, 2, a), Entry(1, 3, b), Entry(2, 4, c));
    var s := Images(map[1 := e, 2 := f, 3 := g], 300001);
    ThreeImages(e, f, g);
    var g' := Entry(1, 4, c);
    var p, q := Images(map[1 := e, 2 := f, 3 := g'], 300001), Images(map[2 := f, 3 := g'], 100001);
    var r := Images(map[2 := Entry(0, 3, b), 3 := g'], 100001);
    Stays(s, 3, 1, p);
    Goes(p, 1, 1, q);
    Stays(q, 2, 1, r);
    SweepOfThree(s, 3, 1, 2, 1);
  }

  lemma {:induction false} Goes(s: Images, h: Hash, avgHits: nat, r: Images)
    requires s.Valid() && h in s.cache && Evicts(s.cache[h].hitCount, s.size, avgHits)
    requires r.cache == s.cache - {h} && r.size == s.size - |s.cache[h].data|
    ensures r.Valid() && SweepOne(s, h, avgHits) == r
  {
    hide TotalSize;
    SweepOneMeans(s, h, avgHits);
  }

  lemma {:induction false} Stays(s: Images, h: Hash, avgHits: nat, r: Images)
    requires s.Valid() && h in s.cache && !Evicts(s.cache[h].hitCount, s.size, avgHits)
    requires r.cache == s.cache[h := Age(s.cache[h])] && r.size == s.size
    ensures r.Valid() && SweepOne(s, h, avgHits) == r
  {
    hide TotalSize;
    SweepOneMeans(s, h, avgHits);
  }

  lemma {:induction false} ThreeImages(a: Entry, b: Entry, c: Entry)
    ensures var cache := map[1 := a, 2 := b, 3 := c];
            && |cache| == 3 && TotalSize(cache) == |a.data| + |b.data| + |c.data|
            && TotalHits(cache) == a.hitCount + b.hitCount + c.hitCount
  {
    var cache: Cache := map[1 := a, 2 := b, 3 := c];
    assert cache.Keys == {1, 2, 3};
    TotalOfThree(Sizes(cache), 1, 2, 3);
    TotalOfThree(Hits(cache), 1, 2, 3);
  }

  lemma {:induction false} TotalOfThree(m: map<Hash, nat>, a: Hash, b: Hash, c: Hash)
    requires m.Keys == {a, b, c} && a != b && b != c && a != c
    ensures Total(m) == m[a] + m[b] + m[c]
  {
    TotalWithout(m, a);
    TotalWithout(m - {a}, b);
    TotalWithout(m - {a} - {b}, c);
    assert m - {a} - {b} - {c} == map[];
  }

  lemma {:induction false} SweepOfThree(s: Images, a: Hash, b: Hash, c: Hash, avgHits: nat)
    requires s.Valid() && s.cache.Keys == {a, b, c} && a != b && b != c && a != c
    ensures Lists([a, b, c], s.cache.Keys)
    ensures b in SweepOne(s, a, avgHits).cache && c in SweepOne(SweepOne(s, a, avgHits), b, avgHits).cache
    ensures Sweep(s, [a, b, c], avgHits) == SweepOne(SweepOne(SweepOne(s, a, avgHits), b, avgHits), c, avgHits)
  {
    hide TotalSize, SweepOne, Sweep;
    SweepNothing(s, avgHits);
    SweepStep(s, [], a, avgHits);
    assert [] + [a] == [a] && [a] + [b] == [a, b] && [a, b] + [c] == [a, b, c];
    SweepStep(s, [a], b, avgHits);
    SweepStep(s, [a, b], c, avgHits);
  }

  // ----- wire ids ---------------------------------------------------------------------------

  datatype Ids = Ids(nextId: WireId, table: WireIds)

  /** The ids in the table are pairwise different; each is one that the counter has given out since
      the table was last cleared, or the 0 of a wrapped counter. */
  ghost predicate ValidIds(s: Ids) {
    && s.nextId >= 1
    && 0 !in s.table
    && (forall h :: h in s.table ==> s.table[h] == 0 || 2 <= s.table[h] <= s.nextId)
    && (forall h, g :: h in s.table && g in s.table && h != g ==> s.table[h] != s.table[g])
  }

  const NO_IDS: Ids := Ids(1, map[])

  /** hashToWireId: a counter that wraps to 0 clears everything and restarts at 1. */
  function HashToWireId(s: Ids, hash: Hash): (WireId, Ids) {
    if hash == 0 then (0, s)
    else if hash in s.table then (s.table[hash], s)
    else
      var id := (s.nextId + 1) % TWO_TO_THE_32;
      if id < 1 then (id, Ids(1, map[hash := id])) else (id, Ids(id, s.table[hash := id]))
  }

  /** The next new hash makes the counter wrap. */
  predicate Wraps(s: Ids, hash: Hash) {
    hash != 0 && hash !in s.table && s.nextId == TWO_TO_THE_32 - 1
  }

  predicate Recent(s: Ids, id: WireId) {
    id >= (s.nextId - WID_HARD_LIMIT / 2) % TWO_TO_THE_32
  }

  /** balanceCache, the part about wire ids. */
  function TrimIds(s: Ids): Ids {
    if |s.table| > WID_HARD_LIMIT then
      s.(table := map h | h in s.table && Recent(s, s.table[h]) :: s.table[h])
    else s
  }

  /** A table whose ids lie in `lo..hi`, or may also be 0, has no more entries than that. */
  lemma {:induction false} Pigeonhole(table: WireIds, lo: nat, hi: nat)
    requires forall h :: h in table ==> lo <= table[h] < hi
    requires forall h, g :: h in table && g in table && h != g ==> table[h] != table[g]
    requires lo <= hi
    ensures |table| <= hi - lo
    decreases hi
  {
    if table == map[] {
    } else if h :| h in table && table[h] == hi - 1 {
      var rest := table - {h};
      assert rest.Keys == table.Keys - {h};
      assert |rest| == |table| - 1;
      Pigeonhole(rest, lo, hi - 1);
    } else {
      Pigeonhole(table, lo, hi - 1);
    }
  }

  lemma {:induction false} TrimMeans(s: Ids)
    requires |s.table| > WID_HARD_LIMIT && s.nextId >= WID_HARD_LIMIT
    ensures TrimIds(s).nextId == s.nextId
    ensures forall h :: h in TrimIds(s).table <==> h in s.table && s.nextId - WID_HARD_LIMIT / 2 <= s.table[h]
    ensures forall h :: h in TrimIds(s).table ==> TrimIds(s).table[h] == s.table[h]
  {
    var lo := s.nextId - WID_HARD_LIMIT / 2;
    assert lo % TWO_TO_THE_32 == lo;
  }

  /** So many ids have not been handed out by a counter that has not come that far. */
  lemma {:induction false} BigTableBigCounter(s: Ids)
    requires ValidIds(s) && |s.table| > WID_HARD_LIMIT
    ensures s.nextId >= WID_HARD_LIMIT
  {
    Pigeonhole(s.table, 0, s.nextId + 1);
  }

  /** After balancing the table has at most 4096 entries, and if it was trimmed at most 2049: those
      with the latest ids. */
  lemma {:induction false} TrimBoundsTable(s: Ids)
    requires ValidIds(s)
    ensures ValidIds(TrimIds(s))
    ensures |TrimIds(s).table| <= 4096 && (|s.table| <= 4096 ==> TrimIds(s) == s)
    ensures |s.table| > 4096 ==>
              && |TrimIds(s).table| <= 2049
              && forall h :: h in s.table ==> (h in TrimIds(s).table <==> s.nextId - 2048 <= s.table[h])
  {
    if |s.table| > WID_HARD_LIMIT {
      hide TrimIds;
      BigTableBigCounter(s);
      TrimMeans(s);
      Pigeonhole(TrimIds(s).table, s.nextId - WID_HARD_LIMIT / 2, s.nextId + 1);
    }
  }

  lemma {:induction false} LookupKeepsValid(s: Ids, hash: Hash)
    requires ValidIds(s)
    ensures ValidIds(HashToWireId(s, hash).1)
    ensures hash != 0 ==>
              && hash in HashToWireId(s, hash).1.table
              && HashToWireId(s, hash).1.table[hash] == HashToWireId(s, hash).0
  {
    if hash != 0 && hash !in s.table && s.nextId + 1 < TWO_TO_THE_32 {
      assert (s.nextId + 1) % TWO_TO_THE_32 == s.nextId + 1;
    }
  }

  datatype WidEvent = Lookup(hash: Hash) | Balance

  datatype Answer = Answer(hash: Hash, id: WireId)

  datatype History = History(ids: Ids, answers: seq<Answer>, wrapped: bool)

  /** One event more; lookups of tiles without a hash are not recorded. */
  function Happen(r: History, e: WidEvent): History {
    match e
    case Balance => r.(ids := TrimIds(r.ids))
    case Lookup(hash) =>
      var (id, ids) := HashToWireId(r.ids, hash);
      History(ids, if hash == 0 then r.answers else r.answers + [Answer(hash, id)], r.wrapped || Wraps(r.ids, hash))
  }

  /** All that has happened after these events. */
  function Run(events: seq<WidEvent>): (r: History)
    decreases |events|
  {
    if events == [] then History(NO_IDS, [], false)
    else
      Happen(Run(events[..|events| - 1]), events[|events| - 1])
  }

  /** What was handed out lies in 2..nextId and belongs to one hash; the table agrees with it. */
  ghost predicate Consistent(r: History) {
    && ValidIds(r.ids)
    && (forall h :: h in r.ids.table ==> Answer(h, r.ids.table[h]) in r.answers)
    && (forall a :: a in r.answers ==> a.hash != 0 && 2 <= a.id <= r.ids.nextId)
    && (forall a, b :: a in r.answers && b in r.answers && a.id == b.id ==> a.hash == b.hash)
  }

  lemma {:induction false} LookupKeepsConsistent(r: History, hash: Hash)
    requires Consistent(r) && !Wraps(r.ids, hash)
    ensures Consistent(Happen(r, Lookup(hash)))
  {
    hide ValidIds;
    LookupKeepsValid(r.ids, hash);
    var next := Happen(r, Lookup(hash));
    if hash != 0 && hash !in r.ids.table {
      NextId(r.ids);
      forall a | a in next.answers ensures a == Answer(hash, r.ids.nextId + 1) || a in r.answers {
      }
      assert next.answers[|r.answers|] == Answer(hash, r.ids.nextId + 1);
      assert forall a :: a in r.answers ==> a in next.answers;
    } else if hash != 0 {
      forall a | a in next.answers ensures a in r.answers {
      }
      assert forall a :: a in r.answers ==> a in next.answers;
    }
  }

  lemma {:induction false} NextId(s: Ids)
    requires s.nextId < TWO_TO_THE_32 - 1
    ensures (s.nextId + 1) % TWO_TO_THE_32 == s.nextId + 1
  {
  }

  lemma {:induction false} HappenKeeps(r: History, e: WidEvent)
    requires ValidIds(r.ids)
    ensures ValidIds(Happen(r, e).ids)
    ensures Happen(r, e).ids.nextId <= r.ids.nextId + 1
    ensures !Happen(r, e).wrapped && Consistent(r) ==> !r.wrapped && Consistent(Happen(r, e))
    ensures r.wrapped ==> Happen(r, e).wrapped
  {
    hide ValidIds, Consistent, TrimIds;
    match e
    case Balance =>
      TrimKeepsConsistent(r);
      TrimKeepsCounter(r.ids);
    case Lookup(hash) =>
      LookupKeepsValid(r.ids, hash);
      if Consistent(r) && !Wraps(r.ids, hash) {
        LookupKeepsConsistent(r, hash);
      }
  }

  lemma {:induction false} TrimKeepsCounter(s: Ids)
    ensures TrimIds(s).nextId == s.nextId
  {
  }

  lemma {:induction false} RunIsConsistent(events: seq<WidEvent>)
    ensures ValidIds(Run(events).ids)
    ensures !Run(events).wrapped ==> Consistent(Run(events))
    ensures Run(events).ids.nextId <= 1 + |events|
    decreases |events|
  {
    hide ValidIds, Consistent, Happen;
    if events == [] {
      NothingHandedOut();
    } else {
      RunIsConsistent(events[..|events| - 1]);
      HappenKeeps(Run(events[..|events| - 1]), events[|events| - 1]);
    }
  }

  lemma {:induction false} NothingHandedOut()
    ensures ValidIds(NO_IDS) && Consistent(History(NO_IDS, [], false))
  {
  }

  lemma {:induction false} TrimKeepsConsistent(r: History)
    requires ValidIds(r.ids)
    ensures ValidIds(TrimIds(r.ids))
    ensures Consistent(r) ==> Consistent(Happen(r, Balance))
  {
    TrimBoundsTable(r.ids);
  }

  /** The lookup that makes the counter wrap is answered with 0, and the record of it stays. */
  lemma {:induction false} WrapLeavesATrace(events: seq<WidEvent>)
    ensures Run(events).wrapped ==> exists i :: 0 <= i < |Run(events).answers| && Run(events).answers[i].id == 0
    decreases |events|
  {
    hide TrimIds;
    if events != [] {
      var before, e := events[..|events| - 1], events[|events| - 1];
      WrapLeavesATrace(before);
      var r := Run(before);
      if r.wrapped {
        var i :| 0 <= i < |r.answers| && r.answers[i].id == 0;
        assert Run(events).answers[i].id == 0;
      } else if Run(events).wrapped {
        assert Run(events).answers[|r.answers|] == Answer(e.hash, 0);
      }
    }
  }

  /** No answer is the 0 of a tile without a hash, and no two hashes have the same one. */
  ghost predicate TellsHashesApart(answers: seq<Answer>) {
    && (forall i :: 0 <= i < |answers| ==> answers[i].id != 0)
    && (forall i, j :: 0 <= i < |answers| && 0 <= j < |answers| && answers[i].id == answers[j].id ==>
          answers[i].hash == answers[j].hash)
  }

  /** Over the whole history, even after parts of the table were dropped, the answers tell the hashes
      apart, from each other and from tiles without a hash, if and only if the counter has not
      wrapped. */
  lemma {:induction false} IdsAreNeverShared(events: seq<WidEvent>)
    ensures TellsHashesApart(Run(events).answers) <==> !Run(events).wrapped
  {
    hide Run;
    RunIsConsistent(events);
    WrapLeavesATrace(events);
    var a := Run(events).answers;
    assert forall i :: 0 <= i < |a| ==> a[i] in a;
  }

  /** A counter that starts at 1 does not wrap in fewer than 2^32 - 1 events. */
  lemma {:induction false} ShortRunsDoNotWrap(events: seq<WidEvent>)
    requires |events| < TWO_TO_THE_32 - 1
    ensures !Run(events).wrapped
    decreases |events|
  {
    if events == [] {
    } else {
      ShortRunsDoNotWrap(events[..|events| - 1]);
      RunIsConsistent(events[..|events| - 1]);
    }
  }

  // ----- a history that wraps ---------------------------------------------------------------

  /** Lookups of the hashes 1, 2, ..., n. */
  function Lookups(n: nat): (events: seq<WidEvent>)
    ensures |events| == n
  {
    seq(n, i requires 0 <= i < n => Lookup(i + 1))
  }

  lemma {:induction false} LookupsSnoc(n: nat)
    ensures Run(Lookups(n + 1)) == Happen(Run(Lookups(n)), Lookup(n + 1))
  {
    var events := Lookups(n + 1);
    assert events[..n] == Lookups(n) && events[n] == Lookup(n + 1);
  }

  /** The first hashes get the ids 2, 3, ... in turn. */
  ghost predicate CountedUp(r: History, n: nat) {
    && r.ids.nextId == n + 1 && !r.wrapped
    && (forall h :: h in r.ids.table ==> 1 <= h <= n)
    && |r.answers| == n && (n > 0 ==> r.answers[0] == Answer(1, 2))
  }

  lemma {:induction false} LookupsCountUp(n: nat)
    requires n <= TWO_TO_THE_32 - 2
    ensures CountedUp(Run(Lookups(n)), n)
  {
    hide Run, Lookups;
    if n == 0 {
      NoLookups();
    } else {
      LookupsCountUp(n - 1);
      LookupsSnoc(n - 1);
      NextId(Run(Lookups(n - 1)).ids);
    }
  }

  lemma {:induction false} NoLookups()
    ensures Run(Lookups(0)) == History(NO_IDS, [], false)
  {
  }

  /** The counter does wrap, and then ids are shared: after lookups of 2^32 hashes, the one that made
      the counter wrap has the id of tiles without a hash, and the last one that of the very first. */
  lemma {:induction false} WrapReusesIds()
    ensures var r := Run(Lookups(TWO_TO_THE_32));
            && r.wrapped && |r.answers| == TWO_TO_THE_32
            && r.answers[0] == Answer(1, 2)
            && r.answers[TWO_TO_THE_32 - 2] == Answer(TWO_TO_THE_32 - 1, 0)
            && r.answers[TWO_TO_THE_32 - 1] == Answer(TWO_TO_THE_32, 2)
  {
    hide Run, Lookups;
    var n := TWO_TO_THE_32 - 2;
    LookupsCountUp(n);
    var r := Run(Lookups(n));
    LookupsSnoc(n);
    LookupsSnoc(n + 1);
    WrapAndOneMore(r, n + 1);
  }

  lemma {:induction false} WrapAndOneMore(r: History, h: Hash)
    requires Wraps(r.ids, h) && r.answers != []
    ensures var q := Happen(Happen(r, Lookup(h)), Lookup(h + 1));
            q.wrapped && q.answers == r.answers + [Answer(h, 0), Answer(h + 1, 2)]
  {
    assert (r.ids.nextId + 1) % TWO_TO_THE_32 == 0;
    assert r.answers + [Answer(h, 0)] + [Answer(h + 1, 2)] == r.answers + [Answer(h, 0), Answer(h + 1, 2)];
  }

  /** The ids when the counter has just wrapped: only the hash that made it wrap is known, with id 0. */
  lemma {:induction false} JustWrapped()
    ensures Run(Lookups(TWO_TO_THE_32 - 1)).ids == Ids(1, map[TWO_TO_THE_32 - 1 := 0])
  {
    hide Run, Lookups;
    var n := TWO_TO_THE_32 - 2;
    LookupsCountUp(n);
    LookupsSnoc(n);
    WrapKeepsOne(Run(Lookups(n)), n + 1);
  }

  lemma {:induction false} WrapKeepsOne(r: History, h: Hash)
    requires Wraps(r.ids, h)
    ensures Happen(r, Lookup(h)).ids == Ids(1, map[h := 0])
  {
    assert (r.ids.nextId + 1) % TWO_TO_THE_32 == 0;
  }

  /** A wrap between two lookups of a hash changes its id to 2: what addToCache asserts, that the hash
      still has the id, then holds only if the id was 2 before. */
  lemma {:induction false} WrapForgetsId(s: Ids, h: Hash, g: Hash)
    requires ValidIds(s) && h in s.table && Wraps(s, g)
    ensures HashToWireId(HashToWireId(s, g).1, h).0 == 2
  {
    assert (s.nextId + 1) % TWO_TO_THE_32 == 0;
  }
}
