/**
 The cache of compressed tiles (common/RenderTiles.hpp, class PngCache): the class with its hash
 tables, proved against the functions of `PngCacheSpec`.
*/
module PngCaches {

  import opened Wrappers
  import opened PngCacheSpec

  class PngCache {
    var cacheSize: nat
    var cacheHits: nat
    var cacheTests: nat
    var nextId: WireId
    var cache: Cache
    var wireIds: WireIds

    ghost function CurrentImages(): Images
      reads this
    {
      Images(cache, cacheSize)
    }

    ghost function CurrentIds(): Ids
      reads this
    {
      Ids(nextId, wireIds)
    }

    /** The size is exact, the wire ids are pairwise different, and tiles without a hash are not
        cached. */
    ghost predicate Valid()
      reads this
    {
      CurrentImages().Valid() && ValidIds(CurrentIds()) && 0 !in cache
    }

    constructor ()
      ensures Valid() && cache == map[] && CurrentIds() == NO_IDS
    {
      cacheSize, cacheHits, cacheTests, nextId, cache, wireIds := 0, 0, 0, 1, map[], map[];
      new;
      NothingCached(cache);
    }

    method ClearCache()
      modifies this
      ensures Valid() && cache == map[] && CurrentIds() == NO_IDS
      ensures cacheHits == 0 && cacheTests == 0
    {
      cache, wireIds := map[], map[];
      cacheSize, cacheHits, cacheTests, nextId := 0, 0, 0, 1;
      NothingCached(cache);
    }

    /** The next id; everything is forgotten when the counter wraps. */
    method CreateNewWireId() returns (id: WireId)
      requires Valid()
      modifies this
      ensures Valid() && id == (old(nextId) + 1) % TWO_TO_THE_32
      ensures if id == 0 then cache == map[] && CurrentIds() == NO_IDS && cacheHits == cacheTests == 0
              else
                && cache == old(cache) && CurrentIds() == Ids(id, old(wireIds))
                && cacheHits == old(cacheHits) && cacheTests == old(cacheTests)
    {
      nextId := (nextId + 1) % TWO_TO_THE_32;
      id := nextId;
      if id < 1 {
        ClearCache();
      }
    }

    method HashToWireId(hash: Hash) returns (wid: WireId)
      requires Valid()
      modifies this
      ensures Valid() && (wid, CurrentIds()) == PngCacheSpec.HashToWireId(old(CurrentIds()), hash)
      ensures if Wraps(old(CurrentIds()), hash) then cache == map[] && cacheHits == cacheTests == 0
              else cache == old(cache) && cacheHits == old(cacheHits) && cacheTests == old(cacheTests)
    {
      hide ValidIds, TotalSize;
      LookupKeepsValid(CurrentIds(), hash);
      if hash == 0 {
        return 0;
      }
      if hash in wireIds {
        wid := wireIds[hash];
      } else {
        wid := CreateNewWireId();
        wireIds := wireIds[hash := wid];
      }
    }

    /** Appends the cached image to the output and counts the hit. */
    method CopyFromCache(hash: Hash, output: seq<byte>) returns (found: bool, newOutput: seq<byte>, imgSize: nat)
      requires Valid()
      modifies this`cache, this`cacheHits, this`cacheTests
      ensures Valid()
      ensures found <==> hash in old(cache)
      ensures cacheTests == old(cacheTests) + (if hash == 0 then 0 else 1)
      ensures cacheHits == old(cacheHits) + (if found then 1 else 0)
      ensures found ==> newOutput == output + old(cache)[hash].data && imgSize == |old(cache)[hash].data|
      ensures !found ==> newOutput == output
      ensures cache == Hit(old(cache), hash)
    {
      if hash != 0 {
        cacheTests := cacheTests + 1;
        if hash in cache {
          cacheHits := cacheHits + 1;
          var entry := cache[hash];
          SizeWithHits(cache, hash, entry.hitCount + 1);
          cache := cache[hash := entry.(hitCount := entry.hitCount + 1)];
          return true, output + entry.data, |entry.data|;
        }
      }
      return false, output, 0;
    }

    /** The source asserts that the id is the one the hash has and that the hash is not yet cached. */
    method AddToCache(data: seq<byte>, wid: WireId, hash: Hash)
      requires Valid()
      requires hash != 0 ==> hash in wireIds && wireIds[hash] == wid && hash !in cache
      modifies this`cache, this`cacheSize
      ensures Valid()
      ensures cache == if hash == 0 then old(cache) else old(cache)[hash := Entry(1, wid, data)]
    {
      if hash != 0 {
        SizeWith(cache, hash, Entry(1, wid, data));
        cache := cache[hash := Entry(1, wid, data)];
        cacheSize := cacheSize + |data|;
      }
    }

    method CountHits() returns (hits: nat)
      ensures hits == TotalHits(cache)
    {
      hits := 0;
      var rest := cache;
      while rest != map[]
        invariant rest.Keys <= cache.Keys && forall h :: h in rest ==> rest[h] == cache[h]
        invariant hits + TotalHits(rest) == TotalHits(cache)
        decreases |rest|
      {
        var h :| h in rest;
        TotalWithout(Hits(rest), h);
        assert Hits(rest) - {h} == Hits(rest - {h});
        hits := hits + rest[h].hitCount;
        rest := rest - {h};
      }
      assert Hits(rest) == map[];
    }

    /** Visits one entry of the table: drops it, or ages it by one use. */
    method VisitEntry(h: Hash, avgHits: nat)
      requires CurrentImages().Valid() && h in cache
      modifies this`cache, this`cacheSize
      ensures CurrentImages() == SweepOne(old(CurrentImages()), h, avgHits)
      ensures forall g :: g in cache ==> g in old(cache)
    {
      hide TotalSize, SweepOne;
      SweepOneMeans(CurrentImages(), h, avgHits);
      var entry := cache[h];
      if (cacheSize > SOFT_LIMIT && entry.hitCount == 0) ||
         (cacheSize > HARD_LIMIT && entry.hitCount > 0 && entry.hitCount <= avgHits)
      {
        cacheSize := cacheSize - |entry.data|;
        cache := cache - {h};
      } else {
        cache := cache[h := if entry.hitCount > 0 then entry.(hitCount := entry.hitCount - 1) else entry];
      }
    }

    /** The sweep over the images, in whatever order the hash table is iterated. */
    method BalanceImages()
      requires Valid()
      modifies this`cache, this`cacheSize
      ensures Valid()
      ensures BalancedFrom(old(CurrentImages()), CurrentImages())
    {
      hide TotalSize, TotalHits, SweepOne, ValidIds, Sweep, Balanced;
      ghost var s := CurrentImages();
      ghost var order: seq<Hash> := [];
      var rest := cache.Keys;
      if cacheSize > HARD_LIMIT {
        NonEmpty(s);
        var hits := CountHits();
        var avgHits := hits / |cache|;
        SweepNothing(s, avgHits);
        while rest != {}
          invariant Lists(order, s.cache.Keys) && rest == s.cache.Keys - Elements(order)
          invariant CurrentImages() == Sweep(s, order, avgHits) && CurrentImages().Valid() && 0 !in cache
          decreases |rest|
        {
          var h :| h in rest;
          rest := rest - {h};
          SweepStep(s, order, h, avgHits);
          VisitEntry(h, avgHits);
          order := order + [h];
        }
        BalancedSweep(s, order, avgHits);
      } else {
        order := SomeOrder(rest);
        BalancedNothing(s, order);
      }
    }

    method TrimWireIds()
      requires Valid()
      modifies this`wireIds
      ensures Valid() && CurrentIds() == TrimIds(old(CurrentIds()))
      ensures |wireIds| <= WID_HARD_LIMIT
    {
      hide ValidIds, TotalSize, PartlyTrimmed, TrimIds;
      TrimBoundsTable(CurrentIds());
      if |wireIds| > WID_HARD_LIMIT {
        var max := (nextId - WID_HARD_LIMIT / 2) % TWO_TO_THE_32;
        var rest := wireIds.Keys;
        TrimStart(wireIds, max);
        while rest != {}
          invariant rest <= old(wireIds).Keys && PartlyTrimmed(old(wireIds), wireIds, rest, max)
          decreases |rest|
        {
          ghost var was := rest;
          var h :| h in rest;
          rest := rest - {h};
          assert rest + {h} == was;
          TrimStep(old(wireIds), wireIds, rest, h, max);
          if wireIds[h] < max {
            wireIds := wireIds - {h};
          }
        }
        TrimEnd(old(CurrentIds()), wireIds, max);
      } else {
        NoTrim(CurrentIds());
      }
    }

    /** Done after each complete request for tiles. */
    method BalanceCache()
      requires Valid()
      modifies this`cache, this`cacheSize, this`wireIds
      ensures Valid()
      ensures BalancedFrom(old(CurrentImages()), CurrentImages())
      ensures CurrentIds() == TrimIds(old(CurrentIds())) && |wireIds| <= WID_HARD_LIMIT
    {
      BalanceImages();
      TrimWireIds();
    }
  }

  ghost function Elements(order: seq<Hash>): set<Hash> {
    set h | h in order
  }

  lemma {:induction false} BalancedSweep(s: Images, order: seq<Hash>, avgHits: nat)
    requires s.Valid() && s.size > HARD_LIMIT && |s.cache| > 0 && avgHits == AverageHits(s.cache, TotalHits(s.cache))
    requires Lists(order, s.cache.Keys) && s.cache.Keys - Elements(order) == {}
    ensures BalancedFrom(s, Sweep(s, order, avgHits))
  {
    hide TotalSize, TotalHits, Sweep;
    forall h | h in s.cache ensures h in order {
      assert h !in s.cache.Keys - Elements(order);
    }
    assert IsOrder(order, s.cache.Keys);
    assert Sweep(s, order, avgHits) == Balanced(s, order);
  }

  lemma {:induction false} BalancedNothing(s: Images, order: seq<Hash>)
    requires s.Valid() && s.size <= HARD_LIMIT && IsOrder(order, s.cache.Keys)
    ensures BalancedFrom(s, s)
  {
    assert s == Balanced(s, order);
  }

  /** All ids below `max` are gone, except those of the hashes still to be visited. */
  ghost predicate PartlyTrimmed(was: WireIds, now: WireIds, rest: set<Hash>, max: nat) {
    && (forall h :: h in now <==> h in was && (h in rest || was[h] >= max))
    && (forall h :: h in now ==> now[h] == was[h])
  }

  lemma {:induction false} TrimStart(was: WireIds, max: nat)
    ensures PartlyTrimmed(was, was, was.Keys, max)
  {
  }

  lemma {:induction false} TrimStep(was: WireIds, now: WireIds, rest: set<Hash>, h: Hash, max: nat)
    requires h in was && h !in rest && PartlyTrimmed(was, now, rest + {h}, max)
    ensures h in now
    ensures PartlyTrimmed(was, if now[h] < max then now - {h} else now, rest, max)
  {
  }

  lemma {:induction false} TrimEnd(s: Ids, now: WireIds, max: nat)
    requires |s.table| > WID_HARD_LIMIT && max == (s.nextId - WID_HARD_LIMIT / 2) % TWO_TO_THE_32
    requires PartlyTrimmed(s.table, now, {}, max)
    ensures Ids(s.nextId, now) == TrimIds(s)
  {
    assert now == TrimIds(s).table;
  }

  lemma {:induction false} NoTrim(s: Ids)
    requires |s.table| <= WID_HARD_LIMIT
    ensures TrimIds(s) == s
  {
  }
}
