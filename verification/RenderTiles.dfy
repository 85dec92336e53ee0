/**
 RenderTiles::doRender (common/RenderTiles.hpp): the bookkeeping that answers each tile of a request
 from one output buffer, whatever order the pool runs the compressing tasks in.
*/
module RenderTiles {

  import opened Sequences
  import opened Wrappers
  import opened TileDescs
  import opened PngCacheSpec
  import opened PngCaches
  import opened RenderSpec

  /** What a task for the pool has captured: a tile of the request, its wire id and its hash. */
  datatype EncodeTask = EncodeTask(tile: nat, wireId: WireId, hash: Hash)

  /** What goes out: one message for all tiles, or one for each. */
  datatype Reply =
    | CombinedReply(descs: seq<TileDesc>, payload: seq<byte>)
    | TileReply(desc: TileDesc, payload: seq<byte>)

  // ----- how the first loop sorts the tiles -------------------------------------------------

  /** Answered at once, compressed, or left for later because another tile with the same wire id is
      compressed. */
  datatype Kind = Now | Encode | Duplicate

  function KindOf(r: Request, i: nat): Kind
    requires r.Sized() && i < |r.tiles|
  {
    if AtOnce(r, i) then Now
    else if Rep(r, i) == i then Encode
    else Duplicate
  }

  /** `xs` are the tiles below `n` of this kind, each once. */
  ghost predicate Sorted(r: Request, n: nat, kind: Kind, xs: seq<nat>)
    requires r.Sized() && n <= |r.tiles|
  {
    && (forall i: nat :: i in xs <==> i < n && KindOf(r, i) == kind)
    && (forall k, l :: 0 <= k < l < |xs| ==> xs[k] != xs[l])
  }

  lemma {:induction false} SortedNext(r: Request, n: nat, kind: Kind, xs: seq<nat>)
    requires r.Sized() && n < |r.tiles| && Sorted(r, n, kind, xs)
    ensures Sorted(r, n + 1, kind, if KindOf(r, n) == kind then xs + [n] else xs)
  {
    hide KindOf;
    assert n !in xs;
  }

  ghost function TilesOf(tasks: seq<EncodeTask>): (r: seq<nat>)
    ensures |r| == |tasks|
  {
    seq(|tasks|, k requires 0 <= k < |tasks| => tasks[k].tile)
  }

  /** A tile that still has to be answered is a duplicate just when an earlier tile with the same wire
      id is being compressed. */
  lemma {:induction false} DuplicateExactly(r: Request, i: nat, encoding: seq<nat>)
    requires r.Sized() && i < |r.tiles| && Sorted(r, i, Encode, encoding) && KindOf(r, i) != Now
    ensures KindOf(r, i) == Duplicate <==> exists j: nat :: j in encoding && r.wids[j] == r.wids[i]
  {
    var k := Rep(r, i);
    if k < i {
      assert Rep(r, k) == k;
      assert KindOf(r, k) == Encode;
      assert k in encoding && r.wids[k] == r.wids[i];
    }
    if j: nat :| j in encoding && r.wids[j] == r.wids[i] {
      assert !AtOnce(r, j) && j < i;
    }
  }

  /** Every tile that is not answered at once has a tile that is compressed for it, if only itself. */
  lemma {:induction false} RepIsEncoded(r: Request, i: nat)
    requires r.Sized() && i < |r.tiles| && KindOf(r, i) != Now
    ensures Rep(r, i) <= i && r.wids[Rep(r, i)] == r.wids[i] && KindOf(r, Rep(r, i)) == Encode
  {
    assert Rep(r, Rep(r, i)) == Rep(r, i);
  }

  /** It is the only one with that wire id. */
  lemma {:induction false} OnlyRep(r: Request, i: nat, e: nat)
    requires r.Sized() && i < |r.tiles| && e < |r.tiles| && KindOf(r, i) != Now && KindOf(r, e) == Encode
    requires r.wids[i] == r.wids[e]
    ensures Rep(r, i) == e
  {
    assert Rep(r, e) == e;
  }

  // ----- the first loop ---------------------------------------------------------------------

  method IsRendering(renderingIds: seq<WireId>, wireId: WireId) returns (found: bool)
    ensures found <==> wireId in renderingIds
  {
    for i := 0 to |renderingIds|
      invariant wireId !in renderingIds[..i]
    {
      if renderingIds[i] == wireId {
        return true;
      }
    }
    return false;
  }

  /** The tiles below `n` with this hash, but those that the client has. */
  ghost function Users(r: Request, h: Hash, n: nat): set<nat>
    requires r.Sized() && n <= |r.tiles|
  {
    set i: nat | i < n && r.hashes[i] == h && !Skipped(r, i)
  }

  lemma {:induction false} UsersNext(r: Request, h: Hash, n: nat)
    requires r.Sized() && n < |r.tiles|
    ensures |Users(r, h, n + 1)| == |Users(r, h, n)| + if r.hashes[n] == h && !Skipped(r, n) then 1 else 0
  {
    hide Skipped;
    assert Users(r, h, n + 1) == Users(r, h, n) + if r.hashes[n] == h && !Skipped(r, n) then {n} else {};
  }

  /** A cached image with its uses when the request came and one more for each of those tiles. */
  ghost function Reused(r: Request, h: Hash, n: nat): Entry
    requires r.Sized() && n <= |r.tiles| && h in r.known
  {
    r.known[h].(hitCount := r.known[h].hitCount + |Users(r, h, n)|)
  }

  /** The cache after the lookups for `n` tiles. */
  ghost predicate Scanned(r: Request, cache: Cache, n: nat)
    requires r.Sized() && n <= |r.tiles|
  {
    cache.Keys == r.known.Keys && forall h :: h in r.known ==> cache[h] == Reused(r, h, n)
  }

  lemma {:induction false} ScannedNext(r: Request, cache: Cache, i: nat)
    requires r.Sized() && i < |r.tiles| && Scanned(r, cache, i)
    ensures Scanned(r, if Skipped(r, i) then cache else Hit(cache, r.hashes[i]), i + 1)
  {
    hide Users, Skipped;
    forall h | h in r.known ensures Reused(r, h, i + 1) ==
        var e := cache[h]; if h == r.hashes[i] && !Skipped(r, i) then e.(hitCount := e.hitCount + 1) else e {
      UsersNext(r, h, i);
    }
  }

  /** The lists that the first loop fills: the answers so far, the tasks and the duplicates. */
  datatype Scan = Scan(
    output: seq<byte>, rendered: seq<TileDesc>, renderingIds: seq<WireId>, tasks: seq<EncodeTask>,
    duplicateTiles: seq<TileDesc>, duplicateHashes: seq<Hash>)

  ghost predicate TasksMean(r: Request, tasks: seq<EncodeTask>, renderingIds: seq<WireId>, n: nat)
    requires r.Sized() && n <= |r.tiles|
  {
    && Sorted(r, n, Encode, TilesOf(tasks))
    && |renderingIds| == |tasks|
    && forall k :: 0 <= k < |tasks| ==>
         && tasks[k].tile < |r.tiles|
         && tasks[k] == EncodeTask(tasks[k].tile, r.wids[tasks[k].tile], r.hashes[tasks[k].tile])
         && renderingIds[k] == tasks[k].wireId
  }

  ghost predicate DuplicatesMean(r: Request, duplicateTiles: seq<TileDesc>, duplicateHashes: seq<Hash>, n: nat,
                                 dups: seq<nat>)
    requires r.Sized() && n <= |r.tiles|
  {
    && Sorted(r, n, Duplicate, dups)
    && |duplicateTiles| == |duplicateHashes| == |dups|
    && forall k :: 0 <= k < |dups| ==>
         && dups[k] < |r.tiles|
         && duplicateHashes[k] == r.hashes[dups[k]]
         && duplicateTiles[k] == r.tiles[dups[k]].(wireId := r.wids[dups[k]], imgSize := 0)
  }

  ghost predicate ScanMeans(r: Request, s: Scan, n: nat, who: seq<nat>, dups: seq<nat>)
    requires r.Sized() && n <= |r.tiles|
  {
    && Faithful(r, s.output, s.rendered, who) && Sorted(r, n, Now, who)
    && TasksMean(r, s.tasks, s.renderingIds, n)
    && DuplicatesMean(r, s.duplicateTiles, s.duplicateHashes, n, dups)
  }

  /** One tile of the request in the first loop. */
  method ScanTile(pngCache: PngCache, ghost r: Request, s: Scan, i: nat, tile: TileDesc, hash: Hash, wireId: WireId,
                  ghost who: seq<nat>, ghost dups: seq<nat>)
    returns (t: Scan, ghost nowWho: seq<nat>, ghost nowDups: seq<nat>)
    requires pngCache.Valid() && r.Sized() && i <= |r.tiles| && Scanned(r, pngCache.cache, i)
    requires r.Coherent() && i < |r.tiles| && ScanMeans(r, s, i, who, dups)
    requires tile == r.tiles[i] && hash == r.hashes[i] && wireId == r.wids[i]
    modifies pngCache`cache, pngCache`cacheHits, pngCache`cacheTests
    ensures pngCache.Valid() && Scanned(r, pngCache.cache, i + 1)
    ensures ScanMeans(r, t, i + 1, nowWho, nowDups)
  {
    assert r.Sized() && 0 !in r.known;
    hide pngCache.Valid, r.Coherent, Picture, Faithful, Sorted, KindOf, Reused, Hit, ScanMeans, Scanned;
    ScannedKeys(r, pngCache.cache, i);
    NowExactly(r, i);
    ScannedNext(r, pngCache.cache, i);
    t, nowWho, nowDups := s, who, dups;
    if hash != 0 && tile.oldWireId == wireId {
      ScanNow(r, s, i, who, dups);
      t := s.(rendered := PushRendered(s.rendered, tile, wireId, 0));
      nowWho := who + [i];
      return;
    }
    var found, output, imgSize := pngCache.CopyFromCache(hash, s.output);
    if found {
      ScanNow(r, s, i, who, dups);
      t := s.(output := output, rendered := PushRendered(s.rendered, tile, wireId, imgSize));
      nowWho := who + [i];
      return;
    }
    ScanParts(r, s, i, who, dups);
    RenderingMeans(r, s, i);
    var rendering := IsRendering(s.renderingIds, wireId);
    if rendering {
      ScanDuplicate(r, s, i, who, dups);
      t := s.(duplicateTiles := PushRendered(s.duplicateTiles, tile, wireId, 0),
              duplicateHashes := s.duplicateHashes + [hash]);
      nowDups := dups + [i];
    } else {
      ScanEncode(r, s, i, who, dups);
      t := s.(renderingIds := s.renderingIds + [wireId], tasks := s.tasks + [EncodeTask(i, wireId, hash)]);
    }
  }

  lemma {:induction false} ScannedKeys(r: Request, cache: Cache, i: nat)
    requires r.Sized() && i <= |r.tiles| && Scanned(r, cache, i)
    ensures cache.Keys == r.known.Keys && forall h :: h in cache ==> cache[h].data == r.known[h].data
  {
  }

  lemma {:induction false} ScanParts(r: Request, s: Scan, i: nat, who: seq<nat>, dups: seq<nat>)
    requires r.Sized() && i <= |r.tiles| && ScanMeans(r, s, i, who, dups)
    ensures TasksMean(r, s.tasks, s.renderingIds, i)
  {
  }

  lemma {:induction false} NowExactly(r: Request, i: nat)
    requires r.Sized() && i < |r.tiles|
    ensures KindOf(r, i) == Now <==> Skipped(r, i) || r.hashes[i] in r.known
  {
  }

  lemma {:induction false} TilesOfSnoc(tasks: seq<EncodeTask>, t: EncodeTask)
    ensures TilesOf(tasks + [t]) == TilesOf(tasks) + [t.tile]
  {
  }

  lemma {:induction false} RenderingMeans(r: Request, s: Scan, i: nat)
    requires r.Sized() && i < |r.tiles| && TasksMean(r, s.tasks, s.renderingIds, i) && KindOf(r, i) != Now
    ensures r.wids[i] in s.renderingIds <==> KindOf(r, i) == Duplicate
  {
    hide KindOf;
    var xs := TilesOf(s.tasks);
    DuplicateExactly(r, i, xs);
    if r.wids[i] in s.renderingIds {
      var k :| 0 <= k < |s.renderingIds| && s.renderingIds[k] == r.wids[i];
      assert xs[k] in xs;
    }
    if j: nat :| j in xs && r.wids[j] == r.wids[i] {
      var k :| 0 <= k < |xs| && xs[k] == j;
      assert s.renderingIds[k] == r.wids[i];
    }
  }

  lemma {:induction false} ScanDuplicate(r: Request, s: Scan, i: nat, who: seq<nat>, dups: seq<nat>)
    requires r.Sized() && i < |r.tiles| && ScanMeans(r, s, i, who, dups) && KindOf(r, i) == Duplicate
    ensures ScanMeans(r, s.(duplicateTiles := PushRendered(s.duplicateTiles, r.tiles[i], r.wids[i], 0),
                            duplicateHashes := s.duplicateHashes + [r.hashes[i]]),
                      i + 1, who, dups + [i])
  {
    hide KindOf, Faithful, Sorted, TasksMean;
    SortedNext(r, i, Now, who);
    ListsStay(r, s, i, dups);
    SortedNext(r, i, Duplicate, dups);
  }

  lemma {:induction false} ScanEncode(r: Request, s: Scan, i: nat, who: seq<nat>, dups: seq<nat>)
    requires r.Sized() && i < |r.tiles| && ScanMeans(r, s, i, who, dups) && KindOf(r, i) == Encode
    ensures ScanMeans(r, s.(renderingIds := s.renderingIds + [r.wids[i]],
                            tasks := s.tasks + [EncodeTask(i, r.wids[i], r.hashes[i])]),
                      i + 1, who, dups)
  {
    hide KindOf, Faithful, Sorted, DuplicatesMean;
    SortedNext(r, i, Now, who);
    SortedNext(r, i, Encode, TilesOf(s.tasks));
    ListsStay(r, s, i, dups);
    TilesOfSnoc(s.tasks, EncodeTask(i, r.wids[i], r.hashes[i]));
  }

  lemma {:induction false} NowPicture(r: Request, i: nat)
    requires r.Sized() && i < |r.tiles| && KindOf(r, i) == Now
    ensures Picture(r, i) == Some(if Skipped(r, i) then [] else r.known[r.hashes[i]].data)
  {
  }

  lemma {:induction false} ListsStay(r: Request, s: Scan, i: nat, dups: seq<nat>)
    requires r.Sized() && i < |r.tiles|
    ensures KindOf(r, i) != Encode && TasksMean(r, s.tasks, s.renderingIds, i) ==>
              TasksMean(r, s.tasks, s.renderingIds, i + 1)
    ensures KindOf(r, i) != Duplicate && DuplicatesMean(r, s.duplicateTiles, s.duplicateHashes, i, dups) ==>
              DuplicatesMean(r, s.duplicateTiles, s.duplicateHashes, i + 1, dups)
  {
    hide Sorted, KindOf;
    if TasksMean(r, s.tasks, s.renderingIds, i) {
      SortedNext(r, i, Encode, TilesOf(s.tasks));
    }
    if DuplicatesMean(r, s.duplicateTiles, s.duplicateHashes, i, dups) {
      SortedNext(r, i, Duplicate, dups);
    }
  }

  lemma {:induction false} ScanNow(r: Request, s: Scan, i: nat, who: seq<nat>, dups: seq<nat>)
    requires r.Sized() && i < |r.tiles| && ScanMeans(r, s, i, who, dups) && KindOf(r, i) == Now
    ensures Picture(r, i) == Some(if Skipped(r, i) then [] else r.known[r.hashes[i]].data)
    ensures var image := Picture(r, i).value;
            ScanMeans(r, s.(output := s.output + image,
                            rendered := PushRendered(s.rendered, r.tiles[i], r.wids[i], |image|)),
                      i + 1, who + [i], dups)
  {
    NowPicture(r, i);
    hide Faithful, Sorted, KindOf, Picture, TasksMean, DuplicatesMean;
    SortedNext(r, i, Now, who);
    ListsStay(r, s, i, dups);
    NotYet(r, i, Now, who);
    FaithfulPush(r, s.output, s.rendered, who, i);
  }

  lemma {:induction false} NotYet(r: Request, i: nat, kind: Kind, xs: seq<nat>)
    requires r.Sized() && i < |r.tiles| && Sorted(r, i, kind, xs)
    ensures i !in xs
  {
  }

  // ----- the pool ---------------------------------------------------------------------------

  /** The task of tile `i` has run, with success. */
  ghost predicate Finished(r: Request, i: nat, pending: seq<nat>)
    requires r.Sized() && i < |r.tiles|
  {
    i !in pending && r.images[i].Some?
  }

  /** Tile `e` has been compressed and cached under the hash `h`. */
  ghost predicate Added(r: Request, e: nat, h: Hash, pending: seq<nat>)
    requires r.Sized()
  {
    e < |r.tiles| && h != 0 && r.hashes[e] == h && KindOf(r, e) == Encode && Finished(r, e, pending)
  }

  ghost function Among(r: Request, done: seq<nat>, h: Hash): set<nat>
    requires r.Sized()
  {
    set i | i in done && i < |r.tiles| && r.hashes[i] == h
  }

  /** The cache while the pool works and the duplicates `done` are looked up: the images that were there,
      and those that the finished tasks have added, with one use for the tile compressed and one for each
      of its duplicates. */
  ghost predicate Cached(r: Request, cache: Cache, pending: seq<nat>, done: seq<nat>)
    requires r.Sized()
  {
    && (forall h :: h in r.known ==> h in cache && cache[h] == Reused(r, h, |r.tiles|))
    && (forall h :: h in cache && h !in r.known ==> exists e: nat :: Added(r, e, h, pending))
    && (forall e: nat, h :: Added(r, e, h, pending) ==>
          h in cache && cache[h] == Entry(1 + |Among(r, done, h)|, r.wids[e], r.images[e].value))
  }

  /** An image is added by one tile only: any other with its hash is answered at once or a duplicate. */
  lemma {:induction false} AddedByOne(r: Request, e: nat, h: Hash, pending: seq<nat>, i: nat)
    requires r.Coherent() && Added(r, e, h, pending)
    requires i < |r.tiles| && KindOf(r, i) != Now && r.hashes[i] == h
    ensures Rep(r, i) == e && h !in r.known
  {
    OnlyRep(r, i, e);
    NowExactly(r, e);
  }

  /** Answered are the tiles that could be answered at once and those of the finished tasks. */
  ghost predicate AnsweredSoFar(r: Request, who: seq<nat>, pending: seq<nat>)
    requires r.Sized()
  {
    forall i: nat :: i in who <==>
      i < |r.tiles| && (KindOf(r, i) == Now || (KindOf(r, i) == Encode && Finished(r, i, pending)))
  }

  /** Every cached image was there when the request came, or is what the encoder made of a tile of the
      request with that hash. */
  ghost predicate CacheFrom(r: Request, cache: Cache)
    requires r.Sized()
  {
    forall h :: h in cache ==> Known(r, h, cache[h].data) || Encoded(r, h, cache[h].data)
  }

  ghost predicate Known(r: Request, h: Hash, data: seq<byte>) {
    h in r.known && r.known[h].data == data
  }

  ghost predicate Encoded(r: Request, h: Hash, data: seq<byte>)
    requires r.Sized()
  {
    exists i :: 0 <= i < |r.tiles| && r.hashes[i] == h && r.images[i] == Some(data)
  }

  /** The images that stay in the cache stay as they are. */
  ghost predicate DataOf(now: Cache, was: Cache) {
    forall h :: h in now ==> h in was && now[h].data == was[h].data
  }

  lemma {:induction false} CacheFromLess(r: Request, was: Cache, now: Cache)
    requires r.Sized() && CacheFrom(r, was) && DataOf(now, was)
    ensures CacheFrom(r, now)
  {
    hide Known, Encoded;
  }

  ghost predicate IdsMean(r: Request, wireIds: WireIds)
    requires r.Sized()
  {
    forall i :: 0 <= i < |r.hashes| && r.hashes[i] != 0 ==>
      r.hashes[i] in wireIds && wireIds[r.hashes[i]] == r.wids[i]
  }

  lemma {:induction false} RemoveAtMeans(xs: seq<nat>, k: nat)
    requires k < |xs| && Distinct(xs)
    ensures Distinct(RemoveAt(xs, k))
    ensures forall i: nat :: i in RemoveAt(xs, k) <==> i in xs && i != xs[k]
  {
    var r := RemoveAt(xs, k);
    forall i: nat ensures i in r <==> i in xs && i != xs[k] {
      if i in xs && i != xs[k] {
        var j :| 0 <= j < |xs| && xs[j] == i;
        assert r[if j < k then j else j - 1] == i;
      }
    }
  }

  lemma {:induction false} TilesRemoveAt(tasks: seq<EncodeTask>, k: nat)
    requires k < |tasks|
    ensures TilesOf(RemoveAt(tasks, k)) == RemoveAt(TilesOf(tasks), k)
  {
  }

  ghost predicate TasksValid(r: Request, tasks: seq<EncodeTask>)
    requires r.Sized()
  {
    && Distinct(TilesOf(tasks))
    && forall k :: 0 <= k < |tasks| ==>
         && tasks[k].tile < |r.tiles| && KindOf(r, tasks[k].tile) == Encode
         && tasks[k] == EncodeTask(tasks[k].tile, r.wids[tasks[k].tile], r.hashes[tasks[k].tile])
  }

  /** The state of the request while the pool works. */
  ghost predicate Working(r: Request, output: seq<byte>, rendered: seq<TileDesc>, who: seq<nat>,
                          tasks: seq<EncodeTask>, cache: Cache)
    requires r.Sized()
  {
    && TasksValid(r, tasks)
    && Faithful(r, output, rendered, who)
    && AnsweredSoFar(r, who, TilesOf(tasks))
    && Cached(r, cache, TilesOf(tasks), [])
  }

  /** What running the `k`-th of the pending tasks changes when the encoder fails. */
  lemma {:induction false} TaskFails(r: Request, output: seq<byte>, rendered: seq<TileDesc>, who: seq<nat>,
                                     tasks: seq<EncodeTask>, cache: Cache, k: nat)
    requires r.Sized() && Working(r, output, rendered, who, tasks, cache)
    requires k < |tasks| && r.images[tasks[k].tile] == None
    ensures Working(r, output, rendered, who, RemoveAt(tasks, k), cache)
  {
    hide KindOf, Faithful, Rep, Finished, TasksValid, Reused, Among;
    TaskOf(r, tasks, k);
    FailedIsNotFinished(r, tasks, k);
    var a, b := TilesOf(RemoveAt(tasks, k)), TilesOf(tasks);
    forall e: nat, h ensures Added(r, e, h, a) == Added(r, e, h, b) {
    }
  }

  lemma {:induction false} FailedIsNotFinished(r: Request, tasks: seq<EncodeTask>, k: nat)
    requires r.Sized() && k < |tasks| && Distinct(TilesOf(tasks)) && tasks[k].tile < |r.tiles|
    requires r.images[tasks[k].tile] == None
    ensures forall i: nat :: i < |r.tiles| ==>
              Finished(r, i, TilesOf(RemoveAt(tasks, k))) == Finished(r, i, TilesOf(tasks))
  {
    TilesRemoveAt(tasks, k);
    RemoveAtMeans(TilesOf(tasks), k);
  }

  /** And when it succeeds. */
  lemma {:induction false} TaskSucceeds(r: Request, output: seq<byte>, rendered: seq<TileDesc>, who: seq<nat>,
                                        tasks: seq<EncodeTask>, cache: Cache, k: nat)
    requires r.Coherent() && Working(r, output, rendered, who, tasks, cache)
    requires k < |tasks| && r.images[tasks[k].tile].Some?
    ensures var (t, image) := (tasks[k], r.images[tasks[k].tile].value);
            && (t.hash != 0 ==> t.hash !in cache)
            && Working(r, output + image, PushRendered(rendered, r.tiles[t.tile], t.wireId, |image|), who + [t.tile],
                       RemoveAt(tasks, k), if t.hash == 0 then cache else cache[t.hash := Entry(1, t.wireId, image)])
  {
    TaskOf(r, tasks, k);
    hide Faithful, TasksValid, r.Coherent;
    var t, image := tasks[k], r.images[tasks[k].tile].value;
    TilesRemoveAt(tasks, k);
    RemoveAtMeans(TilesOf(tasks), k);
    assert TilesOf(tasks)[k] in TilesOf(tasks);
    FaithfulPush(r, output, rendered, who, t.tile);
    CacheGrows(r, tasks, cache, k);
    AnsweredGrows(r, who, tasks, k);
  }

  lemma {:induction false} TaskOf(r: Request, tasks: seq<EncodeTask>, k: nat)
    requires r.Sized() && k < |tasks| && TasksValid(r, tasks)
    ensures var t := tasks[k];
            && t.tile < |r.tiles| && KindOf(r, t.tile) == Encode
            && t.hash == r.hashes[t.tile] && t.wireId == r.wids[t.tile]
            && Picture(r, t.tile) == r.images[t.tile]
    ensures Distinct(TilesOf(tasks)) && TasksValid(r, RemoveAt(tasks, k))
  {
    TilesRemoveAt(tasks, k);
    RemoveAtMeans(TilesOf(tasks), k);
  }

  lemma {:induction false} AnsweredGrows(r: Request, who: seq<nat>, tasks: seq<EncodeTask>, k: nat)
    requires r.Sized() && k < |tasks| && TasksValid(r, tasks) && AnsweredSoFar(r, who, TilesOf(tasks))
    requires r.images[tasks[k].tile].Some?
    ensures AnsweredSoFar(r, who + [tasks[k].tile], TilesOf(RemoveAt(tasks, k)))
  {
    hide KindOf;
    TilesRemoveAt(tasks, k);
    RemoveAtMeans(TilesOf(tasks), k);
    assert TilesOf(tasks)[k] in TilesOf(tasks);
  }

  lemma {:induction false} CacheGrows(r: Request, tasks: seq<EncodeTask>, cache: Cache, k: nat)
    requires r.Coherent() && k < |tasks| && TasksValid(r, tasks) && Cached(r, cache, TilesOf(tasks), [])
    requires r.images[tasks[k].tile].Some?
    ensures var (t, image) := (tasks[k], r.images[tasks[k].tile].value);
            && (t.hash != 0 ==> t.hash !in cache)
            && Cached(r, if t.hash == 0 then cache else cache[t.hash := Entry(1, t.wireId, image)],
                      TilesOf(RemoveAt(tasks, k)), [])
  {
    hide KindOf, Rep, Reused, Among, r.Coherent;
    CoherentIsSized(r);
    var t, before, after := tasks[k], TilesOf(tasks), TilesOf(RemoveAt(tasks, k));
    AddedByTask(r, tasks, k);
    NowExactly(r, t.tile);
    NoneAmong(r, t.hash);
    forall e: nat | Added(r, e, t.hash, before) ensures false {
      EncodedForItself(r, t.tile);
      AddedByOne(r, e, t.hash, before, t.tile);
    }
  }

  lemma {:induction false} EncodedForItself(r: Request, i: nat)
    requires r.Sized() && i < |r.tiles| && KindOf(r, i) == Encode
    ensures Rep(r, i) == i
  {
  }

  lemma {:induction false} NoneAmong(r: Request, h: Hash)
    requires r.Sized()
    ensures Among(r, [], h) == {}
  {
  }

  lemma {:induction false} AddedByTask(r: Request, tasks: seq<EncodeTask>, k: nat)
    requires r.Sized() && k < |tasks| && TasksValid(r, tasks) && r.images[tasks[k].tile].Some?
    ensures forall e: nat, h :: Added(r, e, h, TilesOf(RemoveAt(tasks, k))) <==>
              Added(r, e, h, TilesOf(tasks)) || (e == tasks[k].tile && h == tasks[k].hash && h != 0)
    ensures forall h :: !Added(r, tasks[k].tile, h, TilesOf(tasks))
  {
    hide KindOf;
    TilesRemoveAt(tasks, k);
    RemoveAtMeans(TilesOf(tasks), k);
    assert TilesOf(tasks)[k] in TilesOf(tasks);
  }

  /** One task, inside the pool's run: compresses its tile and, if that succeeds, appends the image,
      caches it and records the answer, all under one lock. */
  method RunTask(pngCache: PngCache, ghost r: Request, tiles: seq<TileDesc>, images: seq<Option<seq<byte>>>,
                 output: seq<byte>, rendered: seq<TileDesc>, tasks: seq<EncodeTask>, k: nat, ghost who: seq<nat>)
    returns (newOutput: seq<byte>, newRendered: seq<TileDesc>, ghost newWho: seq<nat>)
    requires pngCache.Valid() && r.Coherent() && tiles == r.tiles && images == r.images
    requires Working(r, output, rendered, who, tasks, pngCache.cache) && k < |tasks|
    requires IdsMean(r, pngCache.wireIds)
    modifies pngCache`cache, pngCache`cacheSize
    ensures pngCache.Valid()
    ensures Working(r, newOutput, newRendered, newWho, RemoveAt(tasks, k), pngCache.cache)
  {
    assert r.Sized();
    hide pngCache.Valid, r.Coherent, Working;
    newOutput, newRendered, newWho := output, rendered, who;
    var t := tasks[k];
    WorkingTask(r, output, rendered, who, tasks, pngCache.cache, k);
    match images[t.tile]
    case None =>
      TaskFails(r, output, rendered, who, tasks, pngCache.cache, k);
    case Some(data) =>
      TaskSucceeds(r, output, rendered, who, tasks, pngCache.cache, k);
      newOutput := output + data;
      pngCache.AddToCache(data, t.wireId, t.hash);
      newRendered := PushRendered(rendered, tiles[t.tile], t.wireId, |data|);
      newWho := who + [t.tile];
  }

  lemma {:induction false} WorkingTask(r: Request, output: seq<byte>, rendered: seq<TileDesc>, who: seq<nat>,
                                       tasks: seq<EncodeTask>, cache: Cache, k: nat)
    requires r.Sized() && Working(r, output, rendered, who, tasks, cache) && k < |tasks|
    ensures tasks[k].tile < |r.tiles| && tasks[k].hash == r.hashes[tasks[k].tile]
            && tasks[k].wireId == r.wids[tasks[k].tile]
  {
  }

  /** The pool's run: each pushed task is run once, in an order that the threads decide. */
  method RunPool(pngCache: PngCache, ghost r: Request, tiles: seq<TileDesc>, images: seq<Option<seq<byte>>>,
                 output: seq<byte>, rendered: seq<TileDesc>, tasks: seq<EncodeTask>, ghost who: seq<nat>)
    returns (newOutput: seq<byte>, newRendered: seq<TileDesc>, ghost newWho: seq<nat>)
    requires pngCache.Valid() && r.Coherent() && tiles == r.tiles && images == r.images
    requires Working(r, output, rendered, who, tasks, pngCache.cache)
    requires IdsMean(r, pngCache.wireIds)
    modifies pngCache`cache, pngCache`cacheSize
    ensures pngCache.Valid()
    ensures Working(r, newOutput, newRendered, newWho, [], pngCache.cache)
  {
    assert r.Sized();
    hide pngCache.Valid, r.Coherent, Working, IdsMean;
    newOutput, newRendered, newWho := output, rendered, who;
    var pending := tasks;
    while pending != []
      invariant pngCache.Valid()
      invariant Working(r, newOutput, newRendered, newWho, pending, pngCache.cache)
      decreases |pending|
    {
      var k: nat :| k < |pending|;
      newOutput, newRendered, newWho := RunTask(pngCache, r, tiles, images, newOutput, newRendered, pending, k, newWho);
      pending := RemoveAt(pending, k);
    }
  }

  // ----- the duplicates ---------------------------------------------------------------------

  /** Answered are all tiles that have a picture, but of the duplicates only those not in `later`. */
  ghost predicate AnsweredBut(r: Request, who: seq<nat>, later: seq<nat>)
    requires r.Sized()
  {
    forall i: nat :: i in who <==> i < |r.tiles| && Picture(r, i).Some? && i !in later
  }

  lemma {:induction false} DuplicateCached(r: Request, cache: Cache, done: seq<nat>, i: nat)
    requires r.Coherent() && i < |r.tiles| && KindOf(r, i) == Duplicate && Cached(r, cache, [], done)
    requires 0 !in cache
    ensures (if r.hashes[i] in cache then Some(cache[r.hashes[i]].data) else None) == Picture(r, i)
  {
    hide KindOf, Rep, r.Coherent, Reused, Among;
    CoherentIsSized(r);
    DuplicatePicture(r, i);
    NowExactly(r, i);
    var h := r.hashes[i];
    if h in cache {
      var e: nat :| Added(r, e, h, []);
      AddedByOne(r, e, h, [], i);
    } else if h != 0 && r.hashes[Rep(r, i)] == h {
      RepIsEncoded(r, i);
      assert !Added(r, Rep(r, i), h, []);
    }
  }

  /** Looking up one duplicate more. */
  lemma {:induction false} DuplicateHit(r: Request, cache: Cache, done: seq<nat>, i: nat)
    requires r.Coherent() && i < |r.tiles| && KindOf(r, i) == Duplicate && i !in done && Cached(r, cache, [], done)
    ensures Cached(r, Hit(cache, r.hashes[i]), [], done + [i])
  {
    hide KindOf, Reused, Added, Among, r.Coherent;
    CoherentIsSized(r);
    NowExactly(r, i);
    forall h ensures |Among(r, done + [i], h)| == |Among(r, done, h)| + if r.hashes[i] == h then 1 else 0 {
      AmongNext(r, done, i, h);
    }
  }

  lemma {:induction false} AmongNext(r: Request, done: seq<nat>, i: nat, h: Hash)
    requires r.Sized() && i < |r.tiles| && i !in done
    ensures |Among(r, done + [i], h)| == |Among(r, done, h)| + if r.hashes[i] == h then 1 else 0
  {
    assert Among(r, done + [i], h) == Among(r, done, h) + if r.hashes[i] == h then {i} else {};
  }

  lemma {:induction false} DuplicatePicture(r: Request, i: nat)
    requires r.Sized() && i < |r.tiles| && KindOf(r, i) == Duplicate
    ensures Picture(r, i) ==
            if r.hashes[i] != 0 && r.hashes[Rep(r, i)] == r.hashes[i] then r.images[Rep(r, i)] else None
  {
  }

  lemma {:induction false} DuplicatesLast(r: Request, who: seq<nat>, dups: seq<nat>)
    requires r.Sized() && AnsweredSoFar(r, who, []) && Sorted(r, |r.tiles|, Duplicate, dups)
    ensures AnsweredBut(r, who, dups)
  {
    hide Rep;
    forall i: nat ensures i in who <==> i < |r.tiles| && Picture(r, i).Some? && i !in dups {
      assert i in dups <==> i < |r.tiles| && KindOf(r, i) == Duplicate;
    }
  }

  method AppendDuplicates(pngCache: PngCache, ghost r: Request, duplicateTiles: seq<TileDesc>,
                          duplicateHashes: seq<Hash>,
                          output: seq<byte>, rendered: seq<TileDesc>, ghost who: seq<nat>, ghost dups: seq<nat>)
    returns (newOutput: seq<byte>, newRendered: seq<TileDesc>, ghost newWho: seq<nat>)
    requires pngCache.Valid() && r.Coherent()
    requires Working(r, output, rendered, who, [], pngCache.cache)
    requires DuplicatesMean(r, duplicateTiles, duplicateHashes, |r.tiles|, dups)
    modifies pngCache`cache, pngCache`cacheHits, pngCache`cacheTests
    ensures pngCache.Valid() && Cached(r, pngCache.cache, [], dups)
    ensures Faithful(r, newOutput, newRendered, newWho) && AnsweredBut(r, newWho, [])
  {
    CoherentIsSized(r);
    hide pngCache.Valid, r.Coherent, Faithful, Cached, AnsweredBut, KindOf, Working, DuplicatesMean, Sorted;
    newOutput, newRendered, newWho := output, rendered, who;
    WorkIsDone(r, output, rendered, who, pngCache.cache, duplicateTiles, duplicateHashes, dups);
    assert dups[0..] == dups;
    for i := 0 to |duplicateTiles|
      invariant pngCache.Valid() && Cached(r, pngCache.cache, [], dups[..i])
      invariant Faithful(r, newOutput, newRendered, newWho) && AnsweredBut(r, newWho, dups[i..])
    {
      DuplicateAt(r, duplicateTiles, duplicateHashes, dups, i);
      newOutput, newRendered, newWho := AppendDuplicate(
        pngCache, r, duplicateTiles[i], duplicateHashes[i], newOutput, newRendered, newWho, dups, i);
    }
    assert dups[|duplicateTiles|..] == [] && dups[..|duplicateTiles|] == dups;
  }

  method AppendDuplicate(pngCache: PngCache, ghost r: Request, d: TileDesc, hash: Hash, output: seq<byte>,
                         rendered: seq<TileDesc>, ghost who: seq<nat>, ghost dups: seq<nat>, ghost i: nat)
    returns (newOutput: seq<byte>, newRendered: seq<TileDesc>, ghost newWho: seq<nat>)
    requires pngCache.Valid() && r.Coherent() && Sorted(r, |r.tiles|, Duplicate, dups)
    requires i < |dups| && dups[i] < |r.tiles| && KindOf(r, dups[i]) == Duplicate && dups[i] !in dups[..i]
    requires hash == r.hashes[dups[i]] && d == r.tiles[dups[i]].(wireId := r.wids[dups[i]], imgSize := 0)
    requires Cached(r, pngCache.cache, [], dups[..i])
    requires Faithful(r, output, rendered, who) && AnsweredBut(r, who, dups[i..])
    modifies pngCache`cache, pngCache`cacheHits, pngCache`cacheTests
    ensures pngCache.Valid() && Cached(r, pngCache.cache, [], dups[..i + 1])
    ensures Faithful(r, newOutput, newRendered, newWho) && AnsweredBut(r, newWho, dups[i + 1..])
  {
    CoherentIsSized(r);
    hide pngCache.Valid, r.Coherent, Faithful, Cached, AnsweredBut, Picture, KindOf, Sorted, Hit;
    NothingAtZero(pngCache);
    DuplicateCached(r, pngCache.cache, dups[..i], dups[i]);
    DuplicateHit(r, pngCache.cache, dups[..i], dups[i]);
    assert dups[..i + 1] == dups[..i] + [dups[i]];
    DuplicateNext(r, output, rendered, who, dups, i);
    newOutput, newRendered, newWho := output, rendered, who;
    var found, out, imgSize := pngCache.CopyFromCache(hash, output);
    if found {
      newOutput := out;
      newRendered := PushRendered(rendered, d, d.wireId, imgSize);
      newWho := who + [dups[i]];
    }
  }

  lemma {:induction false} WorkIsDone(r: Request, output: seq<byte>, rendered: seq<TileDesc>, who: seq<nat>,
                                      cache: Cache, duplicateTiles: seq<TileDesc>, duplicateHashes: seq<Hash>,
                                      dups: seq<nat>)
    requires r.Sized() && Working(r, output, rendered, who, [], cache)
    requires DuplicatesMean(r, duplicateTiles, duplicateHashes, |r.tiles|, dups)
    ensures Faithful(r, output, rendered, who) && Cached(r, cache, [], []) && AnsweredBut(r, who, dups)
    ensures |duplicateTiles| == |duplicateHashes| == |dups| && Sorted(r, |r.tiles|, Duplicate, dups)
  {
    hide Faithful, Cached, AnsweredBut, AnsweredSoFar, Sorted;
    assert TilesOf([]) == [];
    DuplicatesLast(r, who, dups);
  }

  lemma {:induction false} DuplicateAt(r: Request, duplicateTiles: seq<TileDesc>, duplicateHashes: seq<Hash>,
                                       dups: seq<nat>, i: nat)
    requires r.Sized() && DuplicatesMean(r, duplicateTiles, duplicateHashes, |r.tiles|, dups) && i < |dups|
    ensures dups[i] < |r.tiles| && KindOf(r, dups[i]) == Duplicate && dups[i] !in dups[..i]
    ensures duplicateHashes[i] == r.hashes[dups[i]]
    ensures duplicateTiles[i] == r.tiles[dups[i]].(wireId := r.wids[dups[i]], imgSize := 0)
  {
    hide KindOf;
    assert dups[i] in dups;
  }

  lemma {:induction false} NothingAtZero(pngCache: PngCache)
    requires pngCache.Valid()
    ensures 0 !in pngCache.cache
  {
  }

  lemma {:induction false} DuplicateNext(r: Request, output: seq<byte>, rendered: seq<TileDesc>, who: seq<nat>,
                                         dups: seq<nat>, i: nat)
    requires r.Sized() && Faithful(r, output, rendered, who) && i < |dups| && AnsweredBut(r, who, dups[i..])
    requires Sorted(r, |r.tiles|, Duplicate, dups) && dups[i] < |r.tiles|
    ensures Picture(r, dups[i]) == None ==> AnsweredBut(r, who, dups[i + 1..])
    ensures Picture(r, dups[i]).Some? ==>
              var image := Picture(r, dups[i]).value;
              && AnsweredBut(r, who + [dups[i]], dups[i + 1..])
              && Faithful(r, output + image, PushRendered(rendered, r.tiles[dups[i]], r.wids[dups[i]], |image|),
                          who + [dups[i]])
  {
    hide Faithful, Picture, KindOf;
    assert dups[i..] == [dups[i]] + dups[i + 1..];
    assert dups[i] in dups[i..];
    assert dups[i] !in dups[i + 1..];
    if Picture(r, dups[i]).Some? {
      FaithfulPush(r, output, rendered, who, dups[i]);
    }
  }

  // ----- the whole request ------------------------------------------------------------------

  ghost function RequestOf(tiles: seq<TileDesc>, hashes: seq<Hash>, images: seq<Option<seq<byte>>>, known: Cache,
                           ids: Ids): Request {
    Request(tiles, hashes, images, known, Wids(ids, hashes))
  }

  /** The first loop over the whole request. */
  method ScanTiles(pngCache: PngCache, ghost r: Request, tiles: seq<TileDesc>, hashes: seq<Hash>)
    returns (s: Scan, ghost who: seq<nat>, ghost dups: seq<nat>)
    requires pngCache.Valid() && NoneWraps(pngCache.CurrentIds(), hashes)
    requires r.Coherent() && tiles == r.tiles && hashes == r.hashes
    requires r.known == pngCache.cache && r.wids == Wids(pngCache.CurrentIds(), hashes)
    modifies pngCache
    ensures pngCache.Valid()
    ensures ScanMeans(r, s, |tiles|, who, dups)
    ensures Scanned(r, pngCache.cache, |r.tiles|) && IdsMean(r, pngCache.wireIds)
    ensures pngCache.CurrentIds() == IdsAfter(old(pngCache.CurrentIds()), hashes, |hashes|)
  {
    hide pngCache.Valid, r.Coherent, r.Sized, ScanMeans, HashToWireId, IdsAfter, Wraps, Wids, NoneWraps, ValidIds,
         IdsMean, Scanned;
    CoherentIsSized(r);
    ghost var ids := pngCache.CurrentIds();
    IdsHere(pngCache);
    IdsMeanAtLast(r, ids);
    NothingScanned(r);
    s, who, dups := Scan([], [], [], [], [], []), [], [];
    ScanNothing(r);
    for i := 0 to |tiles|
      invariant pngCache.Valid() && Scanned(r, pngCache.cache, i)
      invariant pngCache.CurrentIds() == IdsAfter(ids, hashes, i)
      invariant ScanMeans(r, s, i, who, dups)
    {
      LookupOf(r, ids, i);
      var wireId := pngCache.HashToWireId(hashes[i]);
      s, who, dups := ScanTile(pngCache, r, s, i, tiles[i], hashes[i], wireId, who, dups);
    }
  }

  /** Looking up the hash of the `i`-th tile. */
  lemma {:induction false} LookupOf(r: Request, s: Ids, i: nat)
    requires r.Sized() && i < |r.hashes| && NoneWraps(s, r.hashes) && r.wids == Wids(s, r.hashes)
    ensures HashToWireId(IdsAfter(s, r.hashes, i), r.hashes[i]) == (r.wids[i], IdsAfter(s, r.hashes, i + 1))
    ensures !Wraps(IdsAfter(s, r.hashes, i), r.hashes[i])
  {
    hide HashToWireId, Wraps;
    IdsStep(s, r.hashes, i);
  }

  lemma {:induction false} CoherentIsSized(r: Request)
    requires r.Coherent()
    ensures r.Sized() && |r.tiles| == |r.hashes| == |r.images| == |r.wids|
  {
  }

  lemma {:induction false} NothingScanned(r: Request)
    requires r.Sized()
    ensures Scanned(r, r.known, 0)
  {
    assert forall h :: Users(r, h, 0) == {};
  }

  lemma {:induction false} IdsHere(pngCache: PngCache)
    requires pngCache.Valid()
    ensures ValidIds(pngCache.CurrentIds())
  {
  }

  lemma {:induction false} IdsMeanAtLast(r: Request, s: Ids)
    requires r.Sized() && ValidIds(s) && NoneWraps(s, r.hashes) && r.wids == Wids(s, r.hashes)
    ensures IdsAfter(s, r.hashes, 0) == s && IdsMean(r, IdsAfter(s, r.hashes, |r.hashes|).table)
  {
    hide WidAt, NoneWraps, ValidIds;
    forall i | 0 <= i < |r.hashes| && r.hashes[i] != 0
      ensures HasId(IdsAfter(s, r.hashes, |r.hashes|), r.hashes[i], r.wids[i])
    {
      IdsStay(s, r.hashes, i, |r.hashes|);
    }
  }

  lemma {:induction false} ScanNothing(r: Request)
    requires r.Sized()
    ensures ScanMeans(r, Scan([], [], [], [], [], []), 0, [], [])
  {
    assert Answerable(r, []);
    assert Joined(r, []) == [];
  }

  lemma {:induction false} ScanToWorking(r: Request, s: Scan, who: seq<nat>, dups: seq<nat>, cache: Cache)
    requires r.Sized() && ScanMeans(r, s, |r.tiles|, who, dups) && Scanned(r, cache, |r.tiles|)
    ensures Working(r, s.output, s.rendered, who, s.tasks, cache)
    ensures DuplicatesMean(r, s.duplicateTiles, s.duplicateHashes, |r.tiles|, dups)
  {
    hide Faithful, Rep, KindOf;
    var xs := TilesOf(s.tasks);
    forall i: nat | i < |r.tiles| && KindOf(r, i) != Now ensures Rep(r, i) in xs && r.hashes[i] !in r.known {
      RepIsEncoded(r, i);
      NowExactly(r, i);
    }
    forall k | 0 <= k < |s.tasks| ensures KindOf(r, s.tasks[k].tile) == Encode {
      assert xs[k] in xs;
    }
  }

  /** One message for each answer, with its part of the output. */
  method SendEach(ghost r: Request, output: seq<byte>, rendered: seq<TileDesc>,
                  ghost who: seq<nat>) returns (sent: seq<Reply>)
    requires r.Sized() && Faithful(r, output, rendered, who)
    ensures |sent| == |rendered|
    ensures forall k :: 0 <= k < |who| ==> sent[k] == TileReply(rendered[k], Picture(r, who[k]).value)
  {
    hide Faithful, Picture, Offset;
    sent := [];
    var outputOffset := 0;
    FaithfulParts(r, output, rendered, who);
    OffsetStep(rendered, 0);
    for i := 0 to |rendered|
      invariant outputOffset == Offset(rendered, i) && |sent| == i
      invariant forall k :: 0 <= k < i ==> sent[k] == TileReply(rendered[k], Picture(r, who[k]).value)
    {
      SlicesAreOwn(r, output, rendered, who, i);
      OffsetStep(rendered, i + 1);
      sent := sent + [TileReply(rendered[i], output[outputOffset..outputOffset + rendered[i].imgSize])];
      outputOffset := outputOffset + rendered[i].imgSize;
    }
  }

  lemma {:induction false} FaithfulParts(r: Request, output: seq<byte>, rendered: seq<TileDesc>, who: seq<nat>)
    requires r.Sized() && Faithful(r, output, rendered, who)
    ensures |who| == |rendered| && Answerable(r, who)
  {
  }

  lemma {:induction false} OffsetStep(rendered: seq<TileDesc>, k: nat)
    requires k <= |rendered|
    ensures Offset(rendered, k) == if k == 0 then 0 else Offset(rendered, k - 1) + rendered[k - 1].imgSize
  {
  }

  /** What was sent answers the tiles `who` of the request, each once, with their own pictures: joined
      in one message, or one by one. */
  ghost predicate Replies(r: Request, combined: bool, sent: seq<Reply>, who: seq<nat>)
    requires r.Sized()
  {
    && Answerable(r, who) && Distinct(who)
    && if combined then
         && |sent| == 1 && sent[0].CombinedReply?
         && Faithful(r, sent[0].payload, sent[0].descs, who)
       else
         && |sent| == |who|
         && forall k :: 0 <= k < |who| ==>
              var (desc, image) := (r.tiles[who[k]], Picture(r, who[k]).value);
              sent[k] == TileReply(desc.(wireId := r.wids[who[k]], imgSize := |image|), image)
  }

  /** The first tile with its wire id that could not be answered at once, if the encoder did not fail on it:
      under the hash `h` its image is new in the cache. */
  ghost predicate NewlyCached(r: Request, e: nat, h: Hash)
    requires r.Sized()
  {
    e < |r.tiles| && h != 0 && r.hashes[e] == h && FirstOf(r, e, e) && r.images[e].Some?
  }

  /** What is cached at the end of the request: the images known before, used once more by every tile with
      the hash that the client does not have, and the new ones, used once by every such tile. */
  ghost predicate HeldAtEnd(r: Request, cache: Cache)
    requires r.Sized()
  {
    && (forall h :: h in r.known ==> h in cache && cache[h] == Reused(r, h, |r.tiles|))
    && (forall h :: h in cache && h !in r.known ==> exists e: nat :: NewlyCached(r, e, h))
    && (forall e: nat, h :: NewlyCached(r, e, h) ==>
          h in cache && cache[h] == Entry(|Users(r, h, |r.tiles|)|, r.wids[e], r.images[e].value))
  }

  lemma {:induction false} NewlyCachedIsAdded(r: Request, e: nat, h: Hash)
    requires r.Sized()
    ensures NewlyCached(r, e, h) <==> Added(r, e, h, [])
  {
    if e < |r.tiles| && FirstOf(r, e, e) {
      assert !AtOnce(r, e) && Rep(r, e) == e;
    }
    if e < |r.tiles| && KindOf(r, e) == Encode {
      assert FirstOf(r, e, e);
    }
  }

  /** The users of a new image are the tile that was compressed and its duplicates. */
  lemma {:induction false} UsersOfNew(r: Request, e: nat, h: Hash, dups: seq<nat>)
    requires r.Coherent() && Added(r, e, h, []) && Sorted(r, |r.tiles|, Duplicate, dups)
    ensures |Users(r, h, |r.tiles|)| == 1 + |Among(r, dups, h)|
  {
    var users, others := Users(r, h, |r.tiles|), Among(r, dups, h);
    EncodedForItself(r, e);
    forall i: nat ensures i in users <==> i == e || i in others {
      if i < |r.tiles| && r.hashes[i] == h {
        UserIs(r, e, h, i);
      }
    }
    assert users == others + {e} && e !in others;
  }

  lemma {:induction false} UserIs(r: Request, e: nat, h: Hash, i: nat)
    requires r.Coherent() && Added(r, e, h, []) && i < |r.tiles| && r.hashes[i] == h
    ensures !Skipped(r, i) <==> i == e || KindOf(r, i) == Duplicate
  {
    hide r.Coherent, Rep;
    CoherentIsSized(r);
    NowExactly(r, i);
    NowExactly(r, e);
    if KindOf(r, i) == Encode {
      EncodedForItself(r, i);
      AddedByOne(r, e, h, [], i);
    }
  }

  lemma {:induction false} CachedAtEnd(r: Request, cache: Cache, dups: seq<nat>)
    requires r.Coherent() && Cached(r, cache, [], dups) && Sorted(r, |r.tiles|, Duplicate, dups)
    ensures HeldAtEnd(r, cache)
  {
    hide r.Coherent, Added, NewlyCached, Reused, Users, Among, Sorted;
    CoherentIsSized(r);
    forall e: nat, h ensures NewlyCached(r, e, h) <==> Added(r, e, h, []) {
      NewlyCachedIsAdded(r, e, h);
    }
    forall e: nat, h | Added(r, e, h, []) ensures |Users(r, h, |r.tiles|)| == 1 + |Among(r, dups, h)| {
      UsersOfNew(r, e, h, dups);
    }
  }

  /** doRender, given the hash and the compressed form of every tile.  Exactly the tiles that have a
      picture are answered, each exactly once, whatever order the pool has run its tasks in.  Afterwards
      the wire ids are those after looking up the hashes in turn, trimmed, and the images those `held` at
      the end of the request, balanced. */
  method DoRender(pngCache: PngCache, tiles: seq<TileDesc>, hashes: seq<Hash>, images: seq<Option<seq<byte>>>,
                  combined: bool)
    returns (ok: bool, sent: seq<Reply>, ghost r: Request, ghost who: seq<nat>, ghost held: Images)
    requires pngCache.Valid() && NoneWraps(pngCache.CurrentIds(), hashes)
    requires |tiles| == |hashes| == |images|
    modifies pngCache
    ensures pngCache.Valid()
    ensures r == RequestOf(tiles, hashes, images, old(pngCache.cache), old(pngCache.CurrentIds()))
    ensures r.Coherent() && (r.Valid() <==> NoZeroId(old(pngCache.CurrentIds()), hashes))
    ensures AnsweredBut(r, who, []) && CacheFrom(r, pngCache.cache)
    ensures if tiles == [] then !ok && sent == [] else ok && Replies(r, combined, sent, who)
    ensures pngCache.CurrentIds() == TrimIds(IdsAfter(old(pngCache.CurrentIds()), hashes, |hashes|))
    ensures held.Valid() && HeldAtEnd(r, held.cache) && BalancedFrom(held, pngCache.CurrentImages())
  {
    hide NoneWraps, ScanMeans, Working, IdsMean, AnsweredBut, Faithful, CacheFrom, BalancedFrom, DataOf, Scanned,
         Cached, HeldAtEnd, TrimIds, IdsAfter;
    r := RequestOf(tiles, hashes, images, pngCache.cache, pngCache.CurrentIds());
    IdsHere(pngCache);
    RequestIsValid(r, pngCache.CurrentIds());
    var s, whoNow, dups := ScanTiles(pngCache, r, tiles, hashes);
    ScanToWorking(r, s, whoNow, dups, pngCache.cache);
    var output, rendered;
    output, rendered, who := RunPool(pngCache, r, tiles, images, s.output, s.rendered, s.tasks, whoNow);
    output, rendered, who :=
      AppendDuplicates(pngCache, r, s.duplicateTiles, s.duplicateHashes, output, rendered, who, dups);
    DuplicatesSorted(r, s.duplicateTiles, s.duplicateHashes, dups);
    CachedAtEnd(r, pngCache.cache, dups);
    held := pngCache.CurrentImages();
    HeldFrom(r, held.cache);
    pngCache.BalanceCache();
    BalanceKeepsData(held, pngCache.CurrentImages());
    CacheFromLess(r, held.cache, pngCache.cache);
    if |tiles| == 0 {
      return false, [], r, who, held;
    }
    ok := true;
    FaithfulAnswers(r, output, rendered, who);
    if combined {
      sent := [CombinedReply(rendered, output)];
    } else {
      sent := SendEach(r, output, rendered, who);
    }
  }

  lemma {:induction false} DuplicatesSorted(r: Request, duplicateTiles: seq<TileDesc>, duplicateHashes: seq<Hash>,
                                            dups: seq<nat>)
    requires r.Sized() && DuplicatesMean(r, duplicateTiles, duplicateHashes, |r.tiles|, dups)
    ensures Sorted(r, |r.tiles|, Duplicate, dups)
  {
  }

  lemma {:induction false} HeldFrom(r: Request, cache: Cache)
    requires r.Sized() && HeldAtEnd(r, cache)
    ensures CacheFrom(r, cache)
  {
    hide Users, FirstOf;
    forall h | h in cache ensures Known(r, h, cache[h].data) || Encoded(r, h, cache[h].data) {
      if h !in r.known {
        var e: nat :| NewlyCached(r, e, h);
      }
    }
  }

  lemma {:induction false} BalanceKeepsData(s: Images, t: Images)
    requires s.Valid() && BalancedFrom(s, t)
    ensures DataOf(t.cache, s.cache)
  {
    hide Balanced, TotalSize, TotalHits;
    var order :| IsOrder(order, s.cache.Keys) && t == Balanced(s, order);
    BalanceShrinks(s, order);
  }

  lemma {:induction false} FaithfulAnswers(r: Request, output: seq<byte>, rendered: seq<TileDesc>, who: seq<nat>)
    requires r.Sized() && Faithful(r, output, rendered, who)
    ensures Answerable(r, who) && Distinct(who) && |who| == |rendered|
    ensures forall k :: 0 <= k < |who| ==>
              rendered[k] == r.tiles[who[k]].(wireId := r.wids[who[k]], imgSize := |Picture(r, who[k]).value|)
  {
  }

  // ----- what that means --------------------------------------------------------------------

  /** With hashes that are not 0 and an encoder that does not fail, every tile of the request is
      answered if the wire ids tell the hashes apart, duplicates included. */
  lemma {:induction false} EveryTileAnsweredOnce(r: Request, who: seq<nat>)
    requires r.Valid() && AnsweredBut(r, who, []) && Distinct(who)
    requires forall i :: 0 <= i < |r.tiles| ==> r.hashes[i] != 0 && r.images[i].Some?
    ensures forall i: nat :: i < |r.tiles| <==> i in who
    ensures forall k, l :: 0 <= k < |who| && 0 <= l < |who| && who[k] == who[l] ==> k == l
  {
    forall i: nat | i < |r.tiles| ensures Picture(r, i).Some? {
      assert r.wids[Rep(r, i)] == r.wids[i];
    }
  }

  /** A tile stays unanswered exactly if it is not skipped, not cached, and the first tile with its wire
      id that is compressed does not help: the encoder fails on it, or it is another tile that has no
      hash or a different one. */
  lemma {:induction false} UnansweredExactly(r: Request, who: seq<nat>, i: nat)
    requires r.Sized() && AnsweredBut(r, who, []) && i < |r.tiles|
    ensures i !in who <==>
              && !Skipped(r, i) && r.hashes[i] !in r.known
              && exists j: nat :: FirstOf(r, j, i) &&
                   (r.images[j].None? || (j < i && (r.hashes[i] == 0 || r.hashes[j] != r.hashes[i])))
  {
    var j := Rep(r, i);
    if !AtOnce(r, i) {
      assert FirstOf(r, j, i);
      forall k: nat | FirstOf(r, k, i) ensures k == j {
      }
    }
  }

  /** A request to a new cache: two tiles without a hash, and two with the same pixels on which the
      encoder fails.  Only the first is answered. */
  lemma {:induction false} UnansweredTiles(tile: TileDesc) returns (r: Request)
    requires tile.oldWireId == 0
    ensures r == RequestOf([tile, tile, tile, tile], [0, 0, 5, 5], [Some([1]), Some([2]), None, None], map[], NO_IDS)
    ensures r.Valid() && Picture(r, 0) == Some([1])
    ensures forall who :: AnsweredBut(r, who, []) ==> 0 in who && 1 !in who && 2 !in who && 3 !in who
  {
    r := RequestOf([tile, tile, tile, tile], [0, 0, 5, 5], [Some([1]), Some([2]), None, None], map[], NO_IDS);
    RequestIsValid(r, NO_IDS);
    FourWids();
    assert r.wids[0] == 0 && r.wids[2] == 2 && r.wids[3] == 2;
    assert Rep(r, 0) == 0;
    assert RepFrom(r, 1, 0) == 0;
    assert RepFrom(r, 2, 2) == 2 && RepFrom(r, 2, 1) == 2 && RepFrom(r, 2, 0) == 2;
    assert RepFrom(r, 3, 2) == 2 && RepFrom(r, 3, 1) == 2 && RepFrom(r, 3, 0) == 2;
    assert Picture(r, 1) == Picture(r, 2) == Picture(r, 3) == None;
  }

  lemma {:induction false} FourWids()
    ensures WidAt(NO_IDS, [0, 0, 5, 5], 0) == 0 && WidAt(NO_IDS, [0, 0, 5, 5], 1) == 0
    ensures WidAt(NO_IDS, [0, 0, 5, 5], 2) == 2 && WidAt(NO_IDS, [0, 0, 5, 5], 3) == 2
  {
    var hashes := [0, 0, 5, 5];
    assert IdsAfter(NO_IDS, hashes, 1) == NO_IDS;
    assert IdsAfter(NO_IDS, hashes, 2) == NO_IDS;
    assert IdsAfter(NO_IDS, hashes, 3) == Ids(2, map[5 := 2]);
  }

  /** A request right after the counter has wrapped: one tile without a hash, and two with the hash that
      got the id 0.  The second is taken for one that the client has, although it was never sent, and
      the third, which the client knows by another id, for a duplicate of the first. */
  lemma {:induction false} SharedIds(tile: TileDesc, known: TileDesc) returns (r: Request)
    requires tile.oldWireId == 0 && known.oldWireId != 0
    ensures var (h, ids) := (TWO_TO_THE_32 - 1, Run(Lookups(TWO_TO_THE_32 - 1)).ids);
            && r == RequestOf([tile, tile, known], [0, h, h], [Some([1]), Some([2]), Some([2])], map[], ids)
            && NoneWraps(ids, r.hashes)
    ensures r.Coherent() && !r.Valid()
    ensures Picture(r, 0) == Some([1]) && Picture(r, 1) == Some([]) && Picture(r, 2) == None
    ensures forall who :: AnsweredBut(r, who, []) ==> 0 in who && 1 in who && 2 !in who
  {
    var h, ids := TWO_TO_THE_32 - 1, Ids(1, map[TWO_TO_THE_32 - 1 := 0]);
    assert Run(Lookups(TWO_TO_THE_32 - 1)).ids == ids by { JustWrapped(); }
    r := RequestOf([tile, tile, known], [0, h, h], [Some([1]), Some([2]), Some([2])], map[], ids);
    KnownLookups(ids, r.hashes);
    RequestIsValid(r, ids);
    assert r.hashes[1] in ids.table;
    assert Rep(r, 0) == 0;
    assert RepFrom(r, 2, 0) == 0;
  }

  /** Lookups of known hashes change nothing. */
  lemma {:induction false} KnownLookups(s: Ids, hashes: seq<Hash>)
    requires ValidIds(s) && forall i :: 0 <= i < |hashes| ==> hashes[i] == 0 || hashes[i] in s.table
    ensures forall i :: 0 <= i < |hashes| ==> IdsAfter(s, hashes, i) == s
    ensures NoneWraps(s, hashes)
  {
    hide ValidIds;
    for i := 0 to |hashes|
      invariant forall k :: 0 <= k < i ==> IdsAfter(s, hashes, k) == s
      invariant IdsAfter(s, hashes, i) == s
    {
    }
  }

  /** `j` is the first tile with the wire id of tile `i` that cannot be answered at once. */
  ghost predicate FirstOf(r: Request, j: nat, i: nat)
    requires r.Sized() && i < |r.tiles|
  {
    && j <= i && r.wids[j] == r.wids[i] && !AtOnce(r, j)
    && forall k :: 0 <= k < j && r.wids[k] == r.wids[i] ==> AtOnce(r, k)
  }

  /** Equal hashes stand for equal pixels: what the encoder makes of a tile depends on its hash only. */
  ghost predicate HashesTellPixelsApart(r: Request, png: Hash -> seq<byte>)
    requires r.Sized()
  {
    forall i :: 0 <= i < |r.tiles| && r.images[i].Some? ==> r.images[i] == Some(png(r.hashes[i]))
  }

  /** Every cached image is what the encoder makes of pixels with that hash. */
  ghost predicate CacheIsSound(cache: Cache, png: Hash -> seq<byte>) {
    forall h :: h in cache ==> cache[h].data == png(h)
  }

  /** Then, from one request to the next, the cache stays sound, and every answered tile gets what
      compressing its own pixels gives, or nothing if the client already has it: neither the cache nor
      the treatment of duplicates changes a picture. */
  lemma {:induction false} PicturesAreOwn(r: Request, cache: Cache, png: Hash -> seq<byte>, i: nat)
    requires r.Sized() && HashesTellPixelsApart(r, png) && CacheIsSound(r.known, png)
    requires CacheFrom(r, cache) && i < |r.tiles|
    ensures CacheIsSound(cache, png)
    ensures Picture(r, i).Some? ==> Picture(r, i).value == if Skipped(r, i) then [] else png(r.hashes[i])
  {
    SoundStays(r, cache, png);
  }

  lemma {:induction false} SoundStays(r: Request, cache: Cache, png: Hash -> seq<byte>)
    requires r.Sized() && HashesTellPixelsApart(r, png) && CacheIsSound(r.known, png) && CacheFrom(r, cache)
    ensures CacheIsSound(cache, png)
  {
    hide Known;
    forall h | h in cache ensures cache[h].data == png(h) {
      if Known(r, h, cache[h].data) {
        KnownMeans(r, h, cache[h].data);
      }
    }
  }

  lemma {:induction false} KnownMeans(r: Request, h: Hash, data: seq<byte>)
    requires Known(r, h, data)
    ensures h in r.known && r.known[h].data == data
  {
  }
}
