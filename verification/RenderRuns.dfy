/**
 Requests for tiles answered one after the other with one cache (kit/Kit.cpp, Document::drainQueue): what
 the wire ids of the answers tell a client over a whole run.
*/
module RenderRuns {

  import opened Sequences
  import opened Wrappers
  import opened TileDescs
  import opened PngCacheSpec
  import opened PngCaches
  import opened RenderSpec
  import opened RenderTiles

  datatype State = State(images: Images, ids: Ids)

  const NEW_CACHE: State := State(Images(map[], 0), NO_IDS)

  /** One request, and the cache before it, at the end of it and after balancing. */
  datatype Round = Round(before: State, r: Request, held: Images, after: State)

  /** What doRender does. */
  ghost predicate IsRound(x: Round) {
    && x.r.Coherent() && NoneWraps(x.before.ids, x.r.hashes)
    && x.r == RequestOf(x.r.tiles, x.r.hashes, x.r.images, x.before.images.cache, x.before.ids)
    && x.held.Valid() && HeldAtEnd(x.r, x.held.cache) && BalancedFrom(x.held, x.after.images)
    && x.after.ids == TrimIds(IdsAfter(x.before.ids, x.r.hashes, |x.r.hashes|))
  }

  ghost predicate InTurn(rounds: seq<Round>) {
    forall j :: 0 <= j < |rounds| ==> FollowsOn(rounds, j)
  }

  /** Each request finds the cache as the one before it has left it, the first a new one. */
  ghost predicate FollowsOn(rounds: seq<Round>, j: nat)
    requires j < |rounds|
  {
    IsRound(rounds[j]) && rounds[j].before == StateBefore(rounds, j)
  }

  function StateBefore(rounds: seq<Round>, j: nat): State
    requires j <= |rounds|
  {
    if j == 0 then NEW_CACHE else rounds[j - 1].after
  }

  // ----- the method -------------------------------------------------------------------------

  /** A request as it comes, with the hash and the compressed form of every tile. */
  datatype Asked = Asked(tiles: seq<TileDesc>, hashes: seq<Hash>, images: seq<Option<seq<byte>>>, combined: bool)
  {
    predicate Sized() {
      |tiles| == |hashes| == |images|
    }
  }

  function Lookups(asked: seq<Asked>): nat {
    if asked == [] then 0 else Lookups(asked[..|asked| - 1]) + |asked[|asked| - 1].hashes|
  }

  lemma {:induction false} LookupsGrow(asked: seq<Asked>, i: nat)
    requires i < |asked|
    ensures Lookups(asked[..i + 1]) == Lookups(asked[..i]) + |asked[i].hashes|
    ensures Lookups(asked[..i + 1]) <= Lookups(asked)
    decreases |asked|
  {
    assert asked[..i + 1][..i] == asked[..i];
    if i == |asked| - 1 {
      assert asked[..i + 1] == asked;
    } else {
      var fewer := asked[..|asked| - 1];
      LookupsGrow(fewer, i);
      assert fewer[..i + 1] == asked[..i + 1];
    }
  }

  lemma {:induction false} CounterGrows(s: Ids, hashes: seq<Hash>, n: nat)
    requires n <= |hashes| && ValidIds(s) && s.nextId + |hashes| < TWO_TO_THE_32
    ensures ValidIds(IdsAfter(s, hashes, n)) && IdsAfter(s, hashes, n).nextId <= s.nextId + n
    ensures forall i :: 0 <= i < n ==> !Wraps(IdsAfter(s, hashes, i), hashes[i])
  {
    hide ValidIds, HashToWireId, Wraps;
    if n > 0 {
      CounterGrows(s, hashes, n - 1);
      LookupCounts(IdsAfter(s, hashes, n - 1), hashes[n - 1]);
    }
  }

  lemma {:induction false} LookupCounts(s: Ids, hash: Hash)
    requires ValidIds(s) && s.nextId < TWO_TO_THE_32 - 1
    ensures ValidIds(HashToWireId(s, hash).1) && HashToWireId(s, hash).1.nextId <= s.nextId + 1 && !Wraps(s, hash)
  {
    hide ValidIds;
    LookupKeepsValid(s, hash);
    NextId(s);
  }

  /** The answers to one request. */
  ghost predicate Answers(x: Round, asked: Asked, sent: seq<Reply>) {
    && x.r.Sized()
    && x.r.tiles == asked.tiles && x.r.hashes == asked.hashes && x.r.images == asked.images
    && exists who :: AnsweredBut(x.r, who, []) &&
         if asked.tiles == [] then sent == [] else Replies(x.r, asked.combined, sent, who)
  }

  /** The loop that answers the queued requests, on a new cache, with fewer tiles than the counter has ids. */
  method RenderQueued(pngCache: PngCache, asked: seq<Asked>) returns (sent: seq<seq<Reply>>, ghost rounds: seq<Round>)
    requires pngCache.Valid() && pngCache.cache == map[] && pngCache.CurrentIds() == NO_IDS
    requires (forall a :: a in asked ==> a.Sized()) && Lookups(asked) < TWO_TO_THE_32 - 1
    modifies pngCache
    ensures pngCache.Valid() && InTurn(rounds)
    ensures |rounds| == |sent| == |asked|
    ensures State(pngCache.CurrentImages(), pngCache.CurrentIds()) == StateBefore(rounds, |asked|)
    ensures forall j :: 0 <= j < |asked| ==> Answers(rounds[j], asked[j], sent[j])
  {
    hide ValidIds, TotalSize, pngCache.Valid, IsRound, Answers, NoneWraps;
    sent, rounds := [], [];
    NewIsEmpty(pngCache);
    for i := 0 to |asked|
      invariant pngCache.Valid() && |rounds| == |sent| == i && InTurn(rounds)
      invariant State(pngCache.CurrentImages(), pngCache.CurrentIds()) == StateBefore(rounds, i)
      invariant pngCache.nextId <= 1 + Lookups(asked[..i])
      invariant forall j :: 0 <= j < i ==> Answers(rounds[j], asked[j], sent[j])
    {
      var a := asked[i];
      LookupsGrow(asked, i);
      var replies;
      ghost var x;
      replies, x := RenderOne(pngCache, a);
      OneMoreRound(rounds, x);
      sent, rounds := sent + [replies], rounds + [x];
    }
    assert asked[..|asked|] == asked;
  }

  lemma {:induction false} OneMoreRound(rounds: seq<Round>, x: Round)
    requires InTurn(rounds) && IsRound(x) && x.before == StateBefore(rounds, |rounds|)
    ensures InTurn(rounds + [x])
  {
    hide IsRound;
    var all := rounds + [x];
    forall j | 0 <= j < |all| ensures FollowsOn(all, j) {
      if j < |rounds| {
        assert FollowsOn(rounds, j);
      }
    }
  }

  lemma {:induction false} NewIsEmpty(pngCache: PngCache)
    requires pngCache.Valid() && pngCache.cache == map[]
    ensures pngCache.cacheSize == 0
  {
    NothingCached(pngCache.cache);
  }

  method RenderOne(pngCache: PngCache, a: Asked) returns (sent: seq<Reply>, ghost x: Round)
    requires pngCache.Valid() && a.Sized() && pngCache.nextId + |a.hashes| < TWO_TO_THE_32
    modifies pngCache
    ensures pngCache.Valid() && IsRound(x) && Answers(x, a, sent)
    ensures x.before == State(old(pngCache.CurrentImages()), old(pngCache.CurrentIds()))
    ensures x.after == State(pngCache.CurrentImages(), pngCache.CurrentIds())
    ensures pngCache.nextId <= old(pngCache.nextId) + |a.hashes|
  {
    hide ValidIds, TotalSize, pngCache.Valid, IdsAfter, AnsweredBut, Replies, HeldAtEnd, BalancedFrom;
    IdsHere(pngCache);
    ghost var before := State(pngCache.CurrentImages(), pngCache.CurrentIds());
    CounterGrows(before.ids, a.hashes, |a.hashes|);
    var ok;
    ghost var r, who, held;
    ok, sent, r, who, held := DoRender(pngCache, a.tiles, a.hashes, a.images, a.combined);
    x := Round(before, r, held, State(pngCache.CurrentImages(), pngCache.CurrentIds()));
    TrimKeepsCounter(IdsAfter(before.ids, a.hashes, |a.hashes|));
  }

  // ----- what a wire id tells ---------------------------------------------------------------

  function LookupsOf(hashes: seq<Hash>): (events: seq<WidEvent>)
    ensures |events| == |hashes|
  {
    seq(|hashes|, i requires 0 <= i < |hashes| => Lookup(hashes[i]))
  }

  function EventsOf(rounds: seq<Round>): seq<WidEvent> {
    if rounds == [] then []
    else EventsOf(rounds[..|rounds| - 1]) + LookupsOf(rounds[|rounds| - 1].r.hashes) + [Balance]
  }

  lemma {:induction false} RunSnoc(events: seq<WidEvent>, e: WidEvent)
    ensures Run(events + [e]) == Happen(Run(events), e)
  {
    assert (events + [e])[..|events|] == events;
  }

  /** The lookups of one request within the history. */
  ghost predicate LookedUp(p: History, q: History, hashes: seq<Hash>, n: nat)
    requires n <= |hashes|
  {
    && q.ids == IdsAfter(p.ids, hashes, n) && q.wrapped == p.wrapped
    && (forall a :: a in p.answers ==> a in q.answers)
    && (forall i :: 0 <= i < n && hashes[i] != 0 ==> Answer(hashes[i], WidAt(p.ids, hashes, i)) in q.answers)
  }

  lemma {:induction false} LookedUpNext(p: History, q: History, hashes: seq<Hash>, n: nat)
    requires n < |hashes| && LookedUp(p, q, hashes, n) && !Wraps(q.ids, hashes[n])
    ensures LookedUp(p, Happen(q, Lookup(hashes[n])), hashes, n + 1)
  {
    hide HashToWireId, Wraps;
    IdsStep(p.ids, hashes, n);
    var next := Happen(q, Lookup(hashes[n]));
    assert forall a :: a in q.answers ==> a in next.answers;
  }

  lemma {:induction false} AfterLookups(events: seq<WidEvent>, hashes: seq<Hash>, n: nat)
    requires n <= |hashes| && NoneWraps(Run(events).ids, hashes)
    ensures LookedUp(Run(events), Run(events + LookupsOf(hashes)[..n]), hashes, n)
  {
    hide Run, Happen, Wraps, LookedUp, IdsAfter;
    var lookups := LookupsOf(hashes);
    if n == 0 {
      assert events + lookups[..0] == events;
      NothingLookedUp(Run(events), hashes);
    } else {
      var before, e := events + lookups[..n - 1], Lookup(hashes[n - 1]);
      AfterLookups(events, hashes, n - 1);
      assert events + lookups[..n] == before + [e];
      RunSnoc(before, e);
      LookedUpIds(Run(events), Run(before), hashes, n - 1);
      LookedUpNext(Run(events), Run(before), hashes, n - 1);
    }
  }

  lemma {:induction false} NothingLookedUp(p: History, hashes: seq<Hash>)
    ensures LookedUp(p, p, hashes, 0)
  {
  }

  lemma {:induction false} LookedUpIds(p: History, q: History, hashes: seq<Hash>, n: nat)
    requires n <= |hashes| && LookedUp(p, q, hashes, n)
    ensures q.ids == IdsAfter(p.ids, hashes, n)
  {
  }

  /** The history has the state after the rounds and every answer in them. */
  ghost predicate Recorded(rounds: seq<Round>, q: History) {
    && q.ids == StateBefore(rounds, |rounds|).ids && !q.wrapped
    && forall j, i :: 0 <= j < |rounds| && 0 <= i < |rounds[j].r.hashes| ==> IsRecorded(rounds[j].r, i, q)
  }

  ghost predicate IsRecorded(r: Request, i: nat, q: History)
    requires i < |r.hashes|
  {
    |r.wids| == |r.hashes| && (r.hashes[i] != 0 ==> Answer(r.hashes[i], r.wids[i]) in q.answers)
  }

  lemma {:induction false} AllRecorded(rounds: seq<Round>)
    requires InTurn(rounds)
    ensures Recorded(rounds, Run(EventsOf(rounds)))
    decreases |rounds|
  {
    hide Run, IsRound;
    if rounds == [] {
      NothingHappened();
    } else {
      var n := |rounds| - 1;
      var before, x := rounds[..n], rounds[n];
      OneLess(rounds);
      AllRecorded(before);
      var events, lookups := EventsOf(before), LookupsOf(x.r.hashes);
      RoundRecorded(events, x);
      var q := Run(EventsOf(rounds));
      forall j, i | 0 <= j < |rounds| && 0 <= i < |rounds[j].r.hashes| ensures IsRecorded(rounds[j].r, i, q) {
        if j < n {
          assert rounds[j] == before[j];
          assert IsRecorded(before[j].r, i, Run(events));
        }
      }
    }
  }

  lemma {:induction false} OneLess(rounds: seq<Round>)
    requires InTurn(rounds) && rounds != []
    ensures var n := |rounds| - 1;
            && InTurn(rounds[..n]) && IsRound(rounds[n])
            && rounds[n].before == StateBefore(rounds[..n], n) && rounds[n].after == StateBefore(rounds, n + 1)
  {
    hide IsRound;
    var n := |rounds| - 1;
    assert FollowsOn(rounds, n);
    forall j | 0 <= j < n ensures FollowsOn(rounds[..n], j) {
      assert FollowsOn(rounds, j);
    }
  }

  lemma {:induction false} NothingHappened()
    ensures Run([]) == History(NO_IDS, [], false)
  {
  }

  lemma {:induction false} RoundRecorded(events: seq<WidEvent>, x: Round)
    requires IsRound(x) && Run(events).ids == x.before.ids && !Run(events).wrapped
    ensures var q := Run(events + LookupsOf(x.r.hashes) + [Balance]);
            && q.ids == x.after.ids && !q.wrapped
            && (forall a :: a in Run(events).answers ==> a in q.answers)
            && forall i :: 0 <= i < |x.r.hashes| ==> IsRecorded(x.r, i, q)
  {
    hide Run, HeldAtEnd, BalancedFrom, TrimIds, IdsAfter, WidAt, x.r.Coherent;
    var hashes := x.r.hashes;
    var lookups := LookupsOf(hashes);
    AfterLookups(events, hashes, |hashes|);
    assert lookups[..|hashes|] == lookups;
    RunSnoc(events + lookups, Balance);
  }

  /** Over any run of requests two answers carry the same wire id only if they are for the same pixels, as far
      as hashes tell: no id stands for two hashes or for none. */
  lemma {:induction false} SameIdSameHash(rounds: seq<Round>, j: nat, i: nat, k: nat, l: nat)
    requires InTurn(rounds) && j < |rounds| && k < |rounds|
    requires i < |rounds[j].r.hashes| && l < |rounds[k].r.hashes|
    requires |rounds[j].r.wids| == |rounds[j].r.hashes| && |rounds[k].r.wids| == |rounds[k].r.hashes|
    requires rounds[j].r.wids[i] == rounds[k].r.wids[l]
    ensures rounds[j].r.hashes[i] == rounds[k].r.hashes[l]
  {
    hide Run, IsRound;
    AllRecorded(rounds);
    assert FollowsOn(rounds, j) && FollowsOn(rounds, k);
    var q := Run(EventsOf(rounds));
    IdsAreNeverShared(EventsOf(rounds));
    IdOfNoHash(rounds[j]);
    IdOfNoHash(rounds[k]);
    assert IsRecorded(rounds[j].r, i, q) && IsRecorded(rounds[k].r, l, q);
  }

  lemma {:induction false} IdOfNoHash(x: Round)
    requires IsRound(x)
    ensures |x.r.wids| == |x.r.hashes|
    ensures forall i :: 0 <= i < |x.r.hashes| && x.r.hashes[i] == 0 ==> x.r.wids[i] == 0
  {
  }

  /** Over any run: if a tile is skipped, every earlier answer that carried the id the client has was for
      the hash that the tile has now. */
  lemma {:induction false} SkippedIsUnchanged(rounds: seq<Round>, j: nat, i: nat, k: nat, l: nat)
    requires InTurn(rounds) && k <= j < |rounds| && rounds[j].r.Sized() && rounds[k].r.Sized()
    requires i < |rounds[j].r.tiles| && l < |rounds[k].r.tiles|
    requires Skipped(rounds[j].r, i) && rounds[k].r.wids[l] == rounds[j].r.tiles[i].oldWireId
    ensures rounds[k].r.hashes[l] == rounds[j].r.hashes[i]
  {
    SameIdSameHash(rounds, j, i, k, l);
  }

  // ----- the pictures -----------------------------------------------------------------------

  lemma {:induction false} CacheStaysSound(rounds: seq<Round>, png: Hash -> seq<byte>, j: nat)
    requires InTurn(rounds) && j <= |rounds|
    requires forall x :: x in rounds ==> x.r.Sized() && HashesTellPixelsApart(x.r, png)
    ensures CacheIsSound(StateBefore(rounds, j).images.cache, png)
  {
    hide IsRound, HashesTellPixelsApart, CacheIsSound;
    if j == 0 {
      NothingIsSound(png);
    } else {
      CacheStaysSound(rounds, png, j - 1);
      assert rounds[j - 1] in rounds && FollowsOn(rounds, j - 1);
      RoundKeepsSound(rounds[j - 1], png);
    }
  }

  lemma {:induction false} NothingIsSound(png: Hash -> seq<byte>)
    ensures CacheIsSound(map[], png)
  {
  }

  lemma {:induction false} RoundKeepsSound(x: Round, png: Hash -> seq<byte>)
    requires IsRound(x) && HashesTellPixelsApart(x.r, png) && CacheIsSound(x.before.images.cache, png)
    ensures CacheIsSound(x.after.images.cache, png)
    ensures forall i :: 0 <= i < |x.r.tiles| && Picture(x.r, i).Some? ==>
              Picture(x.r, i).value == if Skipped(x.r, i) then [] else png(x.r.hashes[i])
  {
    hide HeldAtEnd, BalancedFrom, HashesTellPixelsApart, CacheIsSound, Picture, Skipped, x.r.Coherent, CacheFrom,
         TrimIds, IdsAfter, NoneWraps;
    CoherentIsSized(x.r);
    HeldFrom(x.r, x.held.cache);
    BalanceKeepsData(x.held, x.after.images);
    CacheFromLess(x.r, x.held.cache, x.after.images.cache);
    RequestKeepsSound(x.r, x.after.images.cache, png);
  }

  lemma {:induction false} RequestKeepsSound(r: Request, cache: Cache, png: Hash -> seq<byte>)
    requires r.Sized() && HashesTellPixelsApart(r, png) && CacheIsSound(r.known, png) && CacheFrom(r, cache)
    ensures CacheIsSound(cache, png)
    ensures forall i :: 0 <= i < |r.tiles| && Picture(r, i).Some? ==>
              Picture(r, i).value == if Skipped(r, i) then [] else png(r.hashes[i])
  {
    hide HashesTellPixelsApart, CacheIsSound, CacheFrom, Picture, Skipped;
    SoundStays(r, cache, png);
    forall i | 0 <= i < |r.tiles| && Picture(r, i).Some?
      ensures Picture(r, i).value == if Skipped(r, i) then [] else png(r.hashes[i])
    {
      PicturesAreOwn(r, cache, png, i);
    }
  }

  /** So a client that is told to keep what it has under an id has the picture of the tile as it is now: every
      image that any earlier answer gave under this id is what compressing the present pixels gives. */
  lemma {:induction false} KeptPictureIsOwn(rounds: seq<Round>, png: Hash -> seq<byte>, j: nat, i: nat, k: nat, l: nat)
    requires InTurn(rounds) && forall x :: x in rounds ==> x.r.Sized() && HashesTellPixelsApart(x.r, png)
    requires k <= j < |rounds| && rounds[j].r.Sized() && rounds[k].r.Sized()
    requires i < |rounds[j].r.tiles| && l < |rounds[k].r.tiles|
    requires Skipped(rounds[j].r, i) && rounds[k].r.wids[l] == rounds[j].r.tiles[i].oldWireId
    requires Picture(rounds[k].r, l).Some? && !Skipped(rounds[k].r, l)
    ensures Picture(rounds[k].r, l).value == png(rounds[j].r.hashes[i])
  {
    hide IsRound, HashesTellPixelsApart, CacheIsSound, Picture, Skipped;
    SkippedIsUnchanged(rounds, j, i, k, l);
    CacheStaysSound(rounds, png, k);
    assert rounds[k] in rounds && FollowsOn(rounds, k);
    RoundKeepsSound(rounds[k], png);
  }

  // ----- and the other way round ------------------------------------------------------------

  /** The table of ids was never so large that it was trimmed. */
  ghost predicate NeverTrimmed(rounds: seq<Round>) {
    forall j :: 0 <= j < |rounds| ==>
      |IdsAfter(rounds[j].before.ids, rounds[j].r.hashes, |rounds[j].r.hashes|).table| <= WID_HARD_LIMIT
  }

  lemma {:induction false} IdsKeep(rounds: seq<Round>, k: nat, l: nat, j: nat)
    requires InTurn(rounds) && NeverTrimmed(rounds) && k < j <= |rounds| && rounds[k].r.Sized()
    requires l < |rounds[k].r.hashes|
    ensures ValidIds(StateBefore(rounds, j).ids)
    ensures HasId(StateBefore(rounds, j).ids, rounds[k].r.hashes[l], rounds[k].r.wids[l])
    decreases j
  {
    hide IsRound, HasId, ValidIds, IdsAfter;
    ValidBefore(rounds, j - 1);
    assert FollowsOn(rounds, j - 1);
    if k == j - 1 {
      RoundGives(rounds[k], l);
    } else {
      IdsKeep(rounds, k, l, j - 1);
      RoundKeeps(rounds[j - 1], rounds[k].r.hashes[l], rounds[k].r.wids[l]);
    }
    ValidBefore(rounds, j);
  }

  lemma {:induction false} ValidBefore(rounds: seq<Round>, j: nat)
    requires InTurn(rounds) && j <= |rounds|
    ensures ValidIds(StateBefore(rounds, j).ids)
  {
    hide IsRound, ValidIds;
    if j == 0 {
      NothingHandedOut();
    } else {
      ValidBefore(rounds, j - 1);
      assert FollowsOn(rounds, j - 1);
      RoundKeepsValid(rounds[j - 1]);
    }
  }

  lemma {:induction false} RoundKeepsValid(x: Round)
    requires IsRound(x) && ValidIds(x.before.ids)
    ensures ValidIds(x.after.ids)
  {
    hide ValidIds, IdsAfter, TrimIds, NoneWraps, HeldAtEnd, BalancedFrom;
    IdsAfterKeeps(x.before.ids, x.r.hashes, |x.r.hashes|);
    TrimBoundsTable(IdsAfter(x.before.ids, x.r.hashes, |x.r.hashes|));
  }

  lemma {:induction false} RoundGives(x: Round, l: nat)
    requires IsRound(x) && ValidIds(x.before.ids) && l < |x.r.hashes|
    requires |IdsAfter(x.before.ids, x.r.hashes, |x.r.hashes|).table| <= WID_HARD_LIMIT
    ensures |x.r.wids| == |x.r.hashes| && HasId(x.after.ids, x.r.hashes[l], x.r.wids[l])
  {
    hide ValidIds, IdsAfter, WidAt, NoneWraps, HeldAtEnd, BalancedFrom, HasId;
    IdsStay(x.before.ids, x.r.hashes, l, |x.r.hashes|);
  }

  lemma {:induction false} RoundKeeps(x: Round, hash: Hash, id: WireId)
    requires IsRound(x) && ValidIds(x.before.ids) && HasId(x.before.ids, hash, id)
    requires |IdsAfter(x.before.ids, x.r.hashes, |x.r.hashes|).table| <= WID_HARD_LIMIT
    ensures HasId(x.after.ids, hash, id)
  {
    hide ValidIds, IdsAfter, NoneWraps, HeldAtEnd, BalancedFrom;
    IdsAfterKeeps(x.before.ids, x.r.hashes, |x.r.hashes|);
  }

  /** Unless the table of ids was trimmed, a tile whose pixels have not changed is skipped if the client still
      has it: the same hash has the same id in every request. */
  lemma {:induction false} UnchangedIsSkipped(rounds: seq<Round>, j: nat, i: nat, k: nat, l: nat)
    requires InTurn(rounds) && NeverTrimmed(rounds) && k < j < |rounds| && rounds[j].r.Sized() && rounds[k].r.Sized()
    requires i < |rounds[j].r.tiles| && l < |rounds[k].r.tiles| && rounds[j].r.hashes[i] != 0
    requires rounds[j].r.tiles[i].oldWireId == rounds[k].r.wids[l]
    ensures Skipped(rounds[j].r, i) <==> rounds[k].r.hashes[l] == rounds[j].r.hashes[i]
  {
    hide IsRound, HasId, ValidIds;
    if rounds[k].r.hashes[l] == rounds[j].r.hashes[i] {
      IdsKeep(rounds, k, l, j + 1);
      IdsKeep(rounds, j, i, j + 1);
      OneId(StateBefore(rounds, j + 1).ids, rounds[j].r.hashes[i], rounds[k].r.wids[l], rounds[j].r.wids[i]);
    }
    if Skipped(rounds[j].r, i) {
      SkippedIsUnchanged(rounds, j, i, k, l);
    }
  }

  lemma {:induction false} OneId(s: Ids, hash: Hash, a: WireId, b: WireId)
    requires HasId(s, hash, a) && HasId(s, hash, b)
    ensures a == b
  {
  }
}
