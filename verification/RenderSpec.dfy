/**
 Rendering a request for tiles (common/RenderTiles.hpp, namespace RenderTiles): what each tile of the
 request has to be answered with, and what a list of answers over one output buffer means.  The
 method that fills the buffer is in `RenderTiles`.

 Painting, hashing the pixels and compressing them are parameters: a request comes with the hash of
 every tile and with what the PNG encoder would make of it.
*/
module RenderSpec {

  import opened Wrappers
  import opened TileDescs
  import opened PngCacheSpec

  /** A request: its tiles, the hashes of their pixels, what the encoder makes of each (None: it
      fails), the images that are cached when it starts, and the wire ids the tiles get. */
  datatype Request = Request(
    tiles: seq<TileDesc>, hashes: seq<Hash>, images: seq<Option<seq<byte>>>, known: Cache, wids: seq<WireId>)
  {
    predicate Sized() {
      |tiles| == |hashes| == |images| == |wids|
    }

    /** Each hash has one wire id, and no hash has 0. */
    ghost predicate Coherent() {
      && Sized()
      && (forall i :: 0 <= i < |wids| && hashes[i] == 0 ==> wids[i] == 0)
      && (forall i, j :: 0 <= i < |wids| && 0 <= j < |wids| && hashes[i] == hashes[j] ==> wids[i] == wids[j])
      && 0 !in known
    }

    /** The wire ids tell the hashes apart. */
    ghost predicate Valid() {
      && Coherent()
      && (forall i, j :: 0 <= i < |wids| && 0 <= j < |wids| && wids[i] == wids[j] ==> hashes[i] == hashes[j])
      && (forall i :: 0 <= i < |wids| && wids[i] == 0 ==> hashes[i] == 0)
    }
  }

  // ----- wire ids ---------------------------------------------------------------------------

  /** The wire ids after looking up the first `n` hashes. */
  function IdsAfter(s: Ids, hashes: seq<Hash>, n: nat): Ids
    requires n <= |hashes|
  {
    if n == 0 then s else HashToWireId(IdsAfter(s, hashes, n - 1), hashes[n - 1]).1
  }

  function WidAt(s: Ids, hashes: seq<Hash>, i: nat): WireId
    requires i < |hashes|
  {
    HashToWireId(IdsAfter(s, hashes, i), hashes[i]).0
  }

  function Wids(s: Ids, hashes: seq<Hash>): (r: seq<WireId>)
    ensures |r| == |hashes|
  {
    seq(|hashes|, i requires 0 <= i < |hashes| => WidAt(s, hashes, i))
  }

  /** The counter does not wrap while the hashes are looked up. */
  ghost predicate NoneWraps(s: Ids, hashes: seq<Hash>) {
    forall i :: 0 <= i < |hashes| ==> !Wraps(IdsAfter(s, hashes, i), hashes[i])
  }

  /** None of the hashes is the one that got the id 0 when the counter wrapped. */
  ghost predicate NoZeroId(s: Ids, hashes: seq<Hash>) {
    forall i :: 0 <= i < |hashes| && hashes[i] in s.table ==> s.table[hashes[i]] != 0
  }

  /** The ids of the first are still those of the second, and no other has 0. */
  ghost predicate Grew(s: Ids, t: Ids) {
    && (forall h :: h in s.table ==> h in t.table && t.table[h] == s.table[h])
    && (forall h :: h in t.table && t.table[h] == 0 ==> h in s.table && s.table[h] == 0)
  }

  ghost predicate HasId(t: Ids, hash: Hash, id: WireId) {
    if hash == 0 then id == 0 else hash in t.table && t.table[hash] == id
  }

  lemma {:induction false} LookupKeepsIds(s: Ids, hash: Hash)
    requires ValidIds(s) && !Wraps(s, hash)
    ensures var (id, t) := HashToWireId(s, hash); ValidIds(t) && Grew(s, t) && HasId(t, hash, id)
  {
    if hash != 0 && hash !in s.table {
      NextId(s);
    }
    LookupKeepsValid(s, hash);
  }

  /** Looking up the hashes one by one. */
  lemma {:induction false} IdsStep(s: Ids, hashes: seq<Hash>, i: nat)
    requires i < |hashes|
    ensures IdsAfter(s, hashes, 0) == s
    ensures HashToWireId(IdsAfter(s, hashes, i), hashes[i]) == (WidAt(s, hashes, i), IdsAfter(s, hashes, i + 1))
  {
  }

  lemma {:induction false} IdsAfterKeeps(s: Ids, hashes: seq<Hash>, n: nat)
    requires n <= |hashes| && ValidIds(s) && NoneWraps(s, hashes)
    ensures ValidIds(IdsAfter(s, hashes, n)) && Grew(s, IdsAfter(s, hashes, n))
  {
    hide ValidIds, HashToWireId, Wraps, HasId;
    if n > 0 {
      IdsAfterKeeps(s, hashes, n - 1);
      LookupKeepsIds(IdsAfter(s, hashes, n - 1), hashes[n - 1]);
    }
  }

  lemma {:induction false} IdsStay(s: Ids, hashes: seq<Hash>, i: nat, n: nat)
    requires i < n <= |hashes| && ValidIds(s) && NoneWraps(s, hashes)
    ensures HasId(IdsAfter(s, hashes, n), hashes[i], WidAt(s, hashes, i))
    decreases n
  {
    hide ValidIds, HashToWireId, Wraps, IdsAfter, WidAt;
    IdsAfterKeeps(s, hashes, n - 1);
    LookupKeepsIds(IdsAfter(s, hashes, n - 1), hashes[n - 1]);
    IdsStep(s, hashes, n - 1);
    if i < n - 1 {
      IdsStay(s, hashes, i, n - 1);
    }
  }

  /** As long as the counter does not wrap within a request, the wire ids of the request tell its hashes
      apart if and only if none of them is the one that has the id 0 of an earlier wrap. */
  lemma {:induction false} RequestIsValid(r: Request, s: Ids)
    requires ValidIds(s) && NoneWraps(s, r.hashes) && 0 !in r.known
    requires |r.tiles| == |r.hashes| == |r.images| && r.wids == Wids(s, r.hashes)
    ensures r.Coherent()
    ensures r.Valid() <==> NoZeroId(s, r.hashes)
  {
    hide IdsAfter, WidAt, NoneWraps;
    var t := IdsAfter(s, r.hashes, |r.hashes|);
    IdsAfterKeeps(s, r.hashes, |r.hashes|);
    forall i | 0 <= i < |r.hashes| ensures HasId(t, r.hashes[i], r.wids[i]) {
      IdsStay(s, r.hashes, i, |r.hashes|);
    }
    if i :| 0 <= i < |r.hashes| && r.hashes[i] in s.table && s.table[r.hashes[i]] == 0 {
      assert HasId(t, r.hashes[i], r.wids[i]);
      assert r.wids[i] == 0 && r.hashes[i] != 0;
    }
  }

  // ----- what each tile is answered with ----------------------------------------------------

  /** The client has already been sent this wire id. */
  predicate Skipped(r: Request, i: nat)
    requires r.Sized() && i < |r.tiles|
  {
    r.hashes[i] != 0 && r.tiles[i].oldWireId == r.wids[i]
  }

  /** The client has it, or the cache. */
  predicate AtOnce(r: Request, i: nat)
    requires r.Sized() && i < |r.tiles|
  {
    Skipped(r, i) || r.hashes[i] in r.known
  }

  /** The first tile from `j` on that has the wire id of tile `i` and cannot be answered at once. */
  function RepFrom(r: Request, i: nat, j: nat): (k: nat)
    requires r.Sized() && j <= i < |r.tiles|
    ensures j <= k <= i && r.wids[k] == r.wids[i] && (k < i ==> !AtOnce(r, k))
    ensures forall l :: j <= l < k && r.wids[l] == r.wids[i] ==> AtOnce(r, l)
    decreases i - j
  {
    if j == i || (r.wids[j] == r.wids[i] && !AtOnce(r, j)) then j else RepFrom(r, i, j + 1)
  }

  /** The tile that is compressed for tile `i`. */
  function Rep(r: Request, i: nat): (k: nat)
    requires r.Sized() && i < |r.tiles|
    ensures k <= i
  {
    RepFrom(r, i, 0)
  }

  /** The image tile `i` is answered with: empty if the client has it, the cached one, else what the
      encoder makes of the first tile with the same wire id.  None, that is no answer, if the encoder
      fails, for all but the first of the tiles without a hash, and if that first tile has another
      hash. */
  function Picture(r: Request, i: nat): Option<seq<byte>>
    requires r.Sized() && i < |r.tiles|
  {
    if Skipped(r, i) then Some([])
    else if r.hashes[i] in r.known then Some(r.known[r.hashes[i]].data)
    else if Rep(r, i) == i || (r.hashes[i] != 0 && r.hashes[Rep(r, i)] == r.hashes[i]) then r.images[Rep(r, i)]
    else None
  }

  // ----- answers in a buffer ----------------------------------------------------------------

  function PushRendered(rendered: seq<TileDesc>, desc: TileDesc, wireId: WireId, imgSize: nat): seq<TileDesc> {
    rendered + [desc.(wireId := wireId, imgSize := imgSize)]
  }

  /** The images of the tiles `who`, one after the other. */
  ghost function Joined(r: Request, who: seq<nat>): seq<byte>
    requires r.Sized() && Answerable(r, who)
  {
    if who == [] then []
    else Joined(r, who[..|who| - 1]) + Picture(r, who[|who| - 1]).value
  }

  ghost predicate Answerable(r: Request, who: seq<nat>)
    requires r.Sized()
  {
    forall k :: 0 <= k < |who| ==> who[k] < |r.tiles| && Picture(r, who[k]).Some?
  }

  /** `rendered` answers the tiles `who`, none twice, and `output` is their images joined. */
  ghost predicate Faithful(r: Request, output: seq<byte>, rendered: seq<TileDesc>, who: seq<nat>)
    requires r.Sized()
  {
    && |who| == |rendered| && Answerable(r, who)
    && (forall k, l :: 0 <= k < l < |who| ==> who[k] != who[l])
    && (forall k :: 0 <= k < |who| ==>
          rendered[k] == r.tiles[who[k]].(wireId := r.wids[who[k]], imgSize := |Picture(r, who[k]).value|))
    && output == Joined(r, who)
  }

  lemma {:induction false} FaithfulPush(r: Request, output: seq<byte>, rendered: seq<TileDesc>, who: seq<nat>, i: nat)
    requires r.Sized() && Faithful(r, output, rendered, who)
    requires i < |r.tiles| && i !in who && Picture(r, i).Some?
    ensures var image := Picture(r, i).value;
            Faithful(r, output + image, PushRendered(rendered, r.tiles[i], r.wids[i], |image|), who + [i])
  {
    hide Picture;
    var next := who + [i];
    assert next[..|who|] == who;
    assert Answerable(r, next);
  }

  /** Where the image of the `k`-th answer starts: the sizes before it added up. */
  function Offset(rendered: seq<TileDesc>, k: nat): nat
    requires k <= |rendered|
  {
    if k == 0 then 0 else Offset(rendered, k - 1) + rendered[k - 1].imgSize
  }

  lemma {:induction false} OffsetIsLength(r: Request, output: seq<byte>, rendered: seq<TileDesc>, who: seq<nat>, k: nat)
    requires r.Sized() && Faithful(r, output, rendered, who) && k <= |who|
    ensures Offset(rendered, k) == |Joined(r, who[..k])|
  {
    hide Picture;
    if k > 0 {
      OffsetIsLength(r, output, rendered, who, k - 1);
      assert who[..k][..k - 1] == who[..k - 1];
    }
  }

  lemma {:induction false} JoinedSplits(r: Request, who: seq<nat>, k: nat)
    requires r.Sized() && Answerable(r, who) && k <= |who|
    ensures Joined(r, who[..k]) <= Joined(r, who)
    decreases |who| - k
  {
    hide Picture;
    if k < |who| {
      JoinedSplits(r, who, k + 1);
      assert who[..k + 1][..k] == who[..k];
    } else {
      assert who[..k] == who;
    }
  }

  lemma {:induction false} SliceAfterPrefix(a: seq<byte>, b: seq<byte>, s: seq<byte>)
    requires a + b <= s
    ensures |a| + |b| <= |s| && s[|a|..|a| + |b|] == b
  {
    assert s[..|a| + |b|] == a + b;
    assert s[|a|..|a| + |b|] == s[..|a| + |b|][|a|..];
  }

  lemma {:induction false} OwnSlice(r: Request, output: seq<byte>, rendered: seq<TileDesc>, who: seq<nat>, k: nat)
    requires r.Sized() && Faithful(r, output, rendered, who) && k < |rendered|
    ensures Offset(rendered, k) + rendered[k].imgSize <= |output|
    ensures Picture(r, who[k]) == Some(output[Offset(rendered, k)..Offset(rendered, k) + rendered[k].imgSize])
  {
    hide Picture, Offset;
    var before, upTo := who[..k], who[..k + 1];
    OffsetIsLength(r, output, rendered, who, k);
    JoinedSplits(r, who, k + 1);
    assert upTo[..k] == before && upTo[k] == who[k];
    var image := Picture(r, who[k]).value;
    assert Joined(r, upTo) == Joined(r, before) + image;
    SliceAfterPrefix(Joined(r, before), image, output);
  }

  /** Cutting the output by the sizes in the answers gives each answered tile its own image, and uses
      up the whole output. */
  lemma {:induction false} SlicesAreOwn(r: Request, output: seq<byte>, rendered: seq<TileDesc>, who: seq<nat>, k: nat)
    requires r.Sized() && Faithful(r, output, rendered, who)
    ensures Offset(rendered, |rendered|) == |output|
    ensures k < |rendered| ==>
              && Offset(rendered, k) + rendered[k].imgSize <= |output|
              && Picture(r, who[k]) == Some(output[Offset(rendered, k)..Offset(rendered, k) + rendered[k].imgSize])
  {
    hide Picture;
    OffsetIsLength(r, output, rendered, who, |who|);
    assert who[..|who|] == who;
    if k < |rendered| {
      OwnSlice(r, output, rendered, who, k);
    }
  }
}
