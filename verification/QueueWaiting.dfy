/**
 How long a message waits in the queue, over any run.

 A message that is no tile is given out within as many gets as it has messages up to and including
 itself.  A plain tile is given out within p gets if the message at position p behind it is no plain
 tile, because the search for the best tile stops there.  A preview is given out if there is no other
 preview in front of it, or none behind a message in front of it that is no tile.  All this holds unless
 a put merges or supersedes one of the messages before.  What can wait for ever is in `QueueDelays`.
*/
module QueueWaiting {

  import opened Sequences
  import opened Wrappers
  import opened TileDescs
  import opened QueueSpec
  import opened QueueRuns
  import opened QueueFairness

  // ----- where a message is after a step ----------------------------------------------------

  /** Where position `p` is after erasing position `i`; None if that is what is erased. */
  function AfterRemoval(i: nat, p: nat): Option<nat> {
    if p == i then None else Some(if i < p then p - 1 else p)
  }

  function FollowSweep(q: seq<Message>, target: string, part: int, rect: Rect, p: nat): Option<nat>
    requires p < |q|
  {
    match Judge(q[0], target, part, rect)
    case Keep =>
      if p == 0 then Some(0)
      else
        (match FollowSweep(q[1..], target, part, rect, p - 1)
         case None => None
         case Some(p') => Some(p' + 1))
    case Drop => if p == 0 then None else FollowSweep(q[1..], target, part, rect, p - 1)
    case Merge =>
      if p == 0 then None else FollowSweep(q[1..], target, part, Join(rect, RectOf(q[0].body.area)), p - 1)
  }

  function FollowTiles(q: seq<Message>, tiles: seq<Message>, p: nat): Option<nat>
    requires p < |q| && forall m :: m in tiles ==> m.Tile?
    decreases |tiles|
  {
    if tiles == [] then Some(p)
    else
      match AfterRemoval(FindFirst(q, x => IsTileDuplicate(tiles[0].raw, x)), p)
      case None => None
      case Some(p') => FollowTiles(PutTile(q, tiles[0]), tiles[1..], p')
  }

  /** Where the message at position `p` is after a put; None if the put merges or supersedes it. */
  function Follow(q: seq<Message>, input: Input, p: nat): Option<nat>
    requires ValidInput(input) && p < |q|
  {
    match input
    case TileCombine(tiles) => FollowTiles(q, tiles, p)
    case One(m) =>
      if m.Tile? then FollowTiles(q, [m], p)
      else if m.Callback? && m.body.Invalidate? then FollowSweep(q, m.target, m.body.part, RectOf(m.body.area), p)
      else if KeyOf(m).Some? then AfterRemoval(FindFirst(q, x => KeyOf(x) == KeyOf(m)), p)
      else if Found(q, m).Some? then AfterRemoval(Found(q, m).value, p)
      else Some(p)
  }

  /** The messages that a put can merge or supersede. */
  ghost predicate Absorbs(input: Input, m: Message) {
    match input
    case TileCombine(tiles) => SupersededByOneOf(tiles, m)
    case One(n) =>
      || SupersededByOneOf([n], m)
      || (n.Callback? && n.body.Invalidate? && IsInvalidation(n.target, n.body.part, m))
      || (KeyOf(n).Some? && KeyOf(m) == KeyOf(n))
      || (n.TextInput? && n.id.Some? && n.text.Some? && MergesTextInput(n.client, n.id.value, m))
      || (n.RemoveText? && n.id.Some? && n.before.Some? && n.after.Some? && MergesRemoveText(n.client, n.id.value, m))
  }

  lemma {:induction false} FollowTilesMeans(q: seq<Message>, tiles: seq<Message>, p: nat)
    requires p < |q| && forall m :: m in tiles ==> m.Tile?
    ensures match FollowTiles(q, tiles, p)
            case None => SupersededByOneOf(tiles, q[p])
            case Some(p') => p' <= p && p' < |PutTiles(q, tiles)| && PutTiles(q, tiles)[p'] == q[p]
    decreases |tiles|
  {
    if tiles != [] {
      var t, rest := tiles[0], tiles[1..];
      var i := FindFirst(q, x => IsTileDuplicate(t.raw, x));
      assert t in tiles && forall m :: m in rest ==> m in tiles;
      if i != p {
        var p' := AfterRemoval(i, p).value;
        assert PutTile(q, t)[p'] == q[p];
        FollowTilesMeans(PutTile(q, t), rest, p');
      }
    }
  }

  lemma {:induction false} FollowSweepMeans(q: seq<Message>, target: string, part: int, rect: Rect, p: nat)
    requires p < |q|
    ensures var kept := SweepQueue(q, target, part, rect).kept;
            match FollowSweep(q, target, part, rect, p)
            case None => IsInvalidation(target, part, q[p])
            case Some(p') => p' <= p && p' < |kept| && kept[p'] == q[p]
    decreases |q|
  {
    if p > 0 {
      match Judge(q[0], target, part, rect)
      case Merge => FollowSweepMeans(q[1..], target, part, Join(rect, RectOf(q[0].body.area)), p - 1);
      case _ => FollowSweepMeans(q[1..], target, part, rect, p - 1);
    }
  }

  /** A put never moves a message away from the front, and makes it vanish only by merging or
      superseding it. */
  lemma {:induction false} FollowMeans(q: seq<Message>, input: Input, p: nat)
    requires ValidInput(input) && p < |q|
    ensures match Follow(q, input, p)
            case None => Absorbs(input, q[p])
            case Some(p') => p' <= p && p' < |Put(q, input)| && Put(q, input)[p'] == q[p]
  {
    hide SupersededByOneOf, SweepQueue, FollowSweep, FollowTiles, KeyOf, BasePut, PutTile,
         PutTiles, MergesTextInput, MergesRemoveText;
    match input
    case TileCombine(tiles) => FollowTilesMeans(q, tiles, p);
    case One(m) =>
      if m.Tile? {
        FollowTilesMeans(q, [m], p);
        OneTile(q, m);
      } else if m.Callback? && m.body.Invalidate? {
        FollowSweepMeans(q, m.target, m.body.part, RectOf(m.body.area), p);
      } else if KeyOf(m).Some? {
        FollowKeyedMeans(q, m, p);
      } else {
        FollowTextMeans(q, m, p);
      }
  }

  lemma {:induction false} FollowKeyedMeans(q: seq<Message>, m: Message, p: nat)
    requires p < |q| && KeyOf(m).Some?
    ensures match AfterRemoval(FindFirst(q, x => KeyOf(x) == KeyOf(m)), p)
            case None => KeyOf(q[p]) == KeyOf(m)
            case Some(p') => p' <= p && p' < |Put(q, One(m))| && Put(q, One(m))[p'] == q[p]
  {
    hide KeyOf, Put;
    KeyedPut(q, m);
  }

  lemma {:induction false} FollowTextMeans(q: seq<Message>, m: Message, p: nat)
    requires p < |q| && !m.Tile? && !(m.Callback? && m.body.Invalidate?) && KeyOf(m).None?
    ensures match (if Found(q, m).Some? then AfterRemoval(Found(q, m).value, p) else Some(p))
            case None => Absorbs(One(m), q[p])
            case Some(p') => p' <= p && p' < |Put(q, One(m))| && Put(q, One(m))[p'] == q[p]
  {
    hide SupersededByOneOf, KeyOf, BasePut, Found, Absorbs, Put;
    TextPut(q, m);
    if Found(q, m).Some? {
      FoundIsAbsorbed(q, m);
    }
  }

  /** A put that merges text takes out what it found and appends one message; any other put of a message
      without a key appends it. */
  lemma {:induction false} TextPut(q: seq<Message>, m: Message)
    requires !m.Tile? && !(m.Callback? && m.body.Invalidate?) && KeyOf(m).None?
    ensures var r := Put(q, One(m));
            if Found(q, m).Some? then |r| == |q| && r == RemoveAt(q, Found(q, m).value) + [r[|q| - 1]]
            else r == q + [m]
  {
    hide FindTextInput, FindRemoveText, KeyOf;
  }

  lemma {:induction false} FoundIsAbsorbed(q: seq<Message>, m: Message)
    requires Found(q, m).Some?
    ensures Absorbs(One(m), q[Found(q, m).value])
  {
    hide FindTextInput, FindRemoveText;
  }

  lemma {:induction false} OneTile(q: seq<Message>, m: Message)
    requires m.Tile?
    ensures PutTiles(q, [m]) == PutTile(q, m)
  {
    assert [m][1..] == [];
  }

  lemma {:induction false} KeyedPut(q: seq<Message>, m: Message)
    requires KeyOf(m).Some?
    ensures m.Callback? && !m.body.Invalidate?
    ensures Put(q, One(m)) == RemoveAt(q, FindFirst(q, x => KeyOf(x) == KeyOf(m))) + [m]
  {
  }

  lemma {:induction false} PlainIsNeverAbsorbed(input: Input, m: Message)
    requires Plain(m).Some?
    ensures !Absorbs(input, m)
  {
  }

  /** Where the message at position `p` is once the tiles that can be combined with `first` are taken
      out; None if it is one of them. */
  function FollowCombine(q: seq<Message>, first: TileDesc, p: nat): Option<nat>
    requires p < |q|
  {
    if IsPlainTile(q[p]) && CanCombine(first, q[p].desc) then None else Some(KeptBefore(q, first, p))
  }

  /** How many of the first `p` messages stay. */
  function KeptBefore(q: seq<Message>, first: TileDesc, p: nat): (n: nat)
    requires p <= |q|
    ensures n <= p
  {
    if p == 0 then 0
    else
      KeptBefore(q[1..], first, p - 1) + if IsPlainTile(q[0]) && CanCombine(first, q[0].desc) then 0 else 1
  }

  lemma {:induction false} FollowCombineMeans(q: seq<Message>, first: TileDesc, p: nat)
    requires p < |q|
    ensures match FollowCombine(q, first, p)
            case None => IsPlainTile(q[p]) && q[p].desc in Combined(q, first)
            case Some(p') => p' < |NotCombined(q, first)| && NotCombined(q, first)[p'] == q[p]
  {
    if p > 0 {
      FollowCombineMeans(q[1..], first, p - 1);
    }
  }

  /** Where the message at position `p` is after a get; None if the get gives it out. */
  function FollowGet(q: seq<Message>, views: Views, p: nat): Option<nat>
    requires p < |q| && views.Closed()
  {
    if !q[0].Tile? then
      AfterRemoval(0, p)
    else if q[0].preview then
      var n := LeadingPreviews(q[1..]);
      if p == 0 then None else Some(if p <= n then |q| - 1 - n + p - 1 else p - 1 - n)
    else
      var b := Best(q, views, LeadingTiles(q));
      match AfterRemoval(b, p)
      case None => None
      case Some(p') => FollowCombine(RemoveAt(q, b), q[b].desc, p')
  }

  /** The response gives out the message: a plain tile as one of the tiles, any other as a whole. */
  predicate Gives(r: Response, m: Message) {
    if IsPlainTile(m) then r.Tiles? && m.desc in r.descs else r == Whole(m)
  }

  /** A get gives out what vanishes.  A message that is no tile is given out at the front and comes
      closer to it otherwise. */
  lemma {:induction false} FollowGetMeans(q: seq<Message>, views: Views, p: nat)
    requires p < |q| && views.Closed()
    ensures match FollowGet(q, views, p)
            case None => Gives(Get(q, views).0, q[p])
            case Some(p') => p' < |Get(q, views).1| && Get(q, views).1[p'] == q[p]
    ensures !IsPlainTile(q[p]) ==> (FollowGet(q, views, p).None? <==> p == 0)
    ensures !q[p].Tile? && p > 0 ==> FollowGet(q, views, p).value < p
  {
    hide Get, Combined, NotCombined, FollowCombine, Best, LeadingPreviews, LeadingTiles;
    GetMeans(q, views);
    if q[0].Tile? {
      if !q[0].preview {
        var b := Best(q, views, LeadingTiles(q));
        if p != b {
          CombineAfterRemoval(q, b, p);
        }
      } else if p > 0 {
        assert q[1..][p - 1] == q[p];
      }
    }
  }

  lemma {:induction false} CombineAfterRemoval(q: seq<Message>, b: nat, p: nat)
    requires b < |q| && p < |q| && b != p && IsPlainTile(q[b])
    ensures var (rest, p1, first) := (RemoveAt(q, b), AfterRemoval(b, p).value, q[b].desc);
            && p1 < |rest| && rest[p1] == q[p]
            && match FollowCombine(rest, first, p1)
               case None => IsPlainTile(q[p]) && q[p].desc in Combined(rest, first)
               case Some(p') => p' <= p1 && p' < |NotCombined(rest, first)| && NotCombined(rest, first)[p'] == q[p]
    ensures !IsPlainTile(q[p]) ==> FollowCombine(RemoveAt(q, b), q[b].desc, AfterRemoval(b, p).value).Some?
  {
    hide Combined, NotCombined;
    FollowCombineMeans(RemoveAt(q, b), q[b].desc, AfterRemoval(b, p).value);
  }

  // ----- two messages keep their order ------------------------------------------------------

  /** Both are still queued, in the same order and no further apart. */
  predicate InStep(i: nat, p: nat, i': Option<nat>, p': Option<nat>) {
    i'.Some? && p'.Some? && i'.value < p'.value && p'.value - i'.value <= p - i
  }

  lemma {:induction false} FollowTilesOrder(q: seq<Message>, tiles: seq<Message>, i: nat, p: nat)
    requires i < p < |q| && forall m :: m in tiles ==> m.Tile?
    requires FollowTiles(q, tiles, i).Some? && FollowTiles(q, tiles, p).Some?
    ensures InStep(i, p, FollowTiles(q, tiles, i), FollowTiles(q, tiles, p))
    decreases |tiles|
  {
    if tiles != [] {
      var k := FindFirst(q, x => IsTileDuplicate(tiles[0].raw, x));
      FollowTilesOrder(PutTile(q, tiles[0]), tiles[1..], AfterRemoval(k, i).value, AfterRemoval(k, p).value);
    }
  }

  lemma {:induction false} FollowSweepOrder(q: seq<Message>, target: string, part: int, rect: Rect, i: nat, p: nat)
    requires i < p < |q|
    requires FollowSweep(q, target, part, rect, i).Some? && FollowSweep(q, target, part, rect, p).Some?
    ensures InStep(i, p, FollowSweep(q, target, part, rect, i), FollowSweep(q, target, part, rect, p))
  {
    if i == 0 {
      FollowSweepMeans(q, target, part, rect, p);
    } else {
      match Judge(q[0], target, part, rect)
      case Merge => FollowSweepOrder(q[1..], target, part, Join(rect, RectOf(q[0].body.area)), i - 1, p - 1);
      case _ => FollowSweepOrder(q[1..], target, part, rect, i - 1, p - 1);
    }
  }

  lemma {:induction false} FollowOrder(q: seq<Message>, input: Input, i: nat, p: nat)
    requires ValidInput(input) && i < p < |q| && Follow(q, input, i).Some? && Follow(q, input, p).Some?
    ensures InStep(i, p, Follow(q, input, i), Follow(q, input, p))
  {
    hide FollowTiles, FollowSweep;
    match input
    case TileCombine(tiles) => FollowTilesOrder(q, tiles, i, p);
    case One(m) =>
      if m.Tile? {
        FollowTilesOrder(q, [m], i, p);
      } else if m.Callback? && m.body.Invalidate? {
        FollowSweepOrder(q, m.target, m.body.part, RectOf(m.body.area), i, p);
      }
  }

  lemma {:induction false} KeptBeforeOrder(q: seq<Message>, first: TileDesc, i: nat, p: nat)
    requires i < p < |q| && FollowCombine(q, first, i).Some?
    ensures InStep(i, p, Some(KeptBefore(q, first, i)), Some(KeptBefore(q, first, p)))
  {
    if i > 0 {
      KeptBeforeOrder(q[1..], first, i - 1, p - 1);
    }
  }

  /** Unless the first is a preview, which can be moved to the end. */
  lemma {:induction false} FollowGetOrder(q: seq<Message>, views: Views, i: nat, p: nat)
    requires i < p < |q| && views.Closed() && !IsPreview(q[i]) && !IsPlainTile(q[p])
    requires FollowGet(q, views, i).Some?
    ensures InStep(i, p, FollowGet(q, views, i), FollowGet(q, views, p))
    ensures FollowGet(q, views, p).value < p
  {
    hide Best, LeadingPreviews, LeadingTiles, KeptBefore;
    if q[0].Tile? {
      if q[0].preview {
        assert q[1..][i - 1] == q[i];
      } else {
        var b := Best(q, views, LeadingTiles(q));
        var i', p' := AfterRemoval(b, i).value, AfterRemoval(b, p).value;
        KeptBeforeOrder(RemoveAt(q, b), q[b].desc, i', p');
      }
    }
  }

  // ----- what is between two messages -------------------------------------------------------

  /** What lies in front of position `p`, behind the message in front that is followed, if there is one. */
  function Between(q: seq<Message>, i: Option<nat>, p: nat): (r: seq<Message>)
    requires p <= |q| && (i.Some? ==> i.value < p)
  {
    match i
    case None => q[..p]
    case Some(k) => q[k + 1..p]
  }

  lemma {:induction false} FollowTilesBetween(q: seq<Message>, tiles: seq<Message>, i: Option<nat>, p: nat)
    requires p < |q| && (i.Some? ==> i.value < p) && forall m :: m in tiles ==> m.Tile?
    requires FollowTiles(q, tiles, p).Some? && (i.Some? ==> FollowTiles(q, tiles, i.value).Some?)
    ensures var (r, i', p') := (PutTiles(q, tiles), if i.None? then None else FollowTiles(q, tiles, i.value),
                               FollowTiles(q, tiles, p).value);
            && p' < |r| && (i'.Some? ==> i'.value < p')
            && forall m :: m in Between(r, i', p') ==> m in Between(q, i, p)
    decreases |tiles|
  {
    if tiles != [] {
      var k := FindFirst(q, x => IsTileDuplicate(tiles[0].raw, x));
      var i1 := if i.None? then None else AfterRemoval(k, i.value);
      RemovedBetween(q, tiles[0], k, i, p);
      FollowTilesBetween(PutTile(q, tiles[0]), tiles[1..], i1, AfterRemoval(k, p).value);
    }
  }

  /** Erasing one message and appending another adds nothing in between. */
  lemma {:induction false} RemovedBetween(q: seq<Message>, n: Message, k: nat, i: Option<nat>, p: nat)
    requires p < |q| && p != k && (i.Some? ==> i.value < p && i.value != k)
    ensures var (r, i', p') := (RemoveAt(q, k) + [n], if i.None? then None else AfterRemoval(k, i.value),
                               AfterRemoval(k, p).value);
            && p' < |r| && (i'.Some? ==> i'.value < p')
            && forall m :: m in Between(r, i', p') ==> m in Between(q, i, p)
  {
    hide RemoveAt;
    var start := if i.None? then 0 else i.value + 1;
    ErasedLength(q, n, k);
    if k < start {
      ErasedInFront(q, n, k, start, p);
    } else if k < p {
      ErasedWithin(q, n, k, start, p);
    } else {
      ErasedBehind(q, n, k, start, p);
    }
  }

  lemma {:induction false} ErasedLength(q: seq<Message>, n: Message, k: nat)
    ensures |RemoveAt(q, k) + [n]| == if k < |q| then |q| else |q| + 1
  {
  }

  lemma {:induction false} ErasedInFront(q: seq<Message>, n: Message, k: nat, a: nat, p: nat)
    requires k < a <= p < |q|
    ensures |RemoveAt(q, k) + [n]| == |q| && (RemoveAt(q, k) + [n])[a - 1..p - 1] == q[a..p]
  {
  }

  lemma {:induction false} ErasedWithin(q: seq<Message>, n: Message, k: nat, a: nat, p: nat)
    requires a <= k < p < |q|
    ensures |RemoveAt(q, k) + [n]| == |q| && (RemoveAt(q, k) + [n])[a..p - 1] == q[a..k] + q[k + 1..p]
    ensures forall m :: m in q[a..k] + q[k + 1..p] ==> m in q[a..p]
  {
    assert q[a..p] == q[a..k] + ([q[k]] + q[k + 1..p]);
  }

  lemma {:induction false} ErasedBehind(q: seq<Message>, n: Message, k: nat, a: nat, p: nat)
    requires a <= p < |q| && p < k
    ensures |RemoveAt(q, k) + [n]| > p && (RemoveAt(q, k) + [n])[a..p] == q[a..p]
  {
  }

  lemma {:induction false} FollowSweepBetween(q: seq<Message>, target: string, part: int, rect: Rect, i: Option<nat>,
                                              p: nat)
    requires p < |q| && (i.Some? ==> i.value < p)
    requires FollowSweep(q, target, part, rect, p).Some?
    requires i.Some? ==> FollowSweep(q, target, part, rect, i.value).Some?
    ensures var (r, i', p') := (SweepQueue(q, target, part, rect).kept,
                               if i.None? then None else FollowSweep(q, target, part, rect, i.value),
                               FollowSweep(q, target, part, rect, p).value);
            && p' < |r| && (i'.Some? ==> i'.value < p')
            && forall m :: m in Between(r, i', p') ==> m in Between(q, i, p)
    decreases |q|
  {
    hide Between, Judge, SweepQueue, FollowSweep;
    if p > 0 {
      var verdict, rect1 := Judge(q[0], target, part, rect), RectAfter(q[0], target, part, rect);
      var i1 := Tail(i);
      SweepHead(q, target, part, rect);
      FollowHead(q, target, part, rect, p);
      if i.Some? {
        FollowHead(q, target, part, rect, i.value);
      }
      FollowSweepBetween(q[1..], target, part, rect1, i1, p - 1);
      var i1' := if i1.None? then None else FollowSweep(q[1..], target, part, rect1, i1.value);
      WithHead(q, SweepQueue(q[1..], target, part, rect1).kept, verdict.Keep?, i, p, i1',
               FollowSweep(q[1..], target, part, rect1, p - 1).value);
    } else {
      NothingBetween(q, SweepQueue(q, target, part, rect).kept, 0);
      FollowSweepMeans(q, target, part, rect, 0);
    }
  }

  /** The rectangle of the sweep behind a message. */
  function RectAfter(m: Message, target: string, part: int, rect: Rect): Rect {
    if Judge(m, target, part, rect).Merge? then Join(rect, RectOf(m.body.area)) else rect
  }

  lemma {:induction false} SweepHead(q: seq<Message>, target: string, part: int, rect: Rect)
    requires q != []
    ensures SweepQueue(q, target, part, rect).kept ==
            (if Judge(q[0], target, part, rect).Keep? then [q[0]] else []) +
            SweepQueue(q[1..], target, part, RectAfter(q[0], target, part, rect)).kept
  {
    hide Covers, RectanglesIntersect, Join, RectOf;
  }

  lemma {:induction false} FollowHead(q: seq<Message>, target: string, part: int, rect: Rect, p: nat)
    requires p < |q|
    ensures var (keep, rect1) := (Judge(q[0], target, part, rect).Keep?, RectAfter(q[0], target, part, rect));
            FollowSweep(q, target, part, rect, p) ==
            if p == 0 then (if keep then Some(0) else None)
            else
              match FollowSweep(q[1..], target, part, rect1, p - 1)
              case None => None
              case Some(p') => Some(p' + if keep then 1 else 0)
  {
    hide Covers, RectanglesIntersect, Join, RectOf;
  }

  /** The position followed, seen from behind the first message; None if that is the first. */
  function Tail(i: Option<nat>): Option<nat> {
    if i.None? || i.value == 0 then None else Some(i.value - 1)
  }

  lemma {:induction false} NothingBetween(q: seq<Message>, r: seq<Message>, p: nat)
    requires p == 0
    ensures Between(r, None, p) == []
  {
  }

  /** What is in between in the rest of the queue is so in the whole, with the first message or without. */
  lemma {:induction false} WithHead(q: seq<Message>, rest: seq<Message>, keep: bool, i: Option<nat>, p: nat,
                                    i': Option<nat>, p': nat)
    requires 0 < p < |q| && (i.Some? ==> i.value < p) && (i == Some(0) ==> keep)
    requires p' < |rest| && (i'.Some? ==> i'.value < p') && (i'.Some? <==> Tail(i).Some?)
    requires forall m :: m in Between(rest, i', p') ==> m in Between(q[1..], Tail(i), p - 1)
    ensures var (r, n) := ((if keep then [q[0]] else []) + rest, if keep then 1 else 0);
            var k := if i.None? then None else if i.value == 0 then Some(0) else Some(i'.value + n);
            && p' + n < |r| && (k.Some? ==> k.value < p' + n)
            && forall m :: m in Between(r, k, p' + n) ==> m in Between(q, i, p)
  {
    OneInFront(q, i, p);
    var head := if keep then [q[0]] else [];
    if i.None? {
      HeadAndSlice(head, rest, p');
      assert Between(head + rest, None, p' + |head|) == head + Between(rest, None, p');
      assert forall m :: m in head ==> m in Between(q, i, p);
    } else {
      SliceBehindHead(head, rest, if i'.None? then 0 else i'.value + 1, p');
      assert i'.None? ==> rest[0..p'] == rest[..p'];
      var k := if i.value == 0 then 0 else i'.value + |head|;
      assert Between(head + rest, Some(k), p' + |head|) == Between(rest, i', p');
    }
  }

  lemma {:induction false} HeadAndSlice(head: seq<Message>, rest: seq<Message>, b: nat)
    requires b <= |rest|
    ensures (head + rest)[..|head| + b] == head + rest[..b]
  {
  }

  lemma {:induction false} SliceBehindHead(head: seq<Message>, rest: seq<Message>, a: nat, b: nat)
    requires a <= b <= |rest|
    ensures (head + rest)[|head| + a..|head| + b] == rest[a..b]
  {
  }

  lemma {:induction false} OneInFront(q: seq<Message>, i: Option<nat>, p: nat)
    requires 0 < p < |q| && (i.Some? ==> i.value < p)
    ensures Between(q, i, p) == (if i.None? then [q[0]] else []) + Between(q[1..], Tail(i), p - 1)
  {
  }

  lemma {:induction false} FollowBetween(q: seq<Message>, input: Input, i: Option<nat>, p: nat)
    requires ValidInput(input) && p < |q| && (i.Some? ==> i.value < p)
    requires Follow(q, input, p).Some? && (i.Some? ==> Follow(q, input, i.value).Some?)
    ensures var (r, i', p') := (Put(q, input), if i.None? then None else Follow(q, input, i.value),
                               Follow(q, input, p).value);
            && p' < |r| && (i'.Some? ==> i'.value < p')
            && forall m :: m in Between(r, i', p') ==> m in Between(q, i, p)
  {
    hide FollowTiles, FollowSweep, SweepQueue, PutTiles, PutTile, KeyOf, BasePut, FindFirst, Found;
    match input
    case TileCombine(tiles) => FollowTilesBetween(q, tiles, i, p);
    case One(m) =>
      if m.Tile? {
        FollowTilesBetween(q, [m], i, p);
        OneTile(q, m);
      } else if m.Callback? && m.body.Invalidate? {
        FollowSweepBetween(q, m.target, m.body.part, RectOf(m.body.area), i, p);
      } else if KeyOf(m).Some? {
        KeyedPut(q, m);
        RemovedBetween(q, m, FindFirst(q, x => KeyOf(x) == KeyOf(m)), i, p);
      } else {
        TextBetween(q, m, i, p);
      }
  }

  lemma {:induction false} TextBetween(q: seq<Message>, m: Message, i: Option<nat>, p: nat)
    requires !m.Tile? && !(m.Callback? && m.body.Invalidate?) && KeyOf(m).None?
    requires p < |q| && (i.Some? ==> i.value < p)
    requires Found(q, m).Some? ==> p != Found(q, m).value && (i.Some? ==> i.value != Found(q, m).value)
    ensures var (r, k) := (Put(q, One(m)), if Found(q, m).Some? then Found(q, m).value else |q|);
            var (i', p') := (if i.None? then None else AfterRemoval(k, i.value), AfterRemoval(k, p).value);
            && p' < |r| && (i'.Some? ==> i'.value < p')
            && forall m :: m in Between(r, i', p') ==> m in Between(q, i, p)
  {
    hide KeyOf, Put, Found;
    TextPut(q, m);
    RemovedBetween(q, Put(q, One(m))[|Put(q, One(m))| - 1], if Found(q, m).Some? then Found(q, m).value else |q|, i, p);
  }

  // ----- where a message is over a run ------------------------------------------------------

  /** Where the message at position `p` is after a step; None if it is gone. */
  function FollowStep(s: QState, e: Event, p: nat): Option<nat>
    requires s.views.Closed() && (e.PutEvent? ==> ValidInput(e.input)) && p < |s.queue|
  {
    match e
    case PutEvent(input) => Follow(s.queue, input, p)
    case GetEvent => FollowGet(s.queue, s.views, p)
    case _ => Some(p)
  }

  lemma {:induction false} FollowStepMeans(s: QState, e: Event, p: nat)
    requires s.views.Closed() && (e.PutEvent? ==> ValidInput(e.input)) && p < |s.queue|
    ensures match FollowStep(s, e, p)
            case Some(p') => p' < |Step(s, e).queue| && Step(s, e).queue[p'] == s.queue[p]
            case None =>
              || (e.PutEvent? && Absorbs(e.input, s.queue[p]))
              || (e.GetEvent? && Gives(Get(s.queue, s.views).0, s.queue[p]))
  {
    hide Put, Get, Follow, FollowGet, Absorbs;
    match e
    case PutEvent(input) => FollowMeans(s.queue, input, p);
    case GetEvent => FollowGetMeans(s.queue, s.views, p);
    case _ =>
  }

  /** Where the message at position `p` is after a run; None if it is gone. */
  ghost function FollowRun(s: QState, events: seq<Event>, p: nat): Option<nat>
    requires s.views.Valid() && ValidEvents(events) && p < |s.queue|
    decreases |events|
  {
    if events == [] then Some(p)
    else
      StepKeepsViews(s, events[0]);
      FollowStepMeans(s, events[0], p);
      match FollowStep(s, events[0], p)
      case None => None
      case Some(p') => FollowRun(Step(s, events[0]), events[1..], p')
  }

  /** A put of the run merges or supersedes the message at position `p` before it is given out. */
  ghost predicate Taken(s: QState, events: seq<Event>, p: nat)
    requires s.views.Valid() && ValidEvents(events) && p < |s.queue|
    decreases |events|
  {
    events != [] &&
    (StepKeepsViews(s, events[0]);
     FollowStepMeans(s, events[0], p);
     match FollowStep(s, events[0], p)
     case None => events[0].PutEvent?
     case Some(p') => Taken(Step(s, events[0]), events[1..], p'))
  }

  function Gets(events: seq<Event>): nat {
    if events == [] then 0 else (if events[0].GetEvent? then 1 else 0) + Gets(events[1..])
  }

  lemma {:induction false} RunKeepsResponses(s: QState, events: seq<Event>)
    requires s.views.Valid() && ValidEvents(events)
    ensures var r := Run(s, events).responses; |s.responses| <= |r| && r[..|s.responses|] == s.responses
    decreases |events|
  {
    hide Put, Get;
    if events != [] {
      StepKeepsViews(s, events[0]);
      RunKeepsResponses(Step(s, events[0]), events[1..]);
    }
  }

  /** One of the responses from `from` up to and without `to` gives out the message. */
  ghost predicate IsGivenOut(m: Message, responses: seq<Response>, from: nat, to: nat) {
    exists k :: from <= k < to && k < |responses| && Gives(responses[k], m)
  }

  lemma {:induction false} GivenOutInLonger(m: Message, responses: seq<Response>, from: nat, to: nat, from': nat,
                                            to': nat)
    requires IsGivenOut(m, responses, from, to) && from' <= from && to <= to'
    ensures IsGivenOut(m, responses, from', to')
  {
    var k :| from <= k < to && k < |responses| && Gives(responses[k], m);
    assert from' <= k < to';
  }

  /** What the next get gives out is among the responses of the run. */
  lemma {:induction false} GivenOutNow(s: QState, events: seq<Event>, p: nat, to: nat)
    requires s.views.Valid() && ValidEvents(events) && p < |s.queue| && to > |s.responses|
    requires events != [] && events[0].GetEvent? && FollowStep(s, events[0], p).None?
    ensures IsGivenOut(s.queue[p], Run(s, events).responses, |s.responses|, to)
  {
    hide Get, FollowStep, Gives;
    var n, s' := |s.responses|, Step(s, events[0]);
    StepKeepsViews(s, events[0]);
    FollowStepMeans(s, events[0], p);
    RunKeepsResponses(s', events[1..]);
    var r := Run(s, events).responses;
    assert r[n] == r[..n + 1][n] == Get(s.queue, s.views).0;
  }

  lemma {:induction false} GivenOutLater(s: QState, events: seq<Event>, m: Message, to: nat, to': nat)
    requires s.views.Valid() && ValidEvents(events) && events != [] && to <= to'
    requires Step(s, events[0]).views.Valid()
    requires IsGivenOut(m, Run(Step(s, events[0]), events[1..]).responses, |Step(s, events[0]).responses|, to)
    ensures IsGivenOut(m, Run(s, events).responses, |s.responses|, to')
  {
    hide Put, Get, IsGivenOut;
    GivenOutInLonger(m, Run(s, events).responses, |Step(s, events[0]).responses|, to, |s.responses|, to');
  }

  /** One step of a run that still has steps. */
  lemma {:induction false} AfterStep(s: QState, events: seq<Event>, p: nat)
    requires s.views.Valid() && ValidEvents(events) && events != [] && p < |s.queue|
    ensures s.views.Closed() && (events[0].PutEvent? ==> ValidInput(events[0].input))
    ensures Step(s, events[0]).views.Valid() && ValidEvents(events[1..])
    ensures |Step(s, events[0]).responses| == |s.responses| + if events[0].GetEvent? then 1 else 0
    ensures Gets(events) == Gets(events[1..]) + if events[0].GetEvent? then 1 else 0
    ensures match FollowStep(s, events[0], p)
            case None =>
              && (events[0].PutEvent? || events[0].GetEvent?)
              && FollowRun(s, events, p) == None && Taken(s, events, p) == events[0].PutEvent?
            case Some(p') =>
              var s' := Step(s, events[0]);
              && p' < |s'.queue| && s'.queue[p'] == s.queue[p]
              && FollowRun(s, events, p) == FollowRun(s', events[1..], p')
              && Taken(s, events, p) == Taken(s', events[1..], p')
  {
    hide Put, Get, Follow, FollowGet, Absorbs, Gives;
    StepKeepsViews(s, events[0]);
    FollowStepMeans(s, events[0], p);
  }

  lemma {:induction false} SomeEvents(events: seq<Event>)
    ensures Gets(events) > 0 ==> events != []
  {
  }

  // ----- no starvation ----------------------------------------------------------------------

  /** A message that is no tile, at index p of the queue, is given out unchanged by one of the next
      p + 1 gets, whatever is put in between and wherever cursors move, unless a put merges or
      supersedes it before; and that never happens to a message that is never merged. */
  lemma {:induction false} NoStarvation(s: QState, events: seq<Event>, p: nat)
    requires s.views.Valid() && ValidEvents(events)
    requires p < |s.queue| && !s.queue[p].Tile? && Gets(events) > p
    ensures IsGivenOut(s.queue[p], Run(s, events).responses, |s.responses|, |s.responses| + p + 1)
            || Taken(s, events, p)
    ensures Plain(s.queue[p]).Some? ==> !Taken(s, events, p)
  {
    hide Taken, Run, Plain, IsGivenOut;
    if !Taken(s, events, p) {
      GivenOutOrTaken(s, events, p);
    }
    if Plain(s.queue[p]).Some? {
      PlainIsNeverTaken(s, events, p);
    }
  }

  /** One step of a message that is no tile: it stays or comes closer to the front, which it does with
      every get until the get that gives it out. */
  lemma {:induction false} FollowOther(s: QState, e: Event, p: nat)
    requires s.views.Closed() && (e.PutEvent? ==> ValidInput(e.input)) && p < |s.queue| && !s.queue[p].Tile?
    ensures match FollowStep(s, e, p)
            case None => e.PutEvent? || (e.GetEvent? && p == 0)
            case Some(p') => p' <= p && (e.GetEvent? ==> p' < p)
  {
    hide Put, Get, Follow, FollowGet, Absorbs;
    match e
    case PutEvent(input) => FollowMeans(s.queue, input, p);
    case GetEvent => FollowGetMeans(s.queue, s.views, p);
    case _ =>
  }

  lemma {:induction false} GivenOutOrTaken(s: QState, events: seq<Event>, p: nat)
    requires s.views.Valid() && ValidEvents(events)
    requires p < |s.queue| && !s.queue[p].Tile? && Gets(events) > p && !Taken(s, events, p)
    ensures IsGivenOut(s.queue[p], Run(s, events).responses, |s.responses|, |s.responses| + p + 1)
    decreases |events|
  {
    hide *;
    SomeEvents(events);
    var e, n := events[0], |s.responses|;
    AfterStep(s, events, p);
    FollowOther(s, e, p);
    match FollowStep(s, e, p)
    case None => GivenOutNow(s, events, p, n + p + 1);
    case Some(p') =>
      GivenOutOrTaken(Step(s, e), events[1..], p');
      GivenOutLater(s, events, s.queue[p], |Step(s, e).responses| + p' + 1, n + p + 1);
  }

  lemma {:induction false} PlainIsNeverTaken(s: QState, events: seq<Event>, p: nat)
    requires s.views.Valid() && ValidEvents(events) && p < |s.queue| && Plain(s.queue[p]).Some?
    ensures !Taken(s, events, p)
    decreases |events|
  {
    hide *;
    if Taken(s, events, p) {
      TakenNeedsEvents(s, events, p);
      AfterStep(s, events, p);
      FollowStepMeans(s, events[0], p);
      match FollowStep(s, events[0], p)
      case None => PlainIsNeverAbsorbed(events[0].input, s.queue[p]);
      case Some(p') => PlainIsNeverTaken(Step(s, events[0]), events[1..], p');
    }
  }

  lemma {:induction false} TakenNeedsEvents(s: QState, events: seq<Event>, p: nat)
    requires s.views.Valid() && ValidEvents(events) && p < |s.queue| && Taken(s, events, p)
    ensures events != []
  {
  }

  // ----- tiles that come out ----------------------------------------------------------------

  /** One step of a message and one behind it, of which the first is no preview and the second no plain
      tile: until a put takes one of them or a get gives out the first, they stay in step, and each get
      brings the second closer to the front. */
  lemma {:induction false} FollowBoth(s: QState, e: Event, i: nat, p: nat)
    requires s.views.Closed() && (e.PutEvent? ==> ValidInput(e.input)) && i < p < |s.queue|
    requires !IsPreview(s.queue[i]) && !IsPlainTile(s.queue[p])
    requires FollowStep(s, e, i).Some? && (e.PutEvent? ==> FollowStep(s, e, p).Some?)
    ensures FollowStep(s, e, p).Some?
    ensures var (i', p') := (FollowStep(s, e, i).value, FollowStep(s, e, p).value);
            i' < p' && p' - i' <= p - i && p' <= p && (e.GetEvent? ==> p' < p)
  {
    hide Put, Get, Follow, FollowGet, Absorbs;
    match e
    case PutEvent(input) =>
      FollowOrder(s.queue, input, i, p);
      FollowMeans(s.queue, input, p);
    case GetEvent => FollowGetOrder(s.queue, s.views, i, p);
    case _ =>
  }

  /** A plain tile in front of a message that is no plain tile is given out by one of the next p gets,
      where p is the place of that message, whatever is put in between and wherever cursors move, unless
      a put supersedes the tile, or takes that message, before. */
  lemma {:induction false} TileComesOut(s: QState, events: seq<Event>, i: nat, p: nat)
    requires s.views.Valid() && ValidEvents(events) && i < p < |s.queue|
    requires IsPlainTile(s.queue[i]) && !IsPlainTile(s.queue[p]) && Gets(events) >= p
    ensures || IsGivenOut(s.queue[i], Run(s, events).responses, |s.responses|, |s.responses| + p)
            || Taken(s, events, i) || Taken(s, events, p)
    ensures FollowRun(s, events, i).None? || Taken(s, events, p)
    ensures Plain(s.queue[p]).Some? ==> !Taken(s, events, p)
    decreases |events|
  {
    hide *;
    SomeEvents(events);
    PlainIsNoPreview(s.queue[i]);
    if Plain(s.queue[p]).Some? {
      PlainIsNeverTaken(s, events, p);
    }
    var e, rest, n := events[0], events[1..], |s.responses|;
    AfterStep(s, events, i);
    AfterStep(s, events, p);
    if FollowStep(s, e, i).None? {
      if e.GetEvent? {
        GivenOutNow(s, events, i, n + p);
      }
    } else if !Taken(s, events, p) {
      FollowBoth(s, e, i, p);
      var s', i', p' := Step(s, e), FollowStep(s, e, i).value, FollowStep(s, e, p).value;
      TileComesOut(s', rest, i', p');
      if !Taken(s, events, i) {
        GivenOutLater(s, events, s.queue[i], |s'.responses| + p', n + p);
      }
    }
  }

  lemma {:induction false} PlainIsNoPreview(t: Message)
    requires IsPlainTile(t)
    ensures !IsPreview(t)
  {
  }

  // ----- previews that come out -------------------------------------------------------------

  /** The preview at position `p` has no other preview in front of it, or none behind the message at
      position `i`, which is no tile. */
  ghost predicate Sheltered(q: seq<Message>, i: Option<nat>, p: nat) {
    && p < |q| && IsPreview(q[p])
    && (i.Some? ==> i.value < p && !q[i.value].Tile?)
    && forall m :: m in Between(q, i, p) ==> !IsPreview(m)
  }

  lemma {:induction false} CombineBetween(q: seq<Message>, first: TileDesc, i: Option<nat>, p: nat)
    requires p < |q| && (i.Some? ==> i.value < p)
    requires FollowCombine(q, first, p).Some? && (i.Some? ==> FollowCombine(q, first, i.value).Some?)
    ensures var (r, i', p') := (NotCombined(q, first), if i.None? then None else Some(KeptBefore(q, first, i.value)),
                               KeptBefore(q, first, p));
            && p' < |r| && (i'.Some? ==> i'.value < p')
            && forall m :: m in Between(r, i', p') ==> m in Between(q, i, p)
    decreases |q|
  {
    hide CanCombine, Between;
    if p > 0 {
      var i1 := Tail(i);
      CombineBetween(q[1..], first, i1, p - 1);
      WithHead(q, NotCombined(q[1..], first), !(IsPlainTile(q[0]) && CanCombine(first, q[0].desc)), i, p,
               if i1.None? then None else Some(KeptBefore(q[1..], first, i1.value)), KeptBefore(q[1..], first, p - 1));
    } else {
      NothingBetween(q, NotCombined(q, first), 0);
      FollowCombineMeans(q, first, 0);
    }
  }

  /** A get gives out the preview, or keeps it sheltered and brings it closer to the front. */
  lemma {:induction false} GetShelters(q: seq<Message>, views: Views, i: Option<nat>, p: nat)
    requires views.Closed() && Sheltered(q, i, p) && p > 0
    ensures var (r, i', p') := (Get(q, views).1, if i.None? then None else FollowGet(q, views, i.value),
                               FollowGet(q, views, p));
            p'.Some? && p'.value < p && Sheltered(r, i', p'.value)
  {
    hide Get, FollowGet, Sheltered;
    ShelteredMeans(q, i, p);
    if !q[0].Tile? {
      FrontOtherShelters(q, views, i, p);
    } else if q[0].preview {
      FrontPreviewShelters(q, views, i, p);
    } else {
      FrontTileShelters(q, views, i, p);
    }
  }

  lemma {:induction false} FrontOtherShelters(q: seq<Message>, views: Views, i: Option<nat>, p: nat)
    requires views.Closed() && Sheltered(q, i, p) && p > 0 && !q[0].Tile?
    ensures var (r, i', p') := (Get(q, views).1, if i.None? then None else FollowGet(q, views, i.value),
                               FollowGet(q, views, p));
            p'.Some? && p'.value < p && Sheltered(r, i', p'.value)
  {
    hide Between, Best, LeadingTiles, LeadingPreviews;
    OneInFront(q, i, p);
    assert q[1..][p - 1] == q[p];
    if i.Some? && i.value > 0 {
      assert q[1..][i.value - 1] == q[i.value];
    }
  }

  lemma {:induction false} FrontPreviewShelters(q: seq<Message>, views: Views, i: Option<nat>, p: nat)
    requires views.Closed() && Sheltered(q, i, p) && p > 0 && IsPreview(q[0])
    ensures var (r, i', p') := (Get(q, views).1, if i.None? then None else FollowGet(q, views, i.value),
                               FollowGet(q, views, p));
            p'.Some? && p'.value < p && Sheltered(r, i', p'.value)
  {
    hide Get, LeadingTiles, Best, LeadingPreviews, Between;
    GetMeans(q, views);
    FollowGetMeans(q, views, p);
    OneInFront(q, i, p);
    assert i.Some?;
    var k, t, n := i.value, q[1..], LeadingPreviews(q[1..]);
    FollowGetMeans(q, views, k);
    assert t[k - 1] == q[k];
    RotatedBetween(q, n, k, p);
  }

  lemma {:induction false} RotatedBetween(q: seq<Message>, n: nat, k: nat, p: nat)
    requires n < k < p < |q|
    ensures var t := q[1..]; Between(t[n..] + t[..n], Some(k - 1 - n), p - 1 - n) == Between(q, Some(k), p)
  {
  }

  lemma {:induction false} FrontTileShelters(q: seq<Message>, views: Views, i: Option<nat>, p: nat)
    requires views.Closed() && Sheltered(q, i, p) && p > 0 && IsPlainTile(q[0])
    ensures var (r, i', p') := (Get(q, views).1, if i.None? then None else FollowGet(q, views, i.value),
                               FollowGet(q, views, p));
            p'.Some? && p'.value < p && Sheltered(r, i', p'.value)
  {
    hide Get, NotCombined, Best, LeadingPreviews, LeadingTiles, CanCombine, KeptBefore, Between;
    GetMeans(q, views);
    FollowGetMeans(q, views, p);
    var b := Best(q, views, LeadingTiles(q));
    var i1 := if i.None? then None else AfterRemoval(b, i.value);
    if i.Some? {
      FollowGetMeans(q, views, i.value);
    }
    RemovedWithout(q, b, i, p);
    CombineBetween(RemoveAt(q, b), q[b].desc, i1, AfterRemoval(b, p).value);
  }

  lemma {:induction false} RemovedWithout(q: seq<Message>, k: nat, i: Option<nat>, p: nat)
    requires p < |q| && p != k && (i.Some? ==> i.value < p && i.value != k)
    ensures var (r, i', p') := (RemoveAt(q, k), if i.None? then None else AfterRemoval(k, i.value),
                               AfterRemoval(k, p).value);
            && p' < |r| && r[p'] == q[p] && (i'.Some? ==> i'.value < p' && r[i'.value] == q[i.value])
            && forall m :: m in Between(r, i', p') ==> m in Between(q, i, p)
  {
    hide Between;
    RemovedBetween(q, q[p], k, i, p);
    var r, i', p' := RemoveAt(q, k), if i.None? then None else AfterRemoval(k, i.value), AfterRemoval(k, p).value;
    BetweenInPrefix(r, q[p], i', p');
  }

  lemma {:induction false} BetweenInPrefix(r: seq<Message>, n: Message, i: Option<nat>, p: nat)
    requires p < |r| && (i.Some? ==> i.value < p)
    ensures Between(r + [n], i, p) == Between(r, i, p)
  {
  }

  /** So does every other step that takes neither of the two. */
  lemma {:induction false} StepShelters(s: QState, e: Event, i: Option<nat>, p: nat)
    requires s.views.Closed() && (e.PutEvent? ==> ValidInput(e.input)) && Sheltered(s.queue, i, p)
    requires e.PutEvent? ==> FollowStep(s, e, p).Some? && (i.Some? ==> FollowStep(s, e, i.value).Some?)
    ensures FollowStep(s, e, p).None? ==> e.GetEvent? && p == 0
    ensures FollowStep(s, e, p).Some? ==>
              var (i', p') := (if i.None? then None else FollowStep(s, e, i.value), FollowStep(s, e, p).value);
              p' <= p && (e.GetEvent? ==> p' < p) && Sheltered(Step(s, e).queue, i', p')
  {
    hide Put, Get, Follow, FollowGet, Absorbs, Between;
    match e
    case PutEvent(input) =>
      FollowMeans(s.queue, input, p);
      if i.Some? {
        FollowMeans(s.queue, input, i.value);
      }
      FollowBetween(s.queue, input, i, p);
    case GetEvent =>
      if p == 0 {
        FollowGetMeans(s.queue, s.views, 0);
      } else {
        GetShelters(s.queue, s.views, i, p);
      }
    case _ =>
  }

  /** A preview at index p that has no other preview in front of it, or none behind a message in front
      of it that is no tile, is given out by one of the next p + 1 gets, whatever is put in between and
      wherever cursors move, unless a put takes one of the two before. */
  lemma {:induction false} PreviewComesOut(s: QState, events: seq<Event>, i: Option<nat>, p: nat)
    requires s.views.Valid() && ValidEvents(events) && Sheltered(s.queue, i, p) && Gets(events) > p
    ensures || IsGivenOut(s.queue[p], Run(s, events).responses, |s.responses|, |s.responses| + p + 1)
            || Taken(s, events, p) || (i.Some? && Taken(s, events, i.value))
    decreases |events|
  {
    hide *;
    SomeEvents(events);
    ShelteredMeans(s.queue, i, p);
    var e, rest, n := events[0], events[1..], |s.responses|;
    AfterStep(s, events, p);
    if i.Some? {
      AfterStep(s, events, i.value);
    }
    if !Taken(s, events, p) && !(i.Some? && Taken(s, events, i.value)) {
      StepShelters(s, e, i, p);
      if FollowStep(s, e, p).None? {
        GivenOutNow(s, events, p, n + p + 1);
      } else {
        var s', p' := Step(s, e), FollowStep(s, e, p).value;
        PreviewComesOut(s', rest, if i.None? then None else FollowStep(s, e, i.value), p');
        GivenOutLater(s, events, s.queue[p], |s'.responses| + p' + 1, n + p + 1);
      }
    }
  }

  lemma {:induction false} ShelteredMeans(q: seq<Message>, i: Option<nat>, p: nat)
    requires Sheltered(q, i, p)
    ensures p < |q| && (i.Some? ==> i.value < p)
  {
  }
}
