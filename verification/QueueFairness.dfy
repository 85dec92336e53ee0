/**
 What get gives out: the tile it chooses, and conservation of tiles.  How long a message waits is in
 `QueueWaiting`.
*/
module QueueFairness {

  import opened Sequences
  import opened Wrappers
  import opened TileDescs
  import opened QueueSpec
  import opened QueueRuns

  // ----- the tile that get chooses ----------------------------------------------------------

  /** The chosen tile has the highest priority of the leading plain tiles, and is the first of those
      that have it. */
  lemma {:induction false} BestIsTheEarliestOfHighestPriority(q: seq<Message>, views: Views, n: nat, i: nat)
    requires 0 < n <= LeadingTiles(q) && views.Closed() && i < n
    ensures Priority(views, q[i].desc) <= Priority(views, q[Best(q, views, n)].desc)
    ensures i < Best(q, views, n) ==> Priority(views, q[i].desc) < Priority(views, q[Best(q, views, n)].desc)
  {
    hide Priority;
    if n > 1 {
      if i < n - 1 {
        BestIsTheEarliestOfHighestPriority(q, views, n - 1, i);
      }
      BestIsTheEarliestOfHighestPriority(q, views, n - 1, Best(q, views, n - 1));
    }
  }

  /** A tile whose priority is the highest possible one need not be compared with later tiles. */
  lemma {:induction false} EarlyExitIsSound(q: seq<Message>, views: Views, i: nat, n: nat)
    requires i < n <= LeadingTiles(q) && views.Closed()
    requires Best(q, views, i + 1) == i && Priority(views, q[i].desc) == |views.order| - 1
    ensures Best(q, views, n) == i
    decreases n
  {
    if n > i + 1 {
      EarlyExitIsSound(q, views, i, n - 1);
    }
  }

  // ----- nothing is lost or duplicated ------------------------------------------------------

  /** The descriptors of the tile messages. */
  function DescOf(m: Message): Option<TileDesc> {
    if m.Tile? then Some(m.desc) else None
  }

  function Descs(q: seq<Message>): seq<TileDesc> {
    Project(DescOf, q)
  }

  /** How often the tile is among the descriptors, and among the messages. */
  function Tally(d: TileDesc, descs: seq<TileDesc>): nat {
    multiset(descs)[d]
  }

  function Count(d: TileDesc, q: seq<Message>): nat {
    Tally(d, Descs(q))
  }

  function TilesOf(r: Response): seq<TileDesc> {
    match r
    case Whole(m) => Descs([m])
    case Tiles(descs) => descs
  }

  lemma {:induction false} CountAppend(d: TileDesc, a: seq<Message>, b: seq<Message>)
    ensures Count(d, a + b) == Count(d, a) + Count(d, b)
  {
    ProjectAppend(DescOf, a, b);
  }

  lemma {:induction false} CountSplit(d: TileDesc, q: seq<Message>, i: nat)
    requires i < |q|
    ensures Count(d, q) == Count(d, RemoveAt(q, i)) + Count(d, [q[i]])
  {
    hide Count;
    assert q == q[..i] + ([q[i]] + q[i + 1..]);
    CountAppend(d, q[..i], [q[i]] + q[i + 1..]);
    CountAppend(d, [q[i]], q[i + 1..]);
    CountAppend(d, q[..i], q[i + 1..]);
  }

  lemma {:induction false} CountOne(d: TileDesc, m: Message)
    ensures Count(d, [m]) == if m.Tile? && m.desc == d then 1 else 0
  {
    ProjectOne(DescOf, m);
  }

  lemma {:induction false} CountRotated(d: TileDesc, q: seq<Message>)
    ensures Count(d, Deprioritize(q)) == Count(d, q)
  {
    hide Count;
    var n := LeadingPreviews(q);
    CountAppend(d, q[n..], q[..n]);
    CountAppend(d, q[..n], q[n..]);
    assert q[..n] + q[n..] == q;
  }

  lemma {:induction false} CountCombined(d: TileDesc, q: seq<Message>, first: TileDesc)
    ensures Count(d, q) == Tally(d, Combined(q, first)) + Count(d, NotCombined(q, first))
  {
    hide Count;
    if q == [] {
      assert Count(d, []) == 0 by { EmptyCount(d); }
    } else {
      CountCombined(d, q[1..], first);
      CountAppend(d, [q[0]], q[1..]);
      assert q == [q[0]] + q[1..];
      CountOne(d, q[0]);
      if IsPlainTile(q[0]) && CanCombine(first, q[0].desc) {
        assert NotCombined(q, first) == NotCombined(q[1..], first);
        assert Combined(q, first) == [q[0].desc] + Combined(q[1..], first);
      } else {
        assert NotCombined(q, first) == [q[0]] + NotCombined(q[1..], first);
        assert Combined(q, first) == Combined(q[1..], first);
        CountAppend(d, [q[0]], NotCombined(q[1..], first));
      }
    }
  }

  lemma {:induction false} EmptyCount(d: TileDesc)
    ensures Count(d, []) == 0
  {
  }

  /** A get gives out tiles of the queue and leaves the others: of each tile, as many as there were. */
  lemma {:induction false} GetConservesTiles(d: TileDesc, q: seq<Message>, views: Views)
    requires q != [] && views.Closed()
    ensures Count(d, q) == Tally(d, TilesOf(Get(q, views).0)) + Count(d, Get(q, views).1)
  {
    assert q == [q[0]] + q[1..];
    CountAppend(d, [q[0]], q[1..]);
    if IsPlainTile(q[0]) {
      var b := Best(q, views, LeadingTiles(q));
      CountSplit(d, q, b);
      CountOne(d, q[b]);
      CountCombined(d, RemoveAt(q, b), q[b].desc);
    } else {
      CountRotated(d, q[1..]);
    }
  }

  lemma {:induction false} NotCombinedSize(q: seq<Message>, first: TileDesc)
    ensures |NotCombined(q, first)| <= |q|
  {
    if q != [] {
      NotCombinedSize(q[1..], first);
    }
  }

  /** Every get on a queue that is not empty shrinks it. */
  lemma {:induction false} GetShrinks(q: seq<Message>, views: Views)
    requires q != [] && views.Closed()
    ensures |Get(q, views).1| < |q|
  {
    if IsPlainTile(q[0]) {
      var b := Best(q, views, LeadingTiles(q));
      NotCombinedSize(RemoveAt(q, b), q[b].desc);
    }
  }

  // ----- tiles over whole runs --------------------------------------------------------------

  /** The tile messages that a put of `tiles` supersedes. */
  function Superseded(q: seq<Message>, tiles: seq<Message>): seq<Message>
    requires forall m :: m in tiles ==> m.Tile?
    decreases |tiles|
  {
    if tiles == [] then []
    else
      var i := FindFirst(q, x => IsTileDuplicate(tiles[0].raw, x));
      (if i < |q| then [q[i]] else []) + Superseded(PutTile(q, tiles[0]), tiles[1..])
  }

  function SupersededBy(q: seq<Message>, input: Input): seq<Message>
    requires ValidInput(input)
  {
    match input
    case TileCombine(tiles) => Superseded(q, tiles)
    case One(m) => if m.Tile? then Superseded(q, [m]) else []
  }

  /** What a step supersedes. */
  function SupersededIn(s: QState, e: Event): seq<Message>
    requires e.PutEvent? ==> ValidInput(e.input)
  {
    if e.PutEvent? then SupersededBy(s.queue, e.input) else []
  }

  /** Everything superseded over a run, and everything given out. */
  function AllSuperseded(s: QState, events: seq<Event>): seq<Message>
    requires s.views.Valid() && ValidEvents(events)
    decreases |events|
  {
    if events == [] then []
    else
      StepKeepsViews(s, events[0]);
      SupersededIn(s, events[0]) + AllSuperseded(Step(s, events[0]), events[1..])
  }

  function GivenOut(responses: seq<Response>): seq<TileDesc> {
    if responses == [] then []
    else GivenOut(responses[..|responses| - 1]) + TilesOf(responses[|responses| - 1])
  }

  lemma {:induction false} PutTilesConserves(d: TileDesc, q: seq<Message>, tiles: seq<Message>)
    requires forall m :: m in tiles ==> m.Tile?
    ensures Count(d, q) + Count(d, tiles) == Count(d, PutTiles(q, tiles)) + Count(d, Superseded(q, tiles))
    decreases |tiles|
  {
    hide Count;
    EmptyCount(d);
    if tiles != [] {
      var m, rest := tiles[0], tiles[1..];
      var i := FindFirst(q, x => IsTileDuplicate(m.raw, x));
      if i < |q| {
        CountSplit(d, q, i);
      }
      CountAppend(d, RemoveAt(q, i), [m]);
      CountAppend(d, [m], rest);
      assert tiles == [m] + rest;
      PutTilesConserves(d, PutTile(q, m), rest);
      CountAppend(d, if i < |q| then [q[i]] else [], Superseded(PutTile(q, m), rest));
    }
  }

  /** A projection shows tiles only. */
  ghost predicate ShowsTilesOnly<T(!new)>(p: Message -> Option<T>) {
    forall m: Message :: !m.Tile? ==> p(m) == None
  }

  lemma {:induction false} SweepKeepsTiles<T(!new)>(p: Message -> Option<T>, q: seq<Message>, target: string, part: int,
                                                    rect: Rect)
    requires ShowsTilesOnly(p)
    ensures Project(p, SweepQueue(q, target, part, rect).kept) == Project(p, q)
  {
    if q != [] {
      match Judge(q[0], target, part, rect)
      case Keep =>
        SweepKeepsTiles(p, q[1..], target, part, rect);
        var kept := SweepQueue(q[1..], target, part, rect).kept;
        assert ([q[0]] + kept)[1..] == kept;
      case Drop => SweepKeepsTiles(p, q[1..], target, part, rect);
      case Merge => SweepKeepsTiles(p, q[1..], target, part, Join(rect, RectOf(q[0].body.area)));
    }
  }

  lemma {:induction false} OtherPutsKeepTiles<T(!new)>(p: Message -> Option<T>, q: seq<Message>, m: Message)
    requires ShowsTilesOnly(p) && !m.Tile?
    ensures Project(p, Put(q, One(m))) == Project(p, q)
  {
    match m
    case Callback(_, _) =>
      if m.body.Invalidate? {
        var s := SweepQueue(q, m.target, m.body.part, RectOf(m.body.area));
        SweepKeepsTiles(p, q, m.target, m.body.part, RectOf(m.body.area));
        var n := if s.merged then Callback(m.target, Invalidate(Some(s.rect), m.body.part)) else m;
        ProjectAppend(p, s.kept, [n]);
        ProjectOne(p, n);
      } else {
        var i := FindFirst(q, x => KeyOf(x) == KeyOf(m));
        if KeyOf(m).Some? {
          ProjectRemove(p, q, i);
          ProjectAppend(p, RemoveAt(q, i), [m]);
        }
        ProjectAppend(p, q, [m]);
        ProjectOne(p, m);
      }
    case _ =>
      BasePutKeepsProjection(p, q, m);
      HiddenAtEnd(p, q, m);
  }

  lemma {:induction false} PutConserves(d: TileDesc, q: seq<Message>, input: Input)
    requires ValidInput(input)
    ensures Count(d, q) + Count(d, Messages(input)) == Count(d, Put(q, input)) + Count(d, SupersededBy(q, input))
  {
    match input
    case TileCombine(tiles) => PutTilesConserves(d, q, tiles);
    case One(m) =>
      CountOne(d, m);
      EmptyCount(d);
      if m.Tile? {
        PutTilesConserves(d, q, [m]);
        assert [m][1..] == [];
        assert PutTiles(PutTile(q, m), []) == PutTile(q, m);
      } else {
        OtherPutsKeepTiles(DescOf, q, m);
      }
  }

  lemma {:induction false} GivenOutOneMore(responses: seq<Response>, r: Response, d: TileDesc)
    ensures Tally(d, GivenOut(responses + [r])) == Tally(d, GivenOut(responses)) + Tally(d, TilesOf(r))
  {
    assert (responses + [r])[..|responses|] == responses;
  }

  /** A step keeps the tiles that are queued, given out or superseded equal to those that were put. */
  lemma {:induction false} StepConservesTiles(d: TileDesc, s: QState, e: Event)
    requires s.views.Closed() && (e.PutEvent? ==> ValidInput(e.input))
    ensures Count(d, s.queue) + Tally(d, GivenOut(s.responses)) + Count(d, PutBy(e)) ==
            Count(d, Step(s, e).queue) + Tally(d, GivenOut(Step(s, e).responses)) + Count(d, SupersededIn(s, e))
  {
    hide Count, Tally, Put, Get, GivenOut, SupersededBy;
    EmptyCount(d);
    match e
    case PutEvent(input) => PutConserves(d, s.queue, input);
    case GetEvent =>
      if s.queue != [] {
        GetConservesTiles(d, s.queue, s.views);
        GivenOutOneMore(s.responses, Get(s.queue, s.views).0, d);
      }
    case _ =>
  }

  /** Every superseded tile was queued, or put by the same request, and agrees with a tile that is put,
      up to what counts of a tile message. */
  ghost predicate SupersededRightly(q: seq<Message>, put: seq<Message>, superseded: seq<Message>) {
    forall m :: m in superseded ==> (m in q || m in put) && SupersededByOneOf(put, m)
  }

  ghost predicate SupersededByOneOf(put: seq<Message>, m: Message) {
    exists n :: n in put && n.Tile? && IsTileDuplicate(n.raw, m)
  }

  lemma {:induction false} TilesSupersedeRightly(q: seq<Message>, tiles: seq<Message>)
    requires forall m :: m in tiles ==> m.Tile?
    ensures SupersededRightly(q, tiles, Superseded(q, tiles))
    decreases |tiles|
  {
    hide SupersededByOneOf, IsTileDuplicate, FindFirst, PutTile;
    if tiles != [] {
      var t, rest := tiles[0], tiles[1..];
      var i := FindFirst(q, x => IsTileDuplicate(t.raw, x));
      TilesSupersedeRightly(PutTile(q, t), rest);
      PutTileMembers(q, t);
      forall m | m in Superseded(q, tiles) ensures (m in q || m in tiles) && SupersededByOneOf(tiles, m) {
        if m in Superseded(PutTile(q, t), rest) {
          LaterOneOf(tiles, m);
        } else {
          assert i < |q| && m == q[i];
          FirstOneOf(tiles, m);
        }
      }
    }
  }

  lemma {:induction false} PutTileMembers(q: seq<Message>, t: Message)
    requires t.Tile?
    ensures forall m :: m in PutTile(q, t) ==> m in q || m == t
  {
  }

  lemma {:induction false} LaterOneOf(tiles: seq<Message>, m: Message)
    requires tiles != [] && SupersededByOneOf(tiles[1..], m)
    ensures SupersededByOneOf(tiles, m)
  {
    var n :| n in tiles[1..] && n.Tile? && IsTileDuplicate(n.raw, m);
    assert n in tiles;
  }

  lemma {:induction false} FirstOneOf(tiles: seq<Message>, m: Message)
    requires tiles != [] && tiles[0].Tile? && IsTileDuplicate(tiles[0].raw, m)
    ensures SupersededByOneOf(tiles, m)
  {
    assert tiles[0] in tiles;
  }

  lemma {:induction false} StepSupersedesRightly(s: QState, e: Event)
    requires e.PutEvent? ==> ValidInput(e.input)
    ensures SupersededRightly(s.queue, PutBy(e), SupersededIn(s, e))
  {
    if e.PutEvent? {
      match e.input
      case TileCombine(tiles) => TilesSupersedeRightly(s.queue, tiles);
      case One(m) =>
        if m.Tile? {
          TilesSupersedeRightly(s.queue, [m]);
        }
    }
  }

  /** At some event of the run the message was queued, or came with it, and that event put a tile
      that agrees with it. */
  ghost predicate SupersededAt(s: QState, events: seq<Event>, m: Message)
    requires s.views.Valid() && ValidEvents(events)
    decreases |events|
  {
    events != [] &&
    (|| (m in SupersededIn(s, events[0]) && (m in s.queue || m in PutBy(events[0]))
         && SupersededByOneOf(PutBy(events[0]), m))
     || (StepKeepsViews(s, events[0]); SupersededAt(Step(s, events[0]), events[1..], m)))
  }

  lemma {:induction false} RunSupersedesRightly(s: QState, events: seq<Event>, m: Message)
    requires s.views.Valid() && ValidEvents(events) && m in AllSuperseded(s, events)
    ensures SupersededAt(s, events, m)
    decreases |events|
  {
    hide Step, SupersededIn, PutBy, SupersededByOneOf;
    StepKeepsViews(s, events[0]);
    StepSupersedesRightly(s, events[0]);
    if m !in SupersededIn(s, events[0]) {
      RunSupersedesRightly(Step(s, events[0]), events[1..], m);
    }
  }

  /** Over any run, every tile that was put is queued, or was given out, or was superseded, as often as
      it was put, and nothing else is given out; and what was superseded agrees, up to what counts of a
      tile message, with a tile put at the event that superseded it. */
  lemma {:induction false} TilesAreConserved(d: TileDesc, s: QState, events: seq<Event>)
    requires s.views.Valid() && ValidEvents(events)
    ensures Count(d, s.queue) + Tally(d, GivenOut(s.responses)) + Count(d, History(events)) ==
            Count(d, Run(s, events).queue) + Tally(d, GivenOut(Run(s, events).responses)) +
            Count(d, AllSuperseded(s, events))
    ensures forall m :: m in AllSuperseded(s, events) ==> SupersededAt(s, events, m)
  {
    hide AllSuperseded, SupersededAt, Count, Tally;
    RunConserves(d, s, events);
    forall m | m in AllSuperseded(s, events) ensures SupersededAt(s, events, m) {
      RunSupersedesRightly(s, events, m);
    }
  }

  lemma {:induction false} RunConserves(d: TileDesc, s: QState, events: seq<Event>)
    requires s.views.Valid() && ValidEvents(events)
    ensures Count(d, s.queue) + Tally(d, GivenOut(s.responses)) + Count(d, History(events)) ==
            Count(d, Run(s, events).queue) + Tally(d, GivenOut(Run(s, events).responses)) +
            Count(d, AllSuperseded(s, events))
    decreases |events|
  {
    hide Step, PutBy, SupersededIn, GivenOut, Count, Tally;
    EmptyCount(d);
    if events != [] {
      var e, rest := events[0], events[1..];
      StepKeepsViews(s, e);
      StepConservesTiles(d, s, e);
      RunConserves(d, Step(s, e), rest);
      CountAppend(d, PutBy(e), History(rest));
      CountAppend(d, SupersededIn(s, e), AllSuperseded(Step(s, e), rest));
    }
  }
}
