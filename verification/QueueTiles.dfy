/**
 Which queued tile a new one replaces, by the texts of their messages (common/MessageQueue.cpp,
 TileQueue::removeTileDuplicate), and what that keeps over whole runs: one queued tile for a place.
*/
module QueueTiles {

  import opened Sequences
  import opened Wrappers
  import opened TileDescs
  import opened QueueSpec
  import opened QueueRuns
  import opened QueueFairness

  // ----- the part of the text that counts ---------------------------------------------------

  /** The text holds " ver" at `i`. */
  predicate HasVer(raw: string, i: nat) {
    i + 4 <= |raw| && raw[i] == ' ' && raw[i + 1] == 'v' && raw[i + 2] == 'e' && raw[i + 3] == 'r'
  }

  /** What the tile message is about: the text before the first " ver", or without one all but the last
      character. */
  ghost predicate IsPlace(place: string, raw: string) {
    && place <= raw
    && (forall i :: 0 <= i < |place| ==> !HasVer(raw, i))
    && (HasVer(raw, |place|) || ((forall i :: 0 <= i < |raw| ==> !HasVer(raw, i)) && |raw| - 1 <= |place| < |raw|))
  }

  /** The message is a tile message with text that begins like that and goes on. */
  ghost predicate AtPlace(place: string, m: Message) {
    m.Tile? && |place| < |m.raw| && place <= m.raw
  }

  lemma {:induction false} FindsFirstVer(raw: string)
    ensures match Find(raw, " ver")
            case Some(i) => HasVer(raw, i) && forall j :: 0 <= j < i ==> !HasVer(raw, j)
            case None => forall j :: 0 <= j < |raw| ==> !HasVer(raw, j)
  {
    if |raw| >= 4 && raw[..4] != " ver" {
      var rest := raw[1..];
      FindsFirstVer(rest);
      VerIsText(raw);
      forall j | 0 < j < |raw| ensures HasVer(raw, j) == HasVer(rest, j - 1) {
      }
    } else if |raw| >= 4 {
      VerIsText(raw);
    }
  }

  lemma {:induction false} VerIsText(raw: string)
    requires |raw| >= 4
    ensures HasVer(raw, 0) <==> raw[..4] == " ver"
  {
    if raw[..4] == " ver" {
      assert raw[0] == raw[..4][0] && raw[1] == raw[..4][1] && raw[2] == raw[..4][2] && raw[3] == raw[..4][3];
    }
  }

  /** Every text that is not empty is about one place, and a new tile replaces the first queued tile message
      whose text begins with the text for its place and goes on. */
  lemma {:induction false} ReplacesExactly(place: string, raw: string, m: Message)
    requires raw != ""
    ensures IsPlace(place, raw) <==> place == raw[..KeyLength(raw)]
    ensures IsPlace(place, raw) ==> (IsTileDuplicate(raw, m) <==> AtPlace(place, m))
  {
    FindsFirstVer(raw);
    var n := KeyLength(raw);
    if IsPlace(place, raw) {
      assert |place| == n;
    }
  }

  /** So it also replaces a tile that is about something else, if the text for its place only goes on where
      that of the new one ends: a tile with wid=1 replaces one with wid=12. */
  lemma {:induction false} ReplacesLongerText(place: string, more: string, raw: string, queued: Message)
    requires raw != "" && IsPlace(place, raw)
    requires queued.Tile? && IsPlace(place + more, queued.raw) && more != ""
    ensures IsTileDuplicate(raw, queued)
  {
    ReplacesExactly(place, raw, queued);
    assert queued.raw[..|place|] == (place + more)[..|place|];
  }

  // ----- one queued tile for a place --------------------------------------------------------

  ghost predicate OneAt(place: string, q: seq<Message>) {
    forall i, j :: 0 <= i < j < |q| ==> !(AtPlace(place, q[i]) && AtPlace(place, q[j]))
  }

  ghost function At(place: string): Message -> Option<Message> {
    m => if AtPlace(place, m) then Some(m) else None
  }

  ghost function Number(place: string, q: seq<Message>): nat {
    |Project(At(place), q)|
  }

  lemma {:induction false} NumberAppend(place: string, a: seq<Message>, b: seq<Message>)
    ensures Number(place, a + b) == Number(place, a) + Number(place, b)
  {
    ProjectAppend(At(place), a, b);
  }

  lemma {:induction false} NumberOne(place: string, m: Message)
    ensures Number(place, [m]) == if AtPlace(place, m) then 1 else 0
  {
    ProjectOne(At(place), m);
  }

  lemma {:induction false} NumberRemove(place: string, q: seq<Message>, i: nat)
    requires i < |q|
    ensures Number(place, q) == Number(place, RemoveAt(q, i)) + if AtPlace(place, q[i]) then 1 else 0
  {
    hide Number, AtPlace;
    assert q == q[..i] + ([q[i]] + q[i + 1..]);
    NumberAppend(place, q[..i], [q[i]] + q[i + 1..]);
    NumberAppend(place, [q[i]], q[i + 1..]);
    NumberAppend(place, q[..i], q[i + 1..]);
    NumberOne(place, q[i]);
  }

  lemma {:induction false} NoneIsZero(place: string, q: seq<Message>)
    ensures Number(place, q) == 0 <==> forall i :: 0 <= i < |q| ==> !AtPlace(place, q[i])
  {
    if q != [] {
      hide Number, AtPlace;
      NumberHead(place, q);
      NoneIsZero(place, q[1..]);
      assert forall i :: 0 < i < |q| ==> q[i] == q[1..][i - 1];
    }
  }

  lemma {:induction false} NumberHead(place: string, q: seq<Message>)
    requires q != []
    ensures Number(place, q) == Number(place, q[1..]) + if AtPlace(place, q[0]) then 1 else 0
  {
    NumberRemove(place, q, 0);
    assert RemoveAt(q, 0) == q[1..];
  }

  lemma {:induction false} OneIsAtMostOne(place: string, q: seq<Message>)
    ensures Number(place, q) <= 1 <==> OneAt(place, q)
  {
    if q == [] {
      NoneIsZero(place, q);
    } else {
      hide Number, AtPlace;
      var rest := q[1..];
      NumberHead(place, q);
      OneIsAtMostOne(place, rest);
      NoneIsZero(place, rest);
      OneAtHead(place, q[0], rest);
      assert q == [q[0]] + rest;
    }
  }

  lemma {:induction false} OneAtHead(place: string, m: Message, rest: seq<Message>)
    ensures OneAt(place, [m] + rest) <==>
            OneAt(place, rest) && (AtPlace(place, m) ==> forall i :: 0 <= i < |rest| ==> !AtPlace(place, rest[i]))
  {
    hide AtPlace;
    var q := [m] + rest;
    assert forall i :: 0 <= i < |rest| ==> rest[i] == q[i + 1];
    if OneAt(place, q) {
      forall i | 0 <= i < |rest| && AtPlace(place, m) ensures !AtPlace(place, rest[i]) {
        assert !(AtPlace(place, q[0]) && AtPlace(place, q[i + 1]));
      }
      forall i, j | 0 <= i < j < |rest| ensures !(AtPlace(place, rest[i]) && AtPlace(place, rest[j])) {
        assert !(AtPlace(place, q[i + 1]) && AtPlace(place, q[j + 1]));
      }
    }
  }

  // ----- one step ---------------------------------------------------------------------------

  /** A tile message that begins with the text for the place is about this place. */
  ghost predicate IsClear(place: string, m: Message) {
    AtPlace(place, m) ==> IsPlace(place, m.raw)
  }

  lemma {:induction false} PutTileKeepsOne(place: string, q: seq<Message>, m: Message)
    requires m.Tile? && IsClear(place, m) && Number(place, q) <= 1
    ensures Number(place, PutTile(q, m)) <= 1
  {
    hide Number, IsPlace, AtPlace, IsTileDuplicate;
    var i := FindFirst(q, x => IsTileDuplicate(m.raw, x));
    NumberAppend(place, RemoveAt(q, i), [m]);
    NumberOne(place, m);
    if AtPlace(place, m) {
      AtPlaceIsText(place, m);
      forall x ensures IsTileDuplicate(m.raw, x) <==> AtPlace(place, x) {
        ReplacesExactly(place, m.raw, x);
      }
      NoneIsZero(place, q);
    }
    if i < |q| {
      NumberRemove(place, q, i);
    }
  }

  lemma {:induction false} AtPlaceIsText(place: string, m: Message)
    requires AtPlace(place, m)
    ensures m.raw != ""
  {
  }

  lemma {:induction false} PutTilesKeepsOne(place: string, q: seq<Message>, tiles: seq<Message>)
    requires (forall m :: m in tiles ==> m.Tile? && IsClear(place, m)) && Number(place, q) <= 1
    ensures Number(place, PutTiles(q, tiles)) <= 1
    decreases |tiles|
  {
    hide Number, IsClear, PutTile;
    if tiles != [] {
      PutTileKeepsOne(place, q, tiles[0]);
      PutTilesKeepsOne(place, PutTile(q, tiles[0]), tiles[1..]);
    }
  }

  lemma {:induction false} PutKeepsOne(place: string, q: seq<Message>, input: Input)
    requires ValidInput(input) && (forall m :: m in Messages(input) ==> IsClear(place, m)) && Number(place, q) <= 1
    ensures Number(place, Put(q, input)) <= 1
  {
    hide IsClear, PutTile, PutTiles;
    match input
    case TileCombine(tiles) => PutTilesKeepsOne(place, q, tiles);
    case One(m) =>
      assert m in Messages(input);
      if m.Tile? {
        PutTileKeepsOne(place, q, m);
      } else {
        ShowsTiles(place);
        OtherPutsKeepTiles(At(place), q, m);
      }
  }

  lemma {:induction false} ShowsTiles(place: string)
    ensures ShowsTilesOnly(At(place))
  {
  }

  lemma {:induction false} CombiningTakesOut(place: string, q: seq<Message>, first: TileDesc)
    ensures Number(place, NotCombined(q, first)) <= Number(place, q)
  {
    if q != [] {
      hide Number, AtPlace, CanCombine;
      CombiningTakesOut(place, q[1..], first);
      NumberHead(place, q);
      if IsPlainTile(q[0]) && CanCombine(first, q[0].desc) {
        assert NotCombined(q, first) == NotCombined(q[1..], first);
      } else {
        NumberAppend(place, [q[0]], NotCombined(q[1..], first));
        NumberOne(place, q[0]);
      }
    }
  }

  lemma {:induction false} GetKeepsOne(place: string, q: seq<Message>, views: Views)
    requires q != [] && views.Closed() && Number(place, q) <= 1
    ensures Number(place, Get(q, views).1) <= 1
  {
    hide Number, AtPlace, Get, Best, NotCombined, LeadingPreviews, LeadingTiles;
    GetMeans(q, views);
    NumberHead(place, q);
    if q[0].Tile? && q[0].preview {
      var t := q[1..];
      var n := LeadingPreviews(t);
      NumberAppend(place, t[n..], t[..n]);
      NumberAppend(place, t[..n], t[n..]);
      assert t[..n] + t[n..] == t;
    } else if q[0].Tile? {
      var b := Best(q, views, LeadingTiles(q));
      NumberRemove(place, q, b);
      CombiningTakesOut(place, RemoveAt(q, b), q[b].desc);
    }
  }

  /** Over any run: if every tile that is put and whose text begins with the text for a place is about this
      place, at most one tile for the place is queued. */
  lemma {:induction false} OneTileAPlace(s: QState, events: seq<Event>, place: string)
    requires s.views.Valid() && ValidEvents(events) && OneAt(place, s.queue)
    requires forall m :: m in History(events) ==> IsClear(place, m)
    ensures OneAt(place, Run(s, events).queue)
    decreases |events|
  {
    hide Put, Get, IsClear, OneAt, Number;
    if events != [] {
      var e := events[0];
      StepKeepsViews(s, e);
      OneIsAtMostOne(place, s.queue);
      match e {
        case PutEvent(input) =>
          assert forall m :: m in Messages(input) ==> m in History(events);
          PutKeepsOne(place, s.queue, input);
        case GetEvent => if s.queue != [] { GetKeepsOne(place, s.queue, s.views); }
        case _ =>
      }
      OneIsAtMostOne(place, Step(s, e).queue);
      assert forall m :: m in History(events[1..]) ==> m in History(events);
      OneTileAPlace(Step(s, e), events[1..], place);
    }
  }
}
