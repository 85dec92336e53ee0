/**
 What can wait in the queue for ever: text that is merged again and again, tiles with nothing but plain
 tiles behind them, and previews that are moved to the end again and again; and exactly when a tile that
 get considers is sure to come out.
*/
module QueueDelays {

  import opened Sequences
  import opened Wrappers
  import opened TileDescs
  import opened QueueSpec
  import opened QueueRuns
  import opened QueueFairness
  import opened QueueWaiting

  // ----- what can wait for ever -------------------------------------------------------------

  /** The round `n` times over. */
  function Rounds(round: seq<Event>, n: nat): seq<Event> {
    if n == 0 then [] else round + Rounds(round, n - 1)
  }

  function Repeat<T>(s: seq<T>, n: nat): seq<T> {
    if n == 0 then [] else s + Repeat(s, n - 1)
  }

  lemma {:induction false} OneRoundMore(round: seq<Event>, n: nat)
    ensures Rounds(round, n) == if n == 0 then [] else round + Rounds(round, n - 1)
  {
  }

  lemma {:induction false} RepeatThen<T>(s: seq<T>, t: seq<T>, n: nat)
    ensures s + Repeat(t, n) == if n == 0 then s else (s + t) + Repeat(t, n - 1)
  {
    if n > 0 {
      assert s + (t + Repeat(t, n - 1)) == (s + t) + Repeat(t, n - 1);
    }
  }

  lemma {:induction false} ValidRounds(round: seq<Event>, n: nat)
    requires ValidEvents(round)
    ensures ValidEvents(Rounds(round, n))
  {
    if n > 0 {
      ValidRounds(round, n - 1);
    }
  }

  lemma {:induction false} RunKeepsViews(s: QState, events: seq<Event>)
    requires s.views.Valid() && ValidEvents(events)
    ensures Run(s, events).views.Valid()
    decreases |events|
  {
    hide Step;
    if events != [] {
      StepKeepsViews(s, events[0]);
      RunKeepsViews(Step(s, events[0]), events[1..]);
    }
  }

  lemma {:induction false} RunInTurn(s: QState, a: seq<Event>, b: seq<Event>)
    requires s.views.Valid() && ValidEvents(a) && ValidEvents(b)
    ensures ValidEvents(a + b) && Run(s, a).views.Valid()
    ensures Run(s, a + b) == Run(Run(s, a), b)
    decreases |a|
  {
    hide Step;
    RunKeepsViews(s, a);
    if a == [] {
      assert a + b == b;
    } else {
      StepKeepsViews(s, a[0]);
      RunInTurn(Step(s, a[0]), a[1..], b);
      assert (a + b)[1..] == a[1..] + b;
    }
  }

  function Text(client: string, window: string, text: string): Message {
    TextInput(client, Some(window), Some(text))
  }

  function TextRound(o: Message, t: Message): seq<Event> {
    [PutEvent(One(o)), PutEvent(One(t)), GetEvent]
  }

  /** A command and more text come in, and the command in front of the text goes out: the text is
      queued behind the new command. */
  lemma {:induction false} TextRoundMerges(s: QState, o: Message, client: string, window: string, text: string,
                                           more: string)
    requires s.views.Valid() && o.Other? && s.queue == [o, Text(client, window, text)]
    ensures ValidEvents(TextRound(o, Text(client, window, more)))
    ensures Run(s, TextRound(o, Text(client, window, more))) ==
            QState([o, Text(client, window, text + more)], s.views, s.responses + [Whole(o)])
  {
    hide Put, Get;
    var t, m, merged := Text(client, window, text), Text(client, window, more), Text(client, window, text + more);
    TextRoundPuts(o, client, window, text, more);
    var s1, s2 := s.(queue := [o, t, o]), s.(queue := [o, o, merged]);
    assert Get(s2.queue, s.views) == (Whole(o), [o, merged]) by { GetWhole(s2.queue, s.views); }
    var s3 := QState([o, merged], s.views, s.responses + [Whole(o)]);
    var events := TextRound(o, m);
    assert events[1..][1..] == [GetEvent] && events[1..][1..][1..] == [];
    assert Run(s2, [GetEvent]) == s3;
    assert Run(s1, events[1..]) == s3;
  }

  lemma {:induction false} GetWhole(q: seq<Message>, views: Views)
    requires q != [] && views.Closed() && !q[0].Tile?
    ensures Get(q, views) == (Whole(q[0]), q[1..])
  {
  }

  lemma {:induction false} TextRoundPuts(o: Message, client: string, window: string, text: string, more: string)
    requires o.Other?
    ensures var (t, m, merged) := (Text(client, window, text), Text(client, window, more),
                                  Text(client, window, text + more));
            && Put([o, t], One(o)) == [o, t, o]
            && Put([o, t, o], One(m)) == [o, o, merged]
  {
    var q := [o, Text(client, window, text), o];
    assert FindTextInput(q, client, window, 2) == Some(1);
    assert FindTextInput(q, client, window, 3) == Some(1);
    assert RemoveAt(q, 1) == [o, o];
  }

  /** Text that is always merged with new text never comes out, however often get is called: after any
      number of rounds only commands were given out and all the text is still queued. */
  lemma {:induction false} TextCanWaitForEver(s: QState, o: Message, client: string, window: string, text: string,
                                              more: string, n: nat)
    requires s.views.Valid() && o.Other? && s.queue == [o, Text(client, window, text)]
    ensures var events := Rounds(TextRound(o, Text(client, window, more)), n);
            && ValidEvents(events)
            && Run(s, events) == QState([o, Text(client, window, text + Repeat(more, n))], s.views,
                                        s.responses + Repeat([Whole(o)], n))
    decreases n
  {
    hide *;
    var round := TextRound(o, Text(client, window, more));
    TextRoundMerges(s, o, client, window, text, more);
    ValidRounds(round, n);
    OneRoundMore(round, n);
    RepeatThen(text, more, n);
    RepeatThen(s.responses, [Whole(o)], n);
    if n == 0 {
      NoEvents(s);
    } else {
      ValidRounds(round, n - 1);
      RunInTurn(s, round, Rounds(round, n - 1));
      TextCanWaitForEver(Run(s, round), o, client, window, text + more, more, n - 1);
    }
  }

  lemma {:induction false} NoEvents(s: QState)
    requires s.views.Valid()
    ensures ValidEvents([]) && Run(s, []) == s
  {
  }

  /** The first tile is preferred to the second, is no other version of it and cannot be combined with
      it. */
  predicate Overshadows(views: Views, high: Message, low: Message)
    requires views.Closed()
  {
    && IsPlainTile(high) && IsPlainTile(low)
    && Priority(views, high.desc) > Priority(views, low.desc)
    && !IsTileDuplicate(high.raw, low) && !CanCombine(high.desc, low.desc)
  }

  ghost predicate OvershadowsAll(views: Views, high: Message, q: seq<Message>)
    requires views.Closed()
  {
    IsPlainTile(high) && forall m :: m in q ==> Overshadows(views, high, m)
  }

  function TileRound(high: Message): seq<Event> {
    [PutEvent(One(high)), GetEvent]
  }

  function GivenTile(high: Message): seq<Response> {
    if high.Tile? then [Tiles([high.desc])] else []
  }

  /** A round puts the tile at the end, from where it is given out: all others stay where they are. */
  lemma {:induction false} TileRoundKeeps(s: QState, high: Message)
    requires s.views.Valid() && OvershadowsAll(s.views, high, s.queue)
    ensures ValidEvents(TileRound(high))
    ensures Run(s, TileRound(high)) == s.(responses := s.responses + GivenTile(high))
  {
    hide Put, Get, Overshadows;
    HighIsAppended(s.queue, high, s.views);
    HighIsGiven(s.queue, high, s.views);
    var s1, s2 := s.(queue := s.queue + [high]), s.(responses := s.responses + [Tiles([high.desc])]);
    var events := TileRound(high);
    assert events[1..] == [GetEvent] && events[1..][1..] == [];
    assert Run(s1, [GetEvent]) == s2;
  }

  lemma {:induction false} HighIsAppended(q: seq<Message>, high: Message, views: Views)
    requires views.Closed() && OvershadowsAll(views, high, q)
    ensures Put(q, One(high)) == q + [high]
    ensures FindFirst(q, x => IsTileDuplicate(high.raw, x)) == |q|
  {
    hide IsTileDuplicate, Priority, CanCombine;
    forall i | 0 <= i < |q| ensures !IsTileDuplicate(high.raw, q[i]) {
      assert q[i] in q;
    }
  }

  lemma {:induction false} HighIsBest(q: seq<Message>, high: Message, views: Views)
    requires views.Closed() && OvershadowsAll(views, high, q)
    ensures LeadingTiles(q + [high]) == |q| + 1
    ensures Best(q + [high], views, |q| + 1) == |q|
  {
    hide IsTileDuplicate, Priority, CanCombine, Best, FindFirst;
    var all := q + [high];
    forall i | 0 <= i <= |q| ensures IsPlainTile(all[i]) {
      assert i < |q| ==> q[i] in q;
    }
    assert LeadingTiles(all) == |q| + 1;
    forall i | 0 <= i < |q| ensures Priority(views, all[i].desc) < Priority(views, high.desc) {
      assert q[i] in q;
    }
    BestIsTheEarliestOfHighestPriority(all, views, |q| + 1, |q|);
  }

  lemma {:induction false} NothingCombined(q: seq<Message>, first: TileDesc)
    requires forall m :: m in q && IsPlainTile(m) ==> !CanCombine(first, m.desc)
    ensures Combined(q, first) == [] && NotCombined(q, first) == q
    ensures forall i :: 0 <= i <= |q| ==> KeptBefore(q, first, i) == i
  {
    hide CanCombine;
    if q != [] {
      assert q[0] in q;
      NothingCombined(q[1..], first);
      assert q == [q[0]] + q[1..];
    }
  }

  lemma {:induction false} HighIsGiven(q: seq<Message>, high: Message, views: Views)
    requires views.Closed() && OvershadowsAll(views, high, q)
    ensures Get(q + [high], views) == (Tiles([high.desc]), q)
    ensures forall i :: 0 <= i < |q| ==> FollowGet(q + [high], views, i) == Some(i)
  {
    hide IsTileDuplicate, Priority, CanCombine, Best, FindFirst, Combined, NotCombined, KeptBefore, LeadingTiles,
         LeadingPreviews;
    var all := q + [high];
    HighIsBest(q, high, views);
    assert RemoveAt(all, |q|) == q;
    assert IsPlainTile(all[0]) by { assert q != [] ==> q[0] in q; }
    NothingCombined(q, high.desc);
    assert [high.desc] + [] == [high.desc];
  }

  /** Tiles never come out while a tile that is preferred to all of them comes in before every get. */
  lemma {:induction false} TileCanWaitForEver(s: QState, high: Message, n: nat)
    requires s.views.Valid() && OvershadowsAll(s.views, high, s.queue)
    ensures ValidEvents(Rounds(TileRound(high), n))
    ensures Run(s, Rounds(TileRound(high), n)) == s.(responses := s.responses + Repeat(GivenTile(high), n))
    decreases n
  {
    hide *;
    var round := TileRound(high);
    TileRoundKeeps(s, high);
    ValidRounds(round, n);
    OneRoundMore(round, n);
    RepeatThen(s.responses, GivenTile(high), n);
    if n == 0 {
      NoEvents(s);
    } else {
      ValidRounds(round, n - 1);
      RunInTurn(s, round, Rounds(round, n - 1));
      TileCanWaitForEver(Run(s, round), high, n - 1);
    }
  }

  // ----- tiles as they are ------------------------------------------------------------------

  predicate OccursAt(s: string, pattern: string, k: nat) {
    k + |pattern| <= |s| && s[k..k + |pattern|] == pattern
  }

  lemma {:induction false} FoundAt(s: string, pattern: string, k: nat)
    requires OccursAt(s, pattern, k) && forall j :: 0 <= j < k ==> !OccursAt(s, pattern, j)
    ensures Find(s, pattern) == Some(k)
  {
    if k > 0 {
      assert !OccursAt(s, pattern, 0);
      var t := s[1..];
      assert t[k - 1..k - 1 + |pattern|] == s[k..k + |pattern|];
      forall j | 0 <= j < k - 1 ensures !OccursAt(t, pattern, j) {
        assert !OccursAt(s, pattern, j + 1);
        assert j + |pattern| <= |t| ==> t[j..j + |pattern|] == s[j + 1..j + 1 + |pattern|];
      }
      FoundAt(t, pattern, k - 1);
    }
  }

  lemma {:induction false} OccursWithStart(s: string, pattern: string, k: nat)
    requires |pattern| >= 2
    ensures OccursAt(s, pattern, k) ==> s[k] == pattern[0] && s[k + 1] == pattern[1]
  {
    if OccursAt(s, pattern, k) {
      assert s[k..k + |pattern|][0] == s[k] && s[k..k + |pattern|][1] == s[k + 1];
    }
  }

  /** The text of a tile message as TileDesc::serialize writes it. */
  function Decimal(n: nat): (s: string)
    ensures s != ""
  {
    if n < 10 then ["0123456789"[n]] else Decimal(n / 10) + ["0123456789"[n % 10]]
  }

  function Field(name: string, n: nat): string {
    " " + name + "=" + Decimal(n)
  }

  function Geometry(d: TileDesc): string {
    Field("width", d.width) + Field("height", d.height) + Field("tileposx", d.tilePosX)
  }

  function Start(d: TileDesc): string {
    "tile" + Field("nviewid", d.normalizedViewId)
  }

  /** What is asked for, in front of the version. */
  function Key(d: TileDesc): string {
    Start(d) + Field("part", d.part) + Geometry(d) + Field("tileposy", d.tilePosY) + Field("tilewidth", d.tileWidth)
    + Field("tileheight", d.tileHeight) + Field("oldwid", d.oldWireId) + Field("wid", d.wireId)
  }

  /** The version, and what is written behind it. */
  function Rest(d: TileDesc): string {
    (if d.ver < 0 then "-" + Decimal(-d.ver) else Decimal(d.ver))
    + (if d.id >= 0 then Field("id", d.id) else "")
    + (if d.imgSize > 0 then Field("imgsize", d.imgSize) else "")
    + (if d.broadcast then " broadcast=yes" else "")
  }

  /** A tile with an id is a preview. */
  function TileMessage(d: TileDesc): Message {
    Tile(Versioned(Key(d), Rest(d)), d, d.id >= 0)
  }

  function Versioned(key: string, rest: string): string {
    key + " ver=" + rest
  }

  predicate NoVersion(key: string) {
    forall j :: 0 <= j < |key| && key[j] == ' ' ==> j + 1 < |key| && key[j + 1] != 'v'
  }

  lemma {:induction false} VersionIsFound(key: string, rest: string)
    requires NoVersion(key)
    ensures KeyLength(Versioned(key, rest)) == |key| && Versioned(key, rest)[..|key|] == key
  {
    hide Find;
    var raw := Versioned(key, rest);
    forall j | 0 <= j < |key| ensures !OccursAt(raw, " ver", j) {
      OccursWithStart(raw, " ver", j);
    }
    assert raw[|key|..|key| + 4] == " ver";
    FoundAt(raw, " ver", |key|);
  }

  lemma {:induction false} DigitsAreNoSpaces(n: nat)
    ensures forall j :: 0 <= j < |Decimal(n)| ==> Decimal(n)[j] != ' '
  {
    if n >= 10 {
      DigitsAreNoSpaces(n / 10);
    }
  }

  predicate IsName(name: string) {
    name != "" && name[0] != 'v' && ' ' !in name
  }

  lemma {:induction false} NoVersionField(s: string, name: string, n: nat)
    requires NoVersion(s) && IsName(name)
    ensures NoVersion(s + Field(name, n))
  {
    hide Decimal;
    DigitsAreNoSpaces(n);
    var f := Field(name, n);
    assert f[0] == ' ' && f[1] == name[0];
    FieldHasOneSpace(name, n);
  }

  lemma {:induction false} FieldHasOneSpace(name: string, n: nat)
    requires IsName(name)
    ensures forall j :: 0 < j < |Field(name, n)| ==> Field(name, n)[j] != ' '
  {
    hide Decimal;
    DigitsAreNoSpaces(n);
  }

  lemma {:induction false} Names()
    ensures IsName("nviewid") && IsName("part") && IsName("width") && IsName("height") && IsName("tileposx")
    ensures IsName("tileposy") && IsName("tilewidth") && IsName("tileheight") && IsName("oldwid") && IsName("wid")
    ensures NoVersion("tile")
  {
  }

  lemma {:induction false} NoVersionInKey(d: TileDesc)
    ensures NoVersion(Key(d))
  {
    hide Field, NoVersion, IsName;
    Names();
    NoVersionField("tile", "nviewid", d.normalizedViewId);
    var s := Start(d);
    NoVersionField(s, "part", d.part);
    var s1 := s + Field("part", d.part);
    NoVersionField(s1, "width", d.width);
    NoVersionField(s1 + Field("width", d.width), "height", d.height);
    var s2 := s1 + Field("width", d.width) + Field("height", d.height);
    NoVersionField(s2, "tileposx", d.tilePosX);
    assert s1 + Geometry(d) == s2 + Field("tileposx", d.tilePosX);
    var s3 := s1 + Geometry(d);
    NoVersionField(s3, "tileposy", d.tilePosY);
    NoVersionField(s3 + Field("tileposy", d.tilePosY), "tilewidth", d.tileWidth);
    var s4 := s3 + Field("tileposy", d.tilePosY) + Field("tilewidth", d.tileWidth);
    NoVersionField(s4, "tileheight", d.tileHeight);
    NoVersionField(s4 + Field("tileheight", d.tileHeight), "oldwid", d.oldWireId);
    NoVersionField(s4 + Field("tileheight", d.tileHeight) + Field("oldwid", d.oldWireId), "wid", d.wireId);
  }

  /** Texts that differ somewhere in what is asked for are no versions of each other. */
  lemma {:induction false} OtherKey(d: TileDesc, other: TileDesc, i: nat)
    requires i < |Key(d)| && i < |Key(other)| && Key(d)[i] != Key(other)[i]
    ensures Unlike(TileMessage(d), TileMessage(other))
  {
    hide Find, Key, Rest;
    NoVersionInKey(d);
    NoVersionInKey(other);
    VersionIsFound(Key(d), Rest(d));
    VersionIsFound(Key(other), Rest(other));
    var (m, n) := (TileMessage(d), TileMessage(other));
    assert |n.raw| > |Key(d)| ==> n.raw[..|Key(d)|][i] == n.raw[i];
    assert |m.raw| > |Key(other)| ==> m.raw[..|Key(other)|][i] == m.raw[i];
  }

  /** Tiles of different parts, or of different rows of the same part and column. */
  lemma {:induction false} OtherPart(d: TileDesc, other: TileDesc)
    requires d.normalizedViewId == other.normalizedViewId && Decimal(d.part)[0] != Decimal(other.part)[0]
    ensures Unlike(TileMessage(d), TileMessage(other))
  {
    hide *;
    KeyStarts(d);
    KeyStarts(other);
    SameStart(d, other);
    OtherField(d, other, Start(d), "part", d.part, other.part);
  }

  lemma {:induction false} OtherRow(d: TileDesc, other: TileDesc)
    requires d == other.(tilePosY := d.tilePosY) && Decimal(d.tilePosY)[0] != Decimal(other.tilePosY)[0]
    ensures Unlike(TileMessage(d), TileMessage(other))
  {
    hide *;
    KeyStarts(d);
    KeyStarts(other);
    SameStart(d, other);
    OtherField(d, other, Start(d) + Field("part", d.part) + Geometry(d), "tileposy", d.tilePosY, other.tilePosY);
  }

  lemma {:induction false} SameStart(d: TileDesc, other: TileDesc)
    ensures d.normalizedViewId == other.normalizedViewId ==> Start(d) == Start(other)
    ensures d == other.(tilePosY := d.tilePosY) ==> Start(d) == Start(other) && Geometry(d) == Geometry(other)
  {
  }

  lemma {:induction false} KeyStarts(d: TileDesc)
    ensures Start(d) + Field("part", d.part) <= Key(d)
    ensures Start(d) + Field("part", d.part) + Geometry(d) + Field("tileposy", d.tilePosY) <= Key(d)
  {
    hide Start, Field, Geometry;
    var s := Start(d) + Field("part", d.part);
    var s1 := s + Geometry(d) + Field("tileposy", d.tilePosY);
    var s2 := s1 + Field("tilewidth", d.tileWidth) + Field("tileheight", d.tileHeight);
    assert Key(d) == s2 + Field("oldwid", d.oldWireId) + Field("wid", d.wireId);
    assert s <= s1 && s1 <= s2 <= Key(d);
  }

  lemma {:induction false} OtherField(d: TileDesc, other: TileDesc, s: string, name: string, n: nat, o: nat)
    requires s + Field(name, n) <= Key(d) && s + Field(name, o) <= Key(other) && Decimal(n)[0] != Decimal(o)[0]
    ensures Unlike(TileMessage(d), TileMessage(other))
  {
    hide Decimal, Field, Key;
    var i := |s| + |name| + 2;
    FieldStart(s, name, n);
    FieldStart(s, name, o);
    PrefixAt(s + Field(name, n), Key(d), i);
    PrefixAt(s + Field(name, o), Key(other), i);
    OtherKey(d, other, i);
  }

  /** Where the digits of a field start. */
  lemma {:induction false} FieldStart(s: string, name: string, n: nat)
    ensures var i := |s| + |name| + 2; i < |s + Field(name, n)| && (s + Field(name, n))[i] == Decimal(n)[0]
  {
    hide Decimal;
  }

  lemma {:induction false} PrefixAt(p: string, s: string, i: nat)
    requires p <= s && i < |p|
    ensures i < |s| && s[i] == p[i]
  {
  }

  function TileAt(y: nat): Message {
    TileMessage(TileDesc(0, 0, 256, 256, 0, y, 3840, 3840, 1, 0, -1, false, 0, 0))
  }

  /** A cursor at the top of the document: the tile there keeps one ten rows below waiting. */
  lemma {:induction false} TileBelowTheCursor()
    ensures var views := Views([7], map[7 := CursorPosition(0, Rect(0, 0, 10, 240))]);
            views.Valid() && Overshadows(views, TileAt(0), TileAt(38400))
  {
    hide IsTileDuplicate, Priority, Versioned, CanCombine, IntersectsWithRect, Key, Rest;
    var views := Views([7], map[7 := CursorPosition(0, Rect(0, 0, 10, 240))]);
    var high, low := TileAt(0).desc, TileAt(38400).desc;
    assert views.order[0] == 7;
    OneView(views, high);
    OneView(views, low);
    TenRowsBelow(high, low);
    RowDigits();
    OtherRow(high, low);
  }

  lemma {:induction false} RowDigits()
    ensures Decimal(0)[0] == '0' && Decimal(38400)[0] == '3'
  {
    assert Decimal(3) == "3";
    assert Decimal(38) == Decimal(3) + ["0123456789"[8]];
    assert Decimal(384) == Decimal(38) + ["0123456789"[4]];
    assert Decimal(3840) == Decimal(384) + ["0123456789"[0]];
  }

  lemma {:induction false} TenRowsBelow(high: TileDesc, low: TileDesc)
    requires high == TileAt(0).desc && low == TileAt(38400).desc
    ensures IntersectsWithRect(high, Rect(0, 0, 10, 240)) && !IntersectsWithRect(low, Rect(0, 0, 10, 240))
    ensures !CanCombine(high, low)
  {
  }

  lemma {:induction false} OneView(views: Views, desc: TileDesc)
    requires views.Closed() && |views.order| == 1
    ensures Priority(views, desc) == if IntersectsWithRect(desc, views.cursors[views.order[0]].rect) then 0 else -1
  {
    hide IntersectsWithRect;
  }

  function RenewRound(high: Message, c: Message): seq<Event> {
    [PutEvent(One(high)), PutEvent(One(c)), GetEvent]
  }

  lemma {:induction false} RenewSteps(views: Views, high: Message, low: Message, c: Message)
    requires views.Closed() && Overshadows(views, high, low) && KeyOf(c).Some?
    ensures Put([low, c], One(high)) == [low, c, high]
    ensures Put([low, c, high], One(c)) == [low, high, c]
    ensures Get([low, high, c], views) == (Tiles([high.desc]), [low, c])
  {
    hide IsTileDuplicate, Priority, CanCombine, Find, KeptBefore;
    assert !IsTileDuplicate(high.raw, c) by { OnlyTilesAreSuperseded(high.raw, c); }
    assert FindFirst([low, c], x => IsTileDuplicate(high.raw, x)) == 2;
    assert FindFirst([low, c, high], x => KeyOf(x) == KeyOf(c)) == 1;
    var q := [low, high, c];
    assert IsPlainTile(q[0]) && IsPlainTile(q[1]) && !IsPlainTile(q[2]);
    assert LeadingTiles(q) == 2;
    assert Best(q, views, 1) == 0 && Best(q, views, 2) == 1;
    assert RemoveAt(q, 1) == [low, c];
    NothingCombined([low, c], high.desc);
    assert [high.desc] + [] == [high.desc];
  }

  lemma {:induction false} OnlyTilesAreSuperseded(raw: string, m: Message)
    ensures IsTileDuplicate(raw, m) ==> m.Tile?
  {
  }

  lemma {:induction false} RenewRoundKeeps(s: QState, high: Message, low: Message, c: Message)
    requires s.views.Valid() && Overshadows(s.views, high, low) && KeyOf(c).Some? && s.queue == [low, c]
    ensures ValidEvents(RenewRound(high, c))
    ensures Run(s, RenewRound(high, c)) == s.(responses := s.responses + GivenTile(high))
  {
    hide Put, Get, Overshadows, KeyOf;
    RenewSteps(s.views, high, low, c);
    assert IsPlainTile(high) by { hide *; HighIsPlain(s.views, high, low); }
    var s1, s2 := s.(queue := [low, c, high]), s.(queue := [low, high, c]);
    var s3 := s.(responses := s.responses + [Tiles([high.desc])]);
    var events := RenewRound(high, c);
    assert events[1..][1..] == [GetEvent] && events[1..][1..][1..] == [];
    assert Run(s2, [GetEvent]) == s3;
    assert Run(s1, events[1..]) == s3;
  }

  lemma {:induction false} HighIsPlain(views: Views, high: Message, low: Message)
    requires views.Closed() && Overshadows(views, high, low)
    ensures IsPlainTile(high)
  {
  }

  /** A callback behind the tile does not help if it is superseded by a new one before every get. */
  lemma {:induction false} RenewedCallbackIsNoStop(s: QState, high: Message, low: Message, c: Message, n: nat)
    requires s.views.Valid() && Overshadows(s.views, high, low) && KeyOf(c).Some? && s.queue == [low, c]
    ensures ValidEvents(Rounds(RenewRound(high, c), n))
    ensures Run(s, Rounds(RenewRound(high, c), n)) == s.(responses := s.responses + Repeat(GivenTile(high), n))
    decreases n
  {
    hide *;
    var round := RenewRound(high, c);
    RenewRoundKeeps(s, high, low, c);
    ValidRounds(round, n);
    OneRoundMore(round, n);
    RepeatThen(s.responses, GivenTile(high), n);
    if n == 0 {
      NoEvents(s);
    } else {
      ValidRounds(round, n - 1);
      RunInTurn(s, round, Rounds(round, n - 1));
      RenewedCallbackIsNoStop(Run(s, round), high, low, c, n - 1);
    }
  }

  // ----- previews ---------------------------------------------------------------------------

  /** No version of each other. */
  predicate Unlike(m: Message, n: Message) {
    m.Tile? && n.Tile? && !IsTileDuplicate(m.raw, n) && !IsTileDuplicate(n.raw, m)
  }

  /** A plain tile and three previews that have nothing to do with each other. */
  predicate FourTiles(t: Message, a: Message, b: Message, p: Message) {
    && IsPlainTile(t) && IsPreview(a) && IsPreview(b) && IsPreview(p)
    && Unlike(t, a) && Unlike(t, b) && Unlike(t, p) && Unlike(a, b) && Unlike(a, p) && Unlike(b, p)
  }

  function PreviewRound(t: Message, b: Message): seq<Event> {
    [GetEvent, PutEvent(One(t)), PutEvent(One(b)), GetEvent]
  }

  function GivenInTurn(t: Message, a: Message): seq<Response> {
    if t.Tile? then [Tiles([t.desc]), Whole(a)] else []
  }

  lemma {:induction false} FrontTileGoes(views: Views, t: Message, a: Message, p: Message)
    requires views.Closed() && IsPlainTile(t) && IsPreview(a) && IsPreview(p)
    ensures Get([t, a, p], views) == (Tiles([t.desc]), [a, p])
  {
    hide Priority, CanCombine, KeptBefore;
    var q := [t, a, p];
    assert IsPlainTile(q[0]) && !IsPlainTile(q[1]);
    assert LeadingTiles(q) == 1 && Best(q, views, 1) == 0;
    assert RemoveAt(q, 0) == [a, p];
    NothingCombined([a, p], t.desc);
    assert [t.desc] + [] == [t.desc];
  }

  lemma {:induction false} FrontPreviewGoes(views: Views, t: Message, a: Message, b: Message, p: Message)
    requires views.Closed() && IsPlainTile(t) && IsPreview(a) && IsPreview(p)
    ensures Get([a, p, t, b], views) == (Whole(a), [t, b, p])
  {
    hide Best, Combined, NotCombined;
    var rest := [p, t, b];
    assert [a, p, t, b][1..] == rest && IsPreview(rest[0]) && !IsPreview(rest[1]);
    assert LeadingPreviews(rest) == 1;
    assert rest[1..] + rest[..1] == [t, b, p];
  }

  lemma {:induction false} PutBehind(q: seq<Message>, m: Message)
    requires m.Tile? && forall i :: 0 <= i < |q| ==> Unlike(m, q[i])
    ensures Put(q, One(m)) == q + [m]
  {
    hide IsTileDuplicate;
    assert FindFirst(q, x => IsTileDuplicate(m.raw, x)) == |q|;
  }

  /** The preview `p` is moved behind the next preview. */
  lemma {:induction false} PreviewRoundRotates(s: QState, t: Message, a: Message, b: Message, p: Message)
    requires s.views.Valid() && FourTiles(t, a, b, p) && s.queue == [t, a, p]
    ensures ValidEvents(PreviewRound(t, b))
    ensures Run(s, PreviewRound(t, b)) == QState([t, b, p], s.views, s.responses + GivenInTurn(t, a))
  {
    hide Put, Get, Unlike;
    FrontTileGoes(s.views, t, a, p);
    PutBehind([a, p], t);
    assert Unlike(b, a) && Unlike(b, p) && Unlike(b, t) by { FourInOtherOrder(t, a, b, p); }
    PutBehind([a, p, t], b);
    FrontPreviewGoes(s.views, t, a, b, p);
    var r := s.responses + [Tiles([t.desc])];
    var s1, s2, s3 := QState([a, p], s.views, r), QState([a, p, t], s.views, r), QState([a, p, t, b], s.views, r);
    var s4 := QState([t, b, p], s.views, r + [Whole(a)]);
    assert [a, p] + [t] == [a, p, t] && [a, p, t] + [b] == [a, p, t, b];
    assert r + [Whole(a)] == s.responses + GivenInTurn(t, a);
    var events := PreviewRound(t, b);
    assert events[1..][1..][1..] == [GetEvent] && events[1..][1..][1..][1..] == [];
    assert Run(s3, [GetEvent]) == s4;
    assert Run(s2, events[1..][1..]) == s4;
    assert Run(s1, events[1..]) == s4;
  }

  /** A preview never comes out while another preview is in front of it whenever a preview is given out:
      it is moved to the end each time, even if there are other messages in the queue. */
  lemma {:induction false} PreviewCanWaitForEver(s: QState, t: Message, a: Message, b: Message, p: Message, n: nat)
    requires s.views.Valid() && FourTiles(t, a, b, p) && s.queue == [t, a, p]
    ensures var events := Rounds(PreviewRound(t, b) + PreviewRound(t, a), n);
            && ValidEvents(events)
            && Run(s, events) == s.(responses := s.responses + Repeat(GivenInTurn(t, a) + GivenInTurn(t, b), n))
    decreases n
  {
    hide *;
    var round, given := PreviewRound(t, b) + PreviewRound(t, a), GivenInTurn(t, a) + GivenInTurn(t, b);
    TwoPreviewRounds(s, t, a, b, p);
    ValidRounds(round, n);
    OneRoundMore(round, n);
    RepeatThen(s.responses, given, n);
    if n == 0 {
      NoEvents(s);
    } else {
      ValidRounds(round, n - 1);
      RunInTurn(s, round, Rounds(round, n - 1));
      PreviewCanWaitForEver(Run(s, round), t, a, b, p, n - 1);
    }
  }

  lemma {:induction false} TwoPreviewRounds(s: QState, t: Message, a: Message, b: Message, p: Message)
    requires s.views.Valid() && FourTiles(t, a, b, p) && s.queue == [t, a, p]
    ensures var events := PreviewRound(t, b) + PreviewRound(t, a);
            && ValidEvents(events)
            && Run(s, events) == s.(responses := s.responses + (GivenInTurn(t, a) + GivenInTurn(t, b)))
  {
    hide *;
    PreviewRoundRotates(s, t, a, b, p);
    var s' := Run(s, PreviewRound(t, b));
    assert FourTiles(t, b, a, p) by { FourInOtherOrder(t, a, b, p); }
    PreviewRoundRotates(s', t, b, a, p);
    RunInTurn(s, PreviewRound(t, b), PreviewRound(t, a));
    assert s.responses + GivenInTurn(t, a) + GivenInTurn(t, b) ==
           s.responses + (GivenInTurn(t, a) + GivenInTurn(t, b));
  }

  lemma {:induction false} FourInOtherOrder(t: Message, a: Message, b: Message, p: Message)
    requires FourTiles(t, a, b, p)
    ensures FourTiles(t, b, a, p) && Unlike(b, a) && Unlike(b, p) && Unlike(b, t)
  {
  }

  function PreviewOf(part: nat): Message {
    TileMessage(TileDesc(0, part, 180, 135, 0, 0, 15875, 11906, 1, 0, part, false, 0, 0))
  }

  /** A tile of the document and previews of three parts. */
  lemma {:induction false} ThreePreviews()
    ensures FourTiles(TileAt(0), PreviewOf(1), PreviewOf(2), PreviewOf(3))
  {
    hide Unlike, Versioned, Key, Rest;
    var t, a, b, p := TileAt(0).desc, PreviewOf(1).desc, PreviewOf(2).desc, PreviewOf(3).desc;
    assert Decimal(0) == "0" && Decimal(1) == "1" && Decimal(2) == "2" && Decimal(3) == "3";
    OtherPart(t, a);
    OtherPart(t, b);
    OtherPart(t, p);
    OtherPart(a, b);
    OtherPart(a, p);
    OtherPart(b, p);
  }

  // ----- when a tile is sure to come out ----------------------------------------------------

  /** The put neither merges nor supersedes a queued message. */
  ghost predicate TakesNothing(q: seq<Message>, input: Input)
    requires ValidInput(input)
  {
    forall p :: 0 <= p < |q| ==> Follow(q, input, p).Some?
  }

  /** No put of the run takes a queued message. */
  ghost predicate Sparing(s: QState, events: seq<Event>)
    requires s.views.Valid() && ValidEvents(events)
    decreases |events|
  {
    events == [] ||
    (StepKeepsViews(s, events[0]);
     && (events[0].PutEvent? ==> TakesNothing(s.queue, events[0].input))
     && Sparing(Step(s, events[0]), events[1..]))
  }

  lemma {:induction false} SparingTakesNone(s: QState, events: seq<Event>, p: nat)
    requires s.views.Valid() && ValidEvents(events) && p < |s.queue| && Sparing(s, events)
    ensures !Taken(s, events, p)
    decreases |events|
  {
    hide Step, Follow, FollowGet;
    if events != [] {
      StepKeepsViews(s, events[0]);
      FollowStepMeans(s, events[0], p);
      if FollowStep(s, events[0], p).Some? {
        SparingTakesNone(Step(s, events[0]), events[1..], FollowStep(s, events[0], p).value);
      }
    }
  }

  /** Whatever arrives and wherever cursors move: so many gets give out the message at index i, as long
      as no put takes a queued message. */
  ghost predicate SureWithin(s: QState, i: nat, gets: nat)
    requires s.views.Valid() && i < |s.queue|
  {
    forall events :: ValidEvents(events) && Sparing(s, events) && Gets(events) >= gets ==>
      FollowRun(s, events, i).None?
  }

  /** A tile that the search for the best tile reaches is sure to come out if and only if the search
      stops before the end of the queue: at a message that is no plain tile. */
  lemma {:induction false} SureExactly(s: QState, i: nat)
    requires s.views.Valid() && i < LeadingTiles(s.queue)
    ensures (exists gets :: SureWithin(s, i, gets)) <==> LeadingTiles(s.queue) < |s.queue|
    ensures LeadingTiles(s.queue) < |s.queue| ==> SureWithin(s, i, LeadingTiles(s.queue))
  {
    hide SureWithin, FindFirst;
    var p := LeadingTiles(s.queue);
    if p < |s.queue| {
      StopMakesSure(s, i);
    } else {
      forall gets: nat ensures !SureWithin(s, i, gets) {
        NeverSure(s, i, gets);
      }
    }
  }

  lemma {:induction false} StopMakesSure(s: QState, i: nat)
    requires s.views.Valid() && i < LeadingTiles(s.queue) < |s.queue|
    ensures SureWithin(s, i, LeadingTiles(s.queue))
  {
    hide FollowRun, Sparing, Taken, Run, FindFirst;
    var p := LeadingTiles(s.queue);
    forall events | ValidEvents(events) && Sparing(s, events) && Gets(events) >= p
      ensures FollowRun(s, events, i).None?
    {
      SparingTakesNone(s, events, p);
      TileComesOut(s, events, i, p);
    }
  }

  lemma {:induction false} NeverSure(s: QState, i: nat, gets: nat)
    requires s.views.Valid() && i < |s.queue| && forall m :: m in s.queue ==> IsPlainTile(m)
    ensures !SureWithin(s, i, gets)
  {
    hide FollowRun, Sparing, Step, Overshadows, Newcomer, CursorAt, UpdateCursor, Gets, Rounds;
    var high, cursor := Newcomer(s.queue), CursorAt(s.queue);
    NewcomerOvershadows(s.queue, s.views);
    var e, rounds := CursorEvent(0, cursor), Rounds(TileRound(high), gets);
    CursorStep(s, e);
    StepKeepsViews(s, e);
    RoundsPassBy(Step(s, e), high, i, gets);
    var events := [e] + rounds;
    assert events[0] == e && events[1..] == rounds;
    CursorThen(s, e, rounds, i);
  }

  lemma {:induction false} CursorStep(s: QState, e: Event)
    requires e.CursorEvent? && s.views.Valid()
    ensures Step(s, e) == s.(views := UpdateCursor(s.views, e.viewId, e.cursor))
  {
  }

  lemma {:induction false} CursorThen(s: QState, e: Event, rest: seq<Event>, i: nat)
    requires s.views.Valid() && e.CursorEvent? && ValidEvents(rest) && i < |s.queue| && Step(s, e).views.Valid()
    ensures ValidEvents([e] + rest) && Gets([e] + rest) == Gets(rest)
    ensures Sparing(s, [e] + rest) == Sparing(Step(s, e), rest)
    ensures FollowRun(s, [e] + rest, i) == FollowRun(Step(s, e), rest, i)
  {
    assert ([e] + rest)[1..] == rest;
  }

  /** However many rounds: no put takes a tile, and all stay where they are. */
  lemma {:induction false} RoundsPassBy(s: QState, high: Message, i: nat, n: nat)
    requires s.views.Valid() && OvershadowsAll(s.views, high, s.queue) && i < |s.queue|
    ensures var events := Rounds(TileRound(high), n);
            ValidEvents(events) && Gets(events) == n && Sparing(s, events) && FollowRun(s, events, i) == Some(i)
    decreases n
  {
    hide Overshadows, Put, Get, FindFirst, FollowGet;
    if n > 0 {
      var rest := Rounds(TileRound(high), n - 1);
      HighIsAppended(s.queue, high, s.views);
      HighIsGiven(s.queue, high, s.views);
      var s1 := s.(queue := s.queue + [high]);
      var s2 := s.(responses := s.responses + [Tiles([high.desc])]);
      RoundsPassBy(s2, high, i, n - 1);
      PutThenGet(s, s1, s2, high, rest, i);
    }
  }

  lemma {:induction false} PutThenGet(s: QState, s1: QState, s2: QState, high: Message, rest: seq<Event>, i: nat)
    requires s.views.Valid() && IsPlainTile(high) && i < |s.queue| && ValidEvents(rest)
    requires s1 == s.(queue := Put(s.queue, One(high))) && s2.views == s.views && s1.queue == s.queue + [high]
    requires s1.queue != [] && Step(s1, GetEvent) == s2 && s2.queue == s.queue
    requires FindFirst(s.queue, x => IsTileDuplicate(high.raw, x)) == |s.queue|
    requires FollowGet(s1.queue, s1.views, i) == Some(i) && Sparing(s2, rest)
    ensures var events := TileRound(high) + rest;
            && ValidEvents(events) && Gets(events) == Gets(rest) + 1
            && Sparing(s, events) && FollowRun(s, events, i) == FollowRun(s2, rest, i)
  {
    hide Put, Get, FindFirst, FollowGet;
    var put, events := PutEvent(One(high)), TileRound(high) + rest;
    assert events[1..] == [GetEvent] + rest && events[1..][1..] == rest;
    assert events[0] == put && events[1..][0] == GetEvent;
    forall p | 0 <= p < |s.queue| ensures FollowTiles(s.queue, [high], p) == Some(p) {
      PassedBy(s.queue, high, p);
    }
    assert Step(s, put) == s1;
    assert Sparing(s1, [GetEvent] + rest);
    assert FollowRun(s1, [GetEvent] + rest, i) == FollowRun(s2, rest, i);
  }

  lemma {:induction false} PassedBy(q: seq<Message>, high: Message, p: nat)
    requires high.Tile? && p < |q| && FindFirst(q, x => IsTileDuplicate(high.raw, x)) == |q|
    ensures FollowTiles(q, [high], p) == Some(p)
  {
    assert [high][1..] == [];
  }

  /** More than the part, the right edge and the length of the text of every tile. */
  function Beyond(q: seq<Message>): nat {
    if q == [] then 0
    else
      Beyond(q[1..]) + 1 +
      if q[0].Tile? then q[0].desc.part + q[0].desc.tilePosX + q[0].desc.tileWidth + |q[0].raw| else 0
  }

  lemma {:induction false} BeyondAll(q: seq<Message>, m: Message)
    requires m in q && m.Tile?
    ensures m.desc.part < Beyond(q) && m.desc.tilePosX + m.desc.tileWidth < Beyond(q) && |m.raw| < Beyond(q)
  {
    if m != q[0] {
      BeyondAll(q[1..], m);
    }
  }

  /** A tile that is nowhere near the queued ones, and a cursor on it. */
  function Newcomer(q: seq<Message>): Message {
    TileMessage(TileDesc(0, TenToThe(Beyond(q)), 256, 256, Beyond(q), 0, 3840, 3840, 1, 0, -1, false, 0, 0))
  }

  function TenToThe(n: nat): nat {
    if n == 0 then 1 else 10 * TenToThe(n - 1)
  }

  lemma {:induction false} OneDigit()
    ensures |Decimal(1)| == 1
  {
  }

  lemma {:induction false} OneDigitMore(m: nat)
    requires m > 0
    ensures |Decimal(10 * m)| == |Decimal(m)| + 1
  {
    assert 10 * m / 10 == m;
  }

  lemma {:induction false} TenToTheIsLong(n: nat)
    ensures TenToThe(n) > n && |Decimal(TenToThe(n))| == n + 1
  {
    hide Decimal;
    assert |Decimal(1)| == 1 by { OneDigit(); }
    if n > 0 {
      var m := TenToThe(n - 1);
      TenToTheIsLong(n - 1);
      OneDigitMore(m);
    }
  }

  function CursorAt(q: seq<Message>): CursorPosition {
    CursorPosition(0, Rect(Beyond(q), 0, 10, 240))
  }

  lemma {:induction false} NewcomerOvershadows(q: seq<Message>, views: Views)
    requires views.Valid() && forall m :: m in q ==> IsPlainTile(m)
    ensures var views' := UpdateCursor(views, 0, CursorAt(q));
            views'.Valid() && OvershadowsAll(views', Newcomer(q), q)
  {
    hide Beyond, Priority, IsTileDuplicate, Versioned;
    var views', high := UpdateCursor(views, 0, CursorAt(q)), Newcomer(q);
    TenToTheIsLong(Beyond(q));
    CursorsStayValid(views, 0, CursorAt(q));
    forall m | m in q ensures Overshadows(views', high, m) {
      BeyondAll(q, m);
      NewcomerComesFirst(q, views, m.desc);
      NewcomerSupersedesNone(q, m);
    }
  }

  lemma {:induction false} NewcomerComesFirst(q: seq<Message>, views: Views, low: TileDesc)
    requires views.Valid() && low.tilePosX + low.tileWidth < Beyond(q)
    requires UpdateCursor(views, 0, CursorAt(q)).Valid()
    ensures var views' := UpdateCursor(views, 0, CursorAt(q));
            Priority(views', Newcomer(q).desc) > Priority(views', low)
  {
    hide Beyond, WithoutView, Versioned, TenToThe;
    var views' := UpdateCursor(views, 0, CursorAt(q));
    var last := |views'.order| - 1;
    assert views'.order[last] == 0 && views'.cursors[0] == CursorAt(q);
    assert Priority(views', Newcomer(q).desc) == last;
    assert !IntersectsWithRect(low, views'.cursors[views'.order[last]].rect);
  }

  lemma {:induction false} NewcomerSupersedesNone(q: seq<Message>, m: Message)
    requires m.Tile? && |m.raw| < Beyond(q)
    ensures !IsTileDuplicate(Newcomer(q).raw, m)
  {
    hide Beyond, Find, Decimal;
    var d := Newcomer(q).desc;
    NoVersionInKey(d);
    TenToTheIsLong(Beyond(q));
    LongKey(d);
    VersionIsFound(Key(d), Rest(d));
  }

  lemma {:induction false} LongKey(d: TileDesc)
    ensures |Key(d)| >= |Decimal(d.part)|
  {
    hide Decimal;
  }
}
