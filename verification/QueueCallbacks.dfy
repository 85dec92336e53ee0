/**
 What deduplicating callbacks and merging invalidations keep over whole runs: the latest value of
 every key, at most one queued callback a key, and every invalidated point.
*/
module QueueCallbacks {

  import opened Sequences
  import opened Wrappers
  import opened TileDescs
  import opened QueueSpec
  import opened QueueRuns

  // ----- the latest values ------------------------------------------------------------------

  /** What a client keeps of the messages: the latest of every slot. */
  type Slot<!K> = Message -> Option<K>

  /** It keeps no tiles, texts and invalidations, and callbacks with the same key go to the same slot. */
  ghost predicate FollowsKeys<K(!new)>(slot: Slot<K>) {
    && HidesTiles(slot) && HidesText(slot)
    && (forall m: Message :: m.Callback? && m.body.Invalidate? ==> slot(m) == None)
    && (forall m, n :: KeyOf(m).Some? && KeyOf(m) == KeyOf(n) ==> slot(m) == slot(n))
  }

  /** A client that keeps the latest message of every slot. */
  function Latest<K>(slot: Slot<K>, seen: map<K, Message>, msgs: seq<Message>): map<K, Message>
    decreases |msgs|
  {
    if msgs == [] then seen else Latest(slot, See(slot, seen, msgs[0]), msgs[1..])
  }

  function See<K>(slot: Slot<K>, seen: map<K, Message>, m: Message): map<K, Message> {
    match slot(m)
    case None => seen
    case Some(k) => seen[k := m]
  }

  lemma {:induction false} LatestAppend<K>(slot: Slot<K>, seen: map<K, Message>, a: seq<Message>, b: seq<Message>)
    ensures Latest(slot, seen, a + b) == Latest(slot, Latest(slot, seen, a), b)
    decreases |a|
  {
    if a == [] {
      assert a + b == b;
    } else {
      assert (a + b)[1..] == a[1..] + b;
      LatestAppend(slot, See(slot, seen, a[0]), a[1..], b);
    }
  }

  lemma {:induction false} LatestOne<K>(slot: Slot<K>, seen: map<K, Message>, m: Message)
    ensures Latest(slot, seen, [m]) == See(slot, seen, m)
  {
    assert [m][1..] == [];
  }

  lemma {:induction false} LatestNone<K>(slot: Slot<K>, seen: map<K, Message>, msgs: seq<Message>)
    requires forall i :: 0 <= i < |msgs| ==> slot(msgs[i]) == None
    ensures Latest(slot, seen, msgs) == seen
    decreases |msgs|
  {
    if msgs != [] {
      LatestNone(slot, seen, msgs[1..]);
    }
  }

  lemma {:induction false} LatestRemoveOther<K>(slot: Slot<K>, seen: map<K, Message>, q: seq<Message>, i: nat)
    requires i < |q| ==> slot(q[i]) == None
    ensures Latest(slot, seen, RemoveAt(q, i)) == Latest(slot, seen, q)
  {
    if i < |q| {
      var front, back := q[..i], q[i + 1..];
      assert q == front + ([q[i]] + back);
      LatestAppend(slot, seen, front, [q[i]] + back);
      LatestAppend(slot, Latest(slot, seen, front), [q[i]], back);
      LatestOne(slot, Latest(slot, seen, front), q[i]);
      LatestAppend(slot, seen, front, back);
    }
  }

  lemma {:induction false} SeeThenOverride<K>(slot: Slot<K>, s: map<K, Message>, x: Message, k: K, m: Message)
    ensures See(slot, s, x)[k := m] ==
            if slot(x).None? || slot(x).value == k then s[k := m] else s[k := m][slot(x).value := x]
  {
  }

  /** What a client saw earlier under the key of `m` does not matter once it sees `m`. */
  lemma {:induction false} LatestOverrides<K>(slot: Slot<K>, s1: map<K, Message>, s2: map<K, Message>, k: K,
                                           back: seq<Message>, m: Message)
    requires slot(m) == Some(k) && s1[k := m] == s2[k := m]
    ensures Latest(slot, s1, back + [m]) == Latest(slot, s2, back + [m])
    decreases |back|
  {
    if back == [] {
      assert back + [m] == [m];
      LatestOne(slot, s1, m);
      LatestOne(slot, s2, m);
    } else {
      var t1, t2 := See(slot, s1, back[0]), See(slot, s2, back[0]);
      assert (back + [m])[1..] == back[1..] + [m];
      SeeThenOverride(slot, s1, back[0], k, m);
      SeeThenOverride(slot, s2, back[0], k, m);
      LatestOverrides(slot, t1, t2, k, back[1..], m);
    }
  }

  /** Erasing an earlier callback of the same key leaves the client in the same state. */
  lemma {:induction false} LatestRemoveObsolete<K>(slot: Slot<K>, seen: map<K, Message>, q: seq<Message>, i: nat,
                                                  m: Message)
    requires i < |q| ==> slot(q[i]) == slot(m)
    ensures Latest(slot, seen, RemoveAt(q, i) + [m]) == Latest(slot, seen, q + [m])
  {
    if slot(m).None? {
      LatestRemoveOther(slot, seen, q, i);
      LatestAppend(slot, seen, RemoveAt(q, i), [m]);
      LatestAppend(slot, seen, q, [m]);
    } else if i < |q| {
      var front, back, k := q[..i], q[i + 1..], slot(m).value;
      var t := Latest(slot, seen, front);
      assert RemoveAt(q, i) + [m] == front + (back + [m]);
      assert q + [m] == front + ([q[i]] + (back + [m]));
      LatestAppend(slot, seen, front, back + [m]);
      LatestAppend(slot, seen, front, [q[i]] + (back + [m]));
      LatestAppend(slot, t, [q[i]], back + [m]);
      LatestOne(slot, t, q[i]);
      LatestOverrides(slot, t, See(slot, t, q[i]), k, back, m);
    }
  }

  lemma {:induction false} SweepKeepsLatest<K(!new)>(slot: Slot<K>, seen: map<K, Message>, q: seq<Message>,
                                                     target: string,
                                            part: int, rect: Rect)
    requires FollowsKeys(slot)
    ensures Latest(slot, seen, SweepQueue(q, target, part, rect).kept) == Latest(slot, seen, q)
    decreases |q|
  {
    if q != [] {
      match Judge(q[0], target, part, rect)
      case Keep =>
        var kept := SweepQueue(q[1..], target, part, rect).kept;
        assert ([q[0]] + kept)[1..] == kept;
        SweepKeepsLatest(slot, See(slot, seen, q[0]), q[1..], target, part, rect);
      case Drop => SweepKeepsLatest(slot, seen, q[1..], target, part, rect);
      case Merge => SweepKeepsLatest(slot, seen, q[1..], target, part, Join(rect, RectOf(q[0].body.area)));
    }
  }

  lemma {:induction false} LatestAtEnd<K>(slot: Slot<K>, seen: map<K, Message>, q: seq<Message>, q': seq<Message>,
                                          m: Message,
                                       n: Message)
    requires Latest(slot, seen, q') == Latest(slot, seen, q) && slot(m) == slot(n) == None
    ensures Latest(slot, seen, q' + [n]) == Latest(slot, seen, q + [m])
  {
    LatestAppend(slot, seen, q', [n]);
    LatestAppend(slot, seen, q, [m]);
    LatestOne(slot, Latest(slot, seen, q), m);
    LatestOne(slot, Latest(slot, seen, q), n);
  }

  lemma {:induction false} PutTilesKeepLatest<K(!new)>(slot: Slot<K>, seen: map<K, Message>, q: seq<Message>,
                                                       tiles: seq<Message>)
    requires FollowsKeys(slot)
    requires forall m :: m in tiles ==> m.Tile?
    ensures Latest(slot, seen, PutTiles(q, tiles)) == Latest(slot, seen, q)
    decreases |tiles|
  {
    if tiles != [] {
      var m := tiles[0];
      var i := FindFirst(q, x => IsTileDuplicate(m.raw, x));
      LatestRemoveOther(slot, seen, q, i);
      LatestAppend(slot, seen, RemoveAt(q, i), [m]);
      LatestOne(slot, Latest(slot, seen, q), m);
      PutTilesKeepLatest(slot, seen, PutTile(q, m), tiles[1..]);
    }
  }

  lemma {:induction false} BasePutKeepsLatest<K(!new)>(slot: Slot<K>, seen: map<K, Message>, q: seq<Message>,
                                                       m: Message)
    requires HidesText(slot)
    ensures Latest(slot, seen, BasePut(q, m)) == Latest(slot, seen, q + [m])
  {
    hide Found, BasePut, IsText, HidesText, Latest;
    BasePutMeans(q, m);
    if Found(q, m).Some? {
      var k, n := Found(q, m).value, BasePut(q, m)[|q| - 1];
      TextIsHidden(slot, q[k]);
      TextIsHidden(slot, m);
      TextIsHidden(slot, n);
      LatestRemoveOther(slot, seen, q, k);
      LatestAtEnd(slot, seen, q, RemoveAt(q, k), m, n);
    }
  }

  lemma {:induction false} PutKeepsLatest<K(!new)>(slot: Slot<K>, seen: map<K, Message>, q: seq<Message>, input: Input)
    requires ValidInput(input) && FollowsKeys(slot)
    ensures Latest(slot, seen, Put(q, input)) == Latest(slot, seen, q + Messages(input))
  {
    match input
    case TileCombine(tiles) =>
      PutTilesKeepLatest(slot, seen, q, tiles);
      LatestAppend(slot, seen, q, tiles);
      LatestNone(slot, Latest(slot, seen, q), tiles);
    case One(m) =>
      if m.Tile? {
        var i := FindFirst(q, x => IsTileDuplicate(m.raw, x));
        LatestRemoveOther(slot, seen, q, i);
        LatestAtEnd(slot, seen, q, RemoveAt(q, i), m, m);
      } else if m.Callback? {
        PutCallbackKeepsLatest(slot, seen, q, m);
      } else {
        BasePutKeepsLatest(slot, seen, q, m);
      }
  }

  lemma {:induction false} PutCallbackKeepsLatest<K(!new)>(slot: Slot<K>, seen: map<K, Message>, q: seq<Message>,
                                                            m: Message)
    requires m.Callback? && FollowsKeys(slot)
    ensures Latest(slot, seen, PutCallback(q, m)) == Latest(slot, seen, q + [m])
  {
    hide Latest, SweepQueue, KeyOf;
    if m.body.Invalidate? {
      var s := SweepQueue(q, m.target, m.body.part, RectOf(m.body.area));
      SweepKeepsLatest(slot, seen, q, m.target, m.body.part, RectOf(m.body.area));
      LatestAtEnd(slot, seen, q, s.kept, m,
                  if s.merged then Callback(m.target, Invalidate(Some(s.rect), m.body.part)) else m);
    } else if KeyOf(m).Some? {
      LatestRemoveObsolete(slot, seen, q, FindFirst(q, x => KeyOf(x) == KeyOf(m)), m);
    }
  }

  lemma {:induction false} NotCombinedKeepsLatest<K(!new)>(slot: Slot<K>, seen: map<K, Message>, q: seq<Message>,
                                                           first: TileDesc)
    requires FollowsKeys(slot)
    ensures Latest(slot, seen, NotCombined(q, first)) == Latest(slot, seen, q)
    decreases |q|
  {
    if q != [] {
      NotCombinedKeepsLatest(slot, See(slot, seen, q[0]), q[1..], first);
      if IsPlainTile(q[0]) && CanCombine(first, q[0].desc) {
        assert NotCombined(q, first) == NotCombined(q[1..], first);
      } else {
        assert NotCombined(q, first)[1..] == NotCombined(q[1..], first);
      }
    }
  }

  lemma {:induction false} GetKeepsLatest<K(!new)>(slot: Slot<K>, seen: map<K, Message>, q: seq<Message>, views: Views)
    requires FollowsKeys(slot)
    requires q != [] && views.Closed()
    ensures Latest(slot, seen, Moved(Get(q, views).0) + Get(q, views).1) == Latest(slot, seen, q)
  {
    hide Get, NotCombined, Best, LeadingPreviews, LeadingTiles, Latest;
    GetMeans(q, views);
    var (response, rest) := Get(q, views);
    if !q[0].Tile? {
      assert [q[0]] + q[1..] == q;
    } else if q[0].preview {
      var t := q[1..];
      var n := LeadingPreviews(t);
      assert [q[0]] + t == q;
      LatestAppend(slot, seen, [q[0]], t);
      LatestAppend(slot, seen, [q[0]], rest);
      LatestOne(slot, seen, q[0]);
      LatestAppend(slot, seen, t[n..], t[..n]);
      LatestNone(slot, Latest(slot, seen, t[n..]), t[..n]);
      LatestAppend(slot, seen, t[..n], t[n..]);
      LatestNone(slot, seen, t[..n]);
      assert t[..n] + t[n..] == t;
    } else {
      var b := Best(q, views, LeadingTiles(q));
      LatestRemoveOther(slot, seen, q, b);
      NotCombinedKeepsLatest(slot, seen, RemoveAt(q, b), q[b].desc);
      assert [] + rest == rest;
    }
  }

  lemma {:induction false} StepKeepsLatest<K(!new)>(slot: Slot<K>, s: QState, e: Event)
    requires FollowsKeys(slot)
    requires s.views.Closed() && (e.PutEvent? ==> ValidInput(e.input))
    ensures Latest(slot, map[], Log(Step(s, e))) == Latest(slot, map[], Log(s) + PutBy(e))
  {
    hide Step, Log, Put, Get, Latest;
    var d := Delivered(s.responses);
    var t := Latest(slot, map[], d);
    LogSteps(s, e);
    LatestAppend(slot, map[], d, s.queue + PutBy(e));
    assert s.queue + [] == s.queue;
    match e
    case PutEvent(input) =>
      PutKeepsLatest(slot, t, s.queue, input);
      LatestAppend(slot, map[], d, Put(s.queue, input));
    case GetEvent =>
      if s.queue != [] {
        GetKeepsLatest(slot, t, s.queue, s.views);
        LatestAppend(slot, map[], d, Moved(Get(s.queue, s.views).0) + Get(s.queue, s.views).1);
      }
    case _ =>
  }

  /** Over any run: a client that keeps the latest message of every slot and gets what was delivered and
      is still queued ends up as if no callback had been dropped. */
  lemma {:induction false} LatestValuesAreThoseOfFifo<K(!new)>(slot: Slot<K>, s: QState, events: seq<Event>)
    requires FollowsKeys(slot)
    requires s.views.Valid() && ValidEvents(events)
    ensures Latest(slot, map[], Log(Run(s, events))) == Latest(slot, map[], Log(s) + History(events))
    decreases |events|
  {
    hide Step, Log, Latest, PutBy;
    if events == [] {
      assert Log(s) + History(events) == Log(s);
    } else {
      var e, rest := events[0], events[1..];
      StepKeepsViews(s, e);
      LatestValuesAreThoseOfFifo(slot, Step(s, e), rest);
      StepKeepsLatest(slot, s, e);
      LatestAppend(slot, map[], Log(Step(s, e)), History(rest));
      LatestAppend(slot, map[], Log(s) + PutBy(e), History(rest));
      HistoryGrows(Log(s), events);
    }
  }

  /** What a session shows: callbacks come for all, for all but one view, or for one view, and what they
      say is one state for the session. */
  datatype Shown =
    | ShownState(command: string)
    | ShownCursor(kind: CursorKind)
    | ShownView(viewKind: ViewKind, viewId: string)

  /** The state that a callback changes, for a session that gets what is sent to the targets. */
  function ShownBy(gets: string -> bool): Slot<Shown> {
    (m: Message) =>
      match m
      case Callback(target, State(command, _)) => if gets(target) then Some(ShownState(command)) else None
      case Callback(target, Cursor(kind, _)) => if gets(target) then Some(ShownCursor(kind)) else None
      case Callback(target, View(kind, id, _)) => if gets(target) then Some(ShownView(kind, id)) else None
      case _ => None
  }

  /** Over any run every session ends up showing what it would if no callback had been dropped. */
  lemma {:induction false} SessionsShowWhatFifoShows(gets: string -> bool, s: QState, events: seq<Event>)
    requires s.views.Valid() && ValidEvents(events)
    ensures Latest(ShownBy(gets), map[], Log(Run(s, events))) ==
            Latest(ShownBy(gets), map[], Log(s) + History(events))
  {
    assert FollowsKeys(ShownBy(gets)) by { SessionsFollowKeys(gets); }
    hide *;
    LatestValuesAreThoseOfFifo(ShownBy(gets), s, events);
  }

  lemma {:induction false} SessionsFollowKeys(gets: string -> bool)
    ensures FollowsKeys(ShownBy(gets))
  {
  }

  /** So does a client that keeps the latest callback of every key. */
  lemma {:induction false} KeysFollowKeys()
    ensures FollowsKeys(KeyOf)
  {
  }

  // ----- one queued callback a key ----------------------------------------------------------

  /** The keys of the callbacks, in order. */
  function Keys(q: seq<Message>): seq<CallbackKey> {
    Project(KeyOf, q)
  }

  lemma {:induction false} KeyOfHides()
    ensures HidesTiles(KeyOf) && HidesText(KeyOf)
  {
  }

  lemma {:induction false} SweepKeepsKeys(q: seq<Message>, target: string, part: int, rect: Rect)
    ensures Keys(SweepQueue(q, target, part, rect).kept) == Keys(q)
  {
    if q != [] {
      match Judge(q[0], target, part, rect)
      case Keep =>
        SweepKeepsKeys(q[1..], target, part, rect);
        ProjectAppend(KeyOf, [q[0]], SweepQueue(q[1..], target, part, rect).kept);
        ProjectOne(KeyOf, q[0]);
      case Drop => SweepKeepsKeys(q[1..], target, part, rect);
      case Merge => SweepKeepsKeys(q[1..], target, part, Join(rect, RectOf(q[0].body.area)));
    }
  }

  lemma {:induction false} KeysOfFront(q: seq<Message>, k: CallbackKey)
    requires forall i :: 0 <= i < |q| ==> KeyOf(q[i]) != Some(k)
    ensures k !in Keys(q)
  {
    if q != [] {
      KeysOfFront(q[1..], k);
    }
  }

  /** A keyed callback replaces the one with its key, or joins the others. */
  lemma {:induction false} PutKeyed(q: seq<Message>, m: Message)
    requires m.Callback? && !m.body.Invalidate? && KeyOf(m).Some? && Distinct(Keys(q))
    ensures Distinct(Keys(PutCallback(q, m)))
  {
    var k := KeyOf(m).value;
    var i := FindFirst(q, x => KeyOf(x) == KeyOf(m));
    ProjectAppend(KeyOf, RemoveAt(q, i), [m]);
    ProjectOne(KeyOf, m);
    if i == |q| {
      KeysOfFront(q, k);
    } else {
      var front, back := Keys(q[..i]), Keys(q[i + 1..]);
      assert q == q[..i] + ([q[i]] + q[i + 1..]);
      ProjectAppend(KeyOf, q[..i], [q[i]] + q[i + 1..]);
      ProjectAppend(KeyOf, [q[i]], q[i + 1..]);
      ProjectOne(KeyOf, q[i]);
      ProjectAppend(KeyOf, q[..i], q[i + 1..]);
      assert Keys(q) == front + [k] + back;
      DistinctMoves(front, k, back);
    }
  }

  lemma {:induction false} DistinctMoves<T>(front: seq<T>, k: T, back: seq<T>)
    requires Distinct(front + [k] + back)
    ensures Distinct(front + back + [k])
  {
    var s, t := front + [k] + back, front + back + [k];
    forall i, j | 0 <= i < j < |t|
      ensures t[i] != t[j]
    {
      var i' := if i < |front| then i else if i < |t| - 1 then i + 1 else |front|;
      var j' := if j < |front| then j else if j < |t| - 1 then j + 1 else |front|;
      assert t[i] == s[i'] && t[j] == s[j'] && i' != j';
    }
  }

  lemma {:induction false} PutKeepsOneEach(q: seq<Message>, input: Input)
    requires ValidInput(input) && Distinct(Keys(q))
    ensures Distinct(Keys(Put(q, input)))
  {
    KeyOfHides();
    match input
    case TileCombine(tiles) => PutTilesKeepsProjection(KeyOf, q, tiles);
    case One(m) =>
      if m.Tile? {
        PutTileKeepsProjection(KeyOf, q, m);
      } else if m.Callback? && m.body.Invalidate? {
        var s := SweepQueue(q, m.target, m.body.part, RectOf(m.body.area));
        var n := if s.merged then Callback(m.target, Invalidate(Some(s.rect), m.body.part)) else m;
        SweepKeepsKeys(q, m.target, m.body.part, RectOf(m.body.area));
        ProjectAppend(KeyOf, s.kept, [n]);
        ProjectOne(KeyOf, n);
      } else if KeyOf(m).Some? {
        PutKeyed(q, m);
      } else {
        BasePutKeepsProjection(KeyOf, q, m);
        HiddenAtEnd(KeyOf, q, m);
      }
  }

  lemma {:induction false} GetKeepsOneEach(q: seq<Message>, views: Views)
    requires q != [] && views.Closed() && Distinct(Keys(q))
    ensures Distinct(Keys(Get(q, views).1))
  {
    hide Get;
    KeyOfHides();
    var (response, rest) := Get(q, views);
    GetKeepsProjection(KeyOf, q, views);
    ProjectAppend(KeyOf, Moved(response), rest);
    var all, n := Keys(q), |Keys(Moved(response))|;
    assert all == Keys(Moved(response)) + Keys(rest);
    assert Keys(rest) == all[n..];
  }

  /** After any run from an empty queue, at most one queued callback has any given key. */
  lemma {:induction false} AtMostOneCallbackAKey(s: QState, events: seq<Event>)
    requires s.views.Valid() && ValidEvents(events) && Distinct(Keys(s.queue))
    ensures Distinct(Keys(Run(s, events).queue))
    decreases |events|
  {
    hide Put, Get, Keys;
    if events != [] {
      var e := events[0];
      StepKeepsViews(s, e);
      match e {
        case PutEvent(input) => PutKeepsOneEach(s.queue, input);
        case GetEvent => if s.queue != [] { GetKeepsOneEach(s.queue, s.views); }
        case _ =>
      }
      AtMostOneCallbackAKey(Step(s, e), events[1..]);
    }
  }

  /** No two of the messages say, to the same target, where the same cursor is, what the same view shows,
      or what state the same command has, the modified status excepted. */
  ghost predicate NoneIsObsolete(q: seq<Message>) {
    forall i, j :: 0 <= i < j < |q| ==> !SameSubject(q[i], q[j])
  }

  predicate SameSubject(m: Message, n: Message) {
    m.Callback? && n.Callback? && m.target == n.target &&
    match (m.body, n.body)
    case (Cursor(kind, _), Cursor(other, _)) => kind == other
    case (View(kind, id, _), View(other, otherId, _)) => kind == other && id == otherId
    case (State(command, _), State(other, _)) => command == other && command != ".uno:ModifiedStatus"
    case _ => false
  }

  lemma {:induction false} SameSubjectIsSameKey(m: Message, n: Message)
    ensures SameSubject(m, n) <==> KeyOf(m).Some? && KeyOf(m) == KeyOf(n)
  {
  }

  lemma {:induction false} KeyIsShown(q: seq<Message>, i: nat)
    requires i < |q| && KeyOf(q[i]).Some?
    ensures KeyOf(q[i]).value in Keys(q)
  {
    if i > 0 {
      KeyIsShown(q[1..], i - 1);
    }
  }

  lemma {:induction false} KeyHasMessage(q: seq<Message>, k: CallbackKey)
    requires k in Keys(q)
    ensures exists i :: 0 <= i < |q| && KeyOf(q[i]) == Some(k)
  {
    if KeyOf(q[0]) != Some(k) {
      KeyHasMessage(q[1..], k);
      var i :| 0 <= i < |q[1..]| && KeyOf(q[1..][i]) == Some(k);
      assert KeyOf(q[i + 1]) == Some(k);
    }
  }

  lemma {:induction false} DistinctKeysExactly(q: seq<Message>)
    ensures Distinct(Keys(q)) <==> NoneIsObsolete(q)
  {
    if q != [] {
      hide KeyOf, SameSubject;
      var head, rest := q[0], q[1..];
      DistinctKeysExactly(rest);
      if KeyOf(head).None? {
        assert Keys(q) == Keys(rest);
      } else {
        var k := KeyOf(head).value;
        assert Keys(q) == [k] + Keys(rest);
        DistinctCons(k, Keys(rest));
        if k in Keys(rest) {
          KeyHasMessage(rest, k);
        }
      }
      forall i | 0 <= i < |rest|
        ensures SameSubject(head, rest[i]) ==> KeyOf(head).Some? && KeyOf(head).value in Keys(rest)
        ensures KeyOf(head).Some? && KeyOf(head) == KeyOf(rest[i]) ==> SameSubject(head, rest[i])
      {
        SameSubjectIsSameKey(head, rest[i]);
        if KeyOf(rest[i]).Some? {
          KeyIsShown(rest, i);
        }
      }
      NoneIsObsoleteCons(head, rest);
      assert q == [head] + rest;
    }
  }

  lemma {:induction false} DistinctCons<T>(x: T, s: seq<T>)
    ensures Distinct([x] + s) <==> x !in s && Distinct(s)
  {
    var t := [x] + s;
    assert t[1..] == s;
    if x in s {
      var i :| 0 <= i < |s| && s[i] == x;
      assert t[0] == t[i + 1];
    }
    if Distinct(t) {
      assert forall i :: 0 <= i < |s| ==> s[i] == t[i + 1];
    }
  }

  lemma {:induction false} NoneIsObsoleteCons(m: Message, q: seq<Message>)
    ensures NoneIsObsolete([m] + q) <==>
            NoneIsObsolete(q) && forall i :: 0 <= i < |q| ==> !SameSubject(m, q[i])
  {
    hide SameSubject;
    var all := [m] + q;
    assert forall i :: 0 <= i < |q| ==> all[i + 1] == q[i];
    if NoneIsObsolete(all) {
      forall i, j | 0 <= i < j < |q| ensures !SameSubject(q[i], q[j]) {
        assert !SameSubject(all[i + 1], all[j + 1]);
      }
      forall i | 0 <= i < |q| ensures !SameSubject(m, q[i]) {
        assert !SameSubject(all[0], all[i + 1]);
      }
    }
  }

  /** After any run from a queue without obsolete callbacks, every put has taken out the one that it made
      obsolete. */
  lemma {:induction false} NoObsoleteCallbackIsQueued(s: QState, events: seq<Event>)
    requires s.views.Valid() && ValidEvents(events) && NoneIsObsolete(s.queue)
    ensures NoneIsObsolete(Run(s, events).queue)
  {
    DistinctKeysExactly(s.queue);
    AtMostOneCallbackAKey(s, events);
    DistinctKeysExactly(Run(s, events).queue);
  }

  // ----- invalidated areas ------------------------------------------------------------------

  ghost predicate Contains(r: Rect, x: int, y: int) {
    r.x <= x < r.x + r.w && r.y <= y < r.y + r.h
  }

  /** Some message invalidates the point, for this target and part. */
  ghost predicate Invalidates(msgs: seq<Message>, target: string, part: int, x: int, y: int) {
    exists i :: 0 <= i < |msgs| && InvalidatesPoint(msgs[i], target, part, x, y)
  }

  ghost predicate InvalidatesPoint(m: Message, target: string, part: int, x: int, y: int) {
    IsInvalidation(target, part, m) && Contains(RectOf(m.body.area), x, y)
  }

  lemma {:induction false} InvalidatesAppend(a: seq<Message>, b: seq<Message>, target: string, part: int, x: int,
                                             y: int)
    ensures Invalidates(a + b, target, part, x, y) <==>
            Invalidates(a, target, part, x, y) || Invalidates(b, target, part, x, y)
  {
    if Invalidates(a, target, part, x, y) {
      var i :| 0 <= i < |a| && InvalidatesPoint(a[i], target, part, x, y);
      assert (a + b)[i] == a[i];
    }
    if Invalidates(b, target, part, x, y) {
      var i :| 0 <= i < |b| && InvalidatesPoint(b[i], target, part, x, y);
      assert (a + b)[|a| + i] == b[i];
    }
  }

  lemma {:induction false} InvalidatesOne(m: Message, target: string, part: int, x: int, y: int)
    ensures Invalidates([m], target, part, x, y) <==> InvalidatesPoint(m, target, part, x, y)
  {
    if InvalidatesPoint(m, target, part, x, y) {
      assert [m][0] == m;
    }
  }

  /** The sweep loses no point: what a dropped or merged invalidation covered, the rectangle covers
      in the end. */
  lemma {:induction false} SweepCovers(q: seq<Message>, target: string, part: int, rect: Rect, x: int, y: int)
    requires Contains(rect, x, y) || Invalidates(q, target, part, x, y)
    ensures var s := SweepQueue(q, target, part, rect);
            Contains(s.rect, x, y) || Invalidates(s.kept, target, part, x, y)
  {
    if q != [] {
      InvalidatesAppend([q[0]], q[1..], target, part, x, y);
      InvalidatesOne(q[0], target, part, x, y);
      assert q == [q[0]] + q[1..];
      match Judge(q[0], target, part, rect)
      case Keep =>
        var s := SweepQueue(q[1..], target, part, rect);
        InvalidatesAppend([q[0]], s.kept, target, part, x, y);
        if Contains(rect, x, y) || Invalidates(q[1..], target, part, x, y) {
          SweepCovers(q[1..], target, part, rect, x, y);
        }
      case Drop => SweepCovers(q[1..], target, part, rect, x, y);
      case Merge => SweepCovers(q[1..], target, part, Join(rect, RectOf(q[0].body.area)), x, y);
    }
  }

  /** The sweep adds no area of its own beyond the bounding boxes it merges: a merged rectangle is
      at most 15360 by 7680, and the rectangle is unchanged when nothing was merged. */
  lemma {:induction false} MergedRectanglesAreSmall(q: seq<Message>, target: string, part: int, rect: Rect)
    ensures var s := SweepQueue(q, target, part, rect);
            && (s.merged ==> Reasonable(s.rect)) && (!s.merged ==> s.rect == rect)
            && (Reasonable(rect) ==> Reasonable(s.rect))
  {
    if q != [] {
      match Judge(q[0], target, part, rect)
      case Merge => MergedRectanglesAreSmall(q[1..], target, part, Join(rect, RectOf(q[0].body.area)));
      case _ => MergedRectanglesAreSmall(q[1..], target, part, rect);
    }
  }

  /** An invalidation of everything never takes another one in: it has no rectangle in its text that a
      merged one could replace. */
  lemma {:induction false} EmptyFormIsNeverMerged(q: seq<Message>, target: string, part: int)
    ensures !SweepQueue(q, target, part, RectOf(None)).merged
  {
    if q != [] {
      EmptyFormIsNeverMerged(q[1..], target, part);
    }
  }

  /** All but the invalidations of one target and part stay as they are, in order. */
  function OthersThan(target: string, part: int, m: Message): Option<Message> {
    if IsInvalidation(target, part, m) then None else Some(m)
  }

  lemma {:induction false} SweepKeepsOthers(q: seq<Message>, target: string, part: int, rect: Rect)
    ensures var p := (m: Message) => OthersThan(target, part, m);
            Project(p, SweepQueue(q, target, part, rect).kept) == Project(p, q)
  {
    var p := (m: Message) => OthersThan(target, part, m);
    if q != [] {
      match Judge(q[0], target, part, rect)
      case Keep =>
        SweepKeepsOthers(q[1..], target, part, rect);
        var kept := SweepQueue(q[1..], target, part, rect).kept;
        assert ([q[0]] + kept)[1..] == kept;
      case Drop => SweepKeepsOthers(q[1..], target, part, rect);
      case Merge => SweepKeepsOthers(q[1..], target, part, Join(rect, RectOf(q[0].body.area)));
    }
  }

  // ----- which invalidations are dropped or merged ------------------------------------------

  /** The rectangle is no larger than a merged one may be, 15360 by 7680. */
  predicate Reasonable(r: Rect) {
    r.w <= 15360 && r.h <= 7680
  }

  /** `j` is the smallest rectangle around both. */
  ghost predicate IsBoundingBox(j: Rect, r: Rect, s: Rect) {
    && Covers(j, r) && Covers(j, s)
    && forall k :: Covers(k, r) && Covers(k, s) ==> Covers(k, j)
  }

  lemma {:induction false} JoinIsBoundingBox(r: Rect, s: Rect)
    ensures IsBoundingBox(Join(r, s), r, s)
    ensures forall j :: IsBoundingBox(j, r, s) ==> j == Join(r, s)
  {
  }

  lemma {:induction false} CoversExactly(r: Rect, s: Rect)
    requires s.w >= 0 && s.h >= 0
    ensures Covers(r, s) <==> forall x, y :: Meets(s, x, y) ==> Meets(r, x, y)
  {
    if forall x, y :: Meets(s, x, y) ==> Meets(r, x, y) {
      assert Meets(s, s.x, s.y) && Meets(s, s.x + s.w, s.y + s.h);
    }
  }

  /** A queued invalidation of the same target and part is dropped just if no point of it lies outside the
      new one, and merged just if else they have a point in common and their bounding box is reasonable. */
  lemma {:induction false} JudgeExactly(target: string, part: int, area: Option<Rect>, rect: Rect)
    requires rect.w >= 0 && rect.h >= 0 && (area.Some? ==> area.value.w >= 0 && area.value.h >= 0)
    ensures var verdict := Judge(Callback(target, Invalidate(area, part)), target, part, rect);
            var queued := RectOf(area);
            && (verdict == Drop <==> forall x, y :: Meets(queued, x, y) ==> Meets(rect, x, y))
            && (verdict == Merge <==>
                  && verdict != Drop && (exists x, y :: Meets(queued, x, y) && Meets(rect, x, y))
                  && exists j :: IsBoundingBox(j, rect, queued) && Reasonable(j))
  {
    hide Covers, RectanglesIntersect, Join, Meets, IsBoundingBox;
    CoversExactly(rect, RectOf(area));
    IntersectExactly(rect, RectOf(area));
    JoinIsBoundingBox(rect, RectOf(area));
  }

  // ----- no invalidated point is lost over a run --------------------------------------------

  /** The rectangles that the messages invalidate for one target and part. */
  function AreaOf(target: string, part: int): Message -> Option<Rect> {
    m => if IsInvalidation(target, part, m) then Some(RectOf(m.body.area)) else None
  }

  function Areas(msgs: seq<Message>, target: string, part: int): seq<Rect> {
    Project(AreaOf(target, part), msgs)
  }

  lemma {:induction false} InvalidatesByAreas(msgs: seq<Message>, target: string, part: int, x: int, y: int)
    ensures Invalidates(msgs, target, part, x, y) <==>
            exists r :: r in Areas(msgs, target, part) && Contains(r, x, y)
  {
    if msgs != [] {
      InvalidatesByAreas(msgs[1..], target, part, x, y);
      InvalidatesAppend([msgs[0]], msgs[1..], target, part, x, y);
      InvalidatesOne(msgs[0], target, part, x, y);
      assert msgs == [msgs[0]] + msgs[1..];
    }
  }

  lemma {:induction false} SweepKeepsOtherAreas(q: seq<Message>, target: string, part: int, rect: Rect, t: string,
                                                p: int)
    requires t != target || p != part
    ensures Areas(SweepQueue(q, target, part, rect).kept, t, p) == Areas(q, t, p)
  {
    if q != [] {
      match Judge(q[0], target, part, rect)
      case Keep =>
        SweepKeepsOtherAreas(q[1..], target, part, rect, t, p);
        var kept := SweepQueue(q[1..], target, part, rect).kept;
        assert ([q[0]] + kept)[1..] == kept;
      case Drop => SweepKeepsOtherAreas(q[1..], target, part, rect, t, p);
      case Merge => SweepKeepsOtherAreas(q[1..], target, part, Join(rect, RectOf(q[0].body.area)), t, p);
    }
  }

  /** Putting an invalidation: every point that it or a queued one covers stays covered. */
  lemma {:induction false} InvalidationCovers(q: seq<Message>, m: Message, target: string, part: int, x: int, y: int)
    requires m.Callback? && m.body.Invalidate? && Invalidates(q + [m], target, part, x, y)
    ensures Invalidates(PutCallback(q, m), target, part, x, y)
  {
    var rect := RectOf(m.body.area);
    var s := SweepQueue(q, m.target, m.body.part, rect);
    var n := if s.merged then Callback(m.target, Invalidate(Some(s.rect), m.body.part)) else m;
    InvalidatesAppend(q, [m], target, part, x, y);
    InvalidatesOne(m, target, part, x, y);
    InvalidatesAppend(s.kept, [n], target, part, x, y);
    InvalidatesOne(n, target, part, x, y);
    MergedRectanglesAreSmall(q, m.target, m.body.part, rect);
    if target == m.target && part == m.body.part {
      SweepCovers(q, target, part, rect, x, y);
    } else {
      SweepKeepsOtherAreas(q, m.target, m.body.part, rect, target, part);
      InvalidatesByAreas(q, target, part, x, y);
      InvalidatesByAreas(s.kept, target, part, x, y);
    }
  }

  /** Puts of anything else leave the invalidations as they are. */
  lemma {:induction false} OtherPutsKeepAreas(q: seq<Message>, input: Input, target: string, part: int)
    requires ValidInput(input) && !(input.One? && input.m.Callback? && input.m.body.Invalidate?)
    ensures Areas(Put(q, input), target, part) == Areas(q + Messages(input), target, part)
  {
    var p := AreaOf(target, part);
    ProjectAppend(p, q, Messages(input));
    match input
    case TileCombine(tiles) =>
      PutTilesKeepsProjection(p, q, tiles);
      ProjectNothing(p, tiles);
    case One(m) =>
      ProjectOne(p, m);
      match m
      case Tile(_, _, _) => PutTileKeepsProjection(p, q, m);
      case Callback(_, _) =>
        if KeyOf(m).Some? {
          var i := FindFirst(q, x => KeyOf(x) == KeyOf(m));
          ProjectRemove(p, q, i);
          ProjectAppend(p, RemoveAt(q, i), [m]);
        }
      case _ => BasePutKeepsProjection(p, q, m);
  }

  lemma {:induction false} StepKeepsPoints(s: QState, e: Event, target: string, part: int, x: int, y: int)
    requires s.views.Closed() && (e.PutEvent? ==> ValidInput(e.input))
    requires Invalidates(Log(s) + PutBy(e), target, part, x, y)
    ensures Invalidates(Log(Step(s, e)), target, part, x, y)
  {
    hide Step, Log, Put, Get, Invalidates, Areas, AreaOf;
    var d := Delivered(s.responses);
    LogSteps(s, e);
    InvalidatesAppend(d, s.queue + PutBy(e), target, part, x, y);
    assert s.queue + [] == s.queue;
    match e
    case PutEvent(input) =>
      InvalidatesAppend(d, Put(s.queue, input), target, part, x, y);
      PutKeepsPoints(s.queue, input, target, part, x, y);
    case GetEvent =>
      if s.queue != [] {
        var after := Moved(Get(s.queue, s.views).0) + Get(s.queue, s.views).1;
        InvalidatesAppend(d, after, target, part, x, y);
        GetKeepsPoints(s.queue, s.views, target, part, x, y);
      }
    case _ =>
  }

  lemma {:induction false} PutKeepsPoints(q: seq<Message>, input: Input, target: string, part: int, x: int, y: int)
    requires ValidInput(input)
    ensures Invalidates(q + Messages(input), target, part, x, y) ==> Invalidates(Put(q, input), target, part, x, y)
  {
    if Invalidates(q + Messages(input), target, part, x, y) {
      if input.One? && input.m.Callback? && input.m.body.Invalidate? {
        InvalidationCovers(q, input.m, target, part, x, y);
      } else {
        OtherPutsKeepAreas(q, input, target, part);
        InvalidatesByAreas(q + Messages(input), target, part, x, y);
        InvalidatesByAreas(Put(q, input), target, part, x, y);
      }
    }
  }

  lemma {:induction false} GetKeepsPoints(q: seq<Message>, views: Views, target: string, part: int, x: int, y: int)
    requires q != [] && views.Closed()
    ensures Invalidates(q, target, part, x, y) <==>
            Invalidates(Moved(Get(q, views).0) + Get(q, views).1, target, part, x, y)
  {
    hide Get;
    GetKeepsProjection(AreaOf(target, part), q, views);
    InvalidatesByAreas(q, target, part, x, y);
    InvalidatesByAreas(Moved(Get(q, views).0) + Get(q, views).1, target, part, x, y);
  }

  /** Over any run, a point that was invalidated by some put is invalidated by what was delivered or
      is still queued. */
  lemma {:induction false} NoInvalidatedPointIsLost(s: QState, events: seq<Event>, target: string, part: int, x: int,
                                                    y: int)
    requires s.views.Valid() && ValidEvents(events)
    requires Invalidates(Log(s) + History(events), target, part, x, y)
    ensures Invalidates(Log(Run(s, events)), target, part, x, y)
    decreases |events|
  {
    hide Step, Log, PutBy, Invalidates;
    if events == [] {
      assert Log(s) + History(events) == Log(s);
    } else {
      var e, rest := events[0], events[1..];
      StepKeepsViews(s, e);
      HistoryGrows(Log(s), events);
      InvalidatesAppend(Log(s) + PutBy(e), History(rest), target, part, x, y);
      InvalidatesAppend(Log(Step(s, e)), History(rest), target, part, x, y);
      if Invalidates(Log(s) + PutBy(e), target, part, x, y) {
        StepKeepsPoints(s, e, target, part, x, y);
      }
      NoInvalidatedPointIsLost(Step(s, e), rest, target, part, x, y);
    }
  }
}
