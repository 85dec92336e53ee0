/**
 What the tile queue keeps over whole runs: any sequence of puts, gets and cursor movements.  The
 log of a state is what was delivered as a whole message, followed by what is still queued; the
 lemmas compare it with the plain list of everything that was put.
*/
module QueueRuns {

  import opened Sequences
  import opened Wrappers
  import opened TileDescs
  import opened QueueSpec

  // ----- runs -------------------------------------------------------------------------------

  datatype Event =
    | PutEvent(input: Input)
    | GetEvent
    | CursorEvent(viewId: int, cursor: CursorPosition)
    | LeaveEvent(leavingId: int)

  datatype QState = QState(queue: seq<Message>, views: Views, responses: seq<Response>)

  ghost predicate ValidEvents(events: seq<Event>) {
    forall e :: e in events && e.PutEvent? ==> ValidInput(e.input)
  }

  function Step(s: QState, e: Event): QState
    requires s.views.Closed() && (e.PutEvent? ==> ValidInput(e.input))
  {
    match e
    case PutEvent(input) => s.(queue := Put(s.queue, input))
    case GetEvent =>
      if s.queue == [] then s
      else
        var (response, rest) := Get(s.queue, s.views);
        s.(queue := rest, responses := s.responses + [response])
    case CursorEvent(viewId, cursor) => s.(views := UpdateCursor(s.views, viewId, cursor))
    case LeaveEvent(viewId) => s.(views := RemoveCursor(s.views, viewId))
  }

  lemma {:induction false} WithoutViewElements(order: seq<int>, viewId: int)
    requires forall i, j :: 0 <= i < j < |order| ==> order[i] != order[j]
    ensures var r := WithoutView(order, viewId);
            && (forall v :: v in r <==> v in order && v != viewId)
            && (forall i, j :: 0 <= i < j < |r| ==> r[i] != r[j])
  {
    var k := FindFirst(order, v => v == viewId);
    var r := WithoutView(order, viewId);
    if k < |order| {
      forall v | v in order && v != viewId
        ensures v in r
      {
        var i :| 0 <= i < |order| && order[i] == v;
        assert v == if i < k then r[i] else r[i - 1];
      }
    }
  }

  lemma {:induction false} CursorsStayValid(views: Views, viewId: int, cursor: CursorPosition)
    requires views.Valid()
    ensures UpdateCursor(views, viewId, cursor).Valid()
  {
    WithoutViewElements(views.order, viewId);
    var r := WithoutView(views.order, viewId);
    forall i | 0 <= i < |r|
      ensures r[i] in views.cursors && r[i] != viewId
    {
      assert r[i] in r;
    }
  }

  lemma {:induction false} LeavingStaysValid(views: Views, viewId: int)
    requires views.Valid()
    ensures RemoveCursor(views, viewId).Valid()
  {
    WithoutViewElements(views.order, viewId);
    var r := WithoutView(views.order, viewId);
    forall i | 0 <= i < |r|
      ensures r[i] in views.cursors && r[i] != viewId
    {
      assert r[i] in r;
    }
  }

  /** Moving and removing cursors keeps the view order free of duplicates and equal, as a set, to
      the views that have a cursor; the view that moved last is the last one in the order. */
  lemma {:induction false} StepKeepsViews(s: QState, e: Event)
    requires s.views.Valid() && (e.PutEvent? ==> ValidInput(e.input))
    ensures Step(s, e).views.Valid()
    ensures e.CursorEvent? ==>
              var order := Step(s, e).views.order; order != [] && order[|order| - 1] == e.viewId
    ensures e.LeaveEvent? ==> e.leavingId !in Step(s, e).views.cursors
  {
    match e
    case PutEvent(input) =>
    case GetEvent =>
    case CursorEvent(viewId, cursor) => CursorsStayValid(s.views, viewId, cursor);
    case LeaveEvent(viewId) => LeavingStaysValid(s.views, viewId);
  }

  function Run(s: QState, events: seq<Event>): (r: QState)
    requires s.views.Valid() && ValidEvents(events)
    decreases |events|
  {
    if events == [] then s
    else
      StepKeepsViews(s, events[0]);
      Run(Step(s, events[0]), events[1..])
  }

  /** The messages of the events, in order. */
  function Messages(input: Input): seq<Message> {
    match input
    case One(m) => [m]
    case TileCombine(tiles) => tiles
  }

  function PutBy(e: Event): seq<Message> {
    if e.PutEvent? then Messages(e.input) else []
  }

  function History(events: seq<Event>): seq<Message> {
    if events == [] then [] else PutBy(events[0]) + History(events[1..])
  }

  /** What a response delivers as a whole message. */
  function Moved(response: Response): seq<Message> {
    if response.Whole? then [response.m] else []
  }

  function Delivered(responses: seq<Response>): seq<Message> {
    if responses == [] then []
    else
      var n := |responses| - 1;
      Delivered(responses[..n]) + Moved(responses[n])
  }

  function Log(s: QState): seq<Message> {
    Delivered(s.responses) + s.queue
  }

  lemma {:induction false} HistoryGrows(log: seq<Message>, events: seq<Event>)
    requires events != []
    ensures log + History(events) == log + PutBy(events[0]) + History(events[1..])
  {
    assert log + (PutBy(events[0]) + History(events[1..])) == log + PutBy(events[0]) + History(events[1..]);
  }

  lemma {:induction false} DeliveredOneMore(responses: seq<Response>, r: Response)
    ensures Delivered(responses + [r]) == Delivered(responses) + Moved(r)
  {
    assert (responses + [r])[..|responses|] == responses;
  }

  /** The log before and after a step, with the delivered messages split off. */
  lemma {:induction false} LogSteps(s: QState, e: Event)
    requires s.views.Closed() && (e.PutEvent? ==> ValidInput(e.input))
    ensures var d, s' := Delivered(s.responses), Step(s, e);
            && Log(s) + PutBy(e) == d + (s.queue + PutBy(e))
            && Log(s') == d + match e
                              case PutEvent(input) => Put(s.queue, input)
                              case GetEvent =>
                                if s.queue == [] then []
                                else Moved(Get(s.queue, s.views).0) + Get(s.queue, s.views).1
                              case _ => s.queue
  {
    hide Put, Get, PutBy, Moved, UpdateCursor, RemoveCursor, Delivered;
    var d := Delivered(s.responses);
    assert Log(s) + PutBy(e) == d + (s.queue + PutBy(e));
    if e.GetEvent? && s.queue != [] {
      var (response, rest) := Get(s.queue, s.views);
      DeliveredOneMore(s.responses, response);
      assert d + Moved(response) + rest == d + (Moved(response) + rest);
    }
  }

  // ----- projections ------------------------------------------------------------------------

  function Project<T>(p: Message -> Option<T>, s: seq<Message>): seq<T> {
    if s == [] then []
    else (match p(s[0]) case None => [] case Some(t) => [t]) + Project(p, s[1..])
  }

  lemma {:induction false} ProjectAppend<T>(p: Message -> Option<T>, a: seq<Message>, b: seq<Message>)
    ensures Project(p, a + b) == Project(p, a) + Project(p, b)
  {
    if a == [] {
      assert a + b == b;
    } else {
      assert (a + b)[1..] == a[1..] + b;
      ProjectAppend(p, a[1..], b);
    }
  }

  lemma {:induction false} ProjectOne<T>(p: Message -> Option<T>, m: Message)
    ensures Project(p, [m]) == match p(m) case None => [] case Some(t) => [t]
  {
  }

  /** Erasing a message that the projection does not show changes nothing. */
  lemma {:induction false} ProjectRemove<T>(p: Message -> Option<T>, q: seq<Message>, i: nat)
    requires i < |q| ==> p(q[i]) == None
    ensures Project(p, RemoveAt(q, i)) == Project(p, q)
  {
    if i < |q| {
      assert q == q[..i] + ([q[i]] + q[i + 1..]);
      ProjectAppend(p, q[..i], [q[i]] + q[i + 1..]);
      ProjectAppend(p, [q[i]], q[i + 1..]);
      ProjectAppend(p, q[..i], q[i + 1..]);
    }
  }

  lemma {:induction false} ProjectNothing<T>(p: Message -> Option<T>, q: seq<Message>)
    requires forall i :: 0 <= i < |q| ==> p(q[i]) == None
    ensures Project(p, q) == []
  {
    if q != [] {
      ProjectNothing(p, q[1..]);
    }
  }

  /** A projection shows no tiles. */
  ghost predicate HidesTiles<T(!new)>(p: Message -> Option<T>) {
    forall m: Message :: m.Tile? ==> p(m) == None
  }

  lemma {:induction false} ProjectDeprioritize<T(!new)>(p: Message -> Option<T>, q: seq<Message>)
    requires HidesTiles(p)
    ensures Project(p, Deprioritize(q)) == Project(p, q)
  {
    var n := LeadingPreviews(q);
    ProjectNothing(p, q[..n]);
    ProjectAppend(p, q[n..], q[..n]);
    ProjectAppend(p, q[..n], q[n..]);
    assert q[..n] + q[n..] == q;
  }

  lemma {:induction false} ProjectNotCombined<T(!new)>(p: Message -> Option<T>, q: seq<Message>, first: TileDesc)
    requires HidesTiles(p)
    ensures Project(p, NotCombined(q, first)) == Project(p, q)
  {
    if q != [] {
      ProjectNotCombined(p, q[1..], first);
      var head := if IsPlainTile(q[0]) && CanCombine(first, q[0].desc) then [] else [q[0]];
      ProjectAppend(p, head, NotCombined(q[1..], first));
      assert Project(p, head) == match p(q[0]) case None => [] case Some(t) => [t];
    }
  }

  /** Getting moves what a projection shows from the queue to the delivered messages, from its
      front. */
  lemma {:induction false} GetKeepsProjection<T(!new)>(p: Message -> Option<T>, q: seq<Message>, views: Views)
    requires q != [] && views.Closed() && HidesTiles(p)
    ensures var (response, rest) := Get(q, views);
            Project(p, Moved(response) + rest) == Project(p, q)
  {
    var (response, rest) := Get(q, views);
    if !q[0].Tile? {
      assert [q[0]] + q[1..] == q;
    } else if q[0].preview {
      ProjectDeprioritize(p, q[1..]);
      ProjectAppend(p, [q[0]], rest);
      ProjectOne(p, q[0]);
    } else {
      var b := Best(q, views, LeadingTiles(q));
      ProjectRemove(p, q, b);
      ProjectNotCombined(p, RemoveAt(q, b), q[b].desc);
      assert [] + rest == rest;
    }
  }

  // ----- the shape of a get -----------------------------------------------------------------

  /** Get, case by case. */
  lemma {:induction false} GetMeans(q: seq<Message>, views: Views)
    requires q != [] && views.Closed()
    ensures !q[0].Tile? ==> Get(q, views) == (Whole(q[0]), q[1..])
    ensures q[0].Tile? && q[0].preview ==>
              var t, n := q[1..], LeadingPreviews(q[1..]);
              && (forall i :: 0 <= i < n ==> IsPreview(t[..n][i]))
              && Get(q, views) == (Whole(q[0]), t[n..] + t[..n])
    ensures q[0].Tile? && !q[0].preview ==>
              LeadingTiles(q) > 0 &&
              var b := Best(q, views, LeadingTiles(q));
              && b < |q| && IsPlainTile(q[b])
              && Get(q, views) == (Tiles([q[b].desc] + Combined(RemoveAt(q, b), q[b].desc)),
                                   NotCombined(RemoveAt(q, b), q[b].desc))
  {
    hide Best, Combined, NotCombined, FindFirst;
  }

  // ----- messages that are never merged -----------------------------------------------------

  /** Shows the messages that put never removes or changes: not tiles, not complete text input or
      text removal, not callbacks of the types whose latest value counts, nor invalidations. */
  function Plain(m: Message): Option<Message> {
    match m
    case Tile(_, _, _) => None
    case TextInput(_, Some(_), Some(_)) => None
    case RemoveText(_, Some(_), Some(_), Some(_)) => None
    case Callback(_, Invalidate(_, _)) => None
    case Callback(_, Cursor(_, _)) => None
    case Callback(_, View(_, _, _)) => None
    case Callback(_, State(command, _)) => if command == ".uno:ModifiedStatus" then Some(m) else None
    case _ => Some(m)
  }

  lemma {:induction false} SweepKeepsPlain(q: seq<Message>, target: string, part: int, rect: Rect)
    ensures Project(Plain, SweepQueue(q, target, part, rect).kept) == Project(Plain, q)
  {
    if q != [] {
      match Judge(q[0], target, part, rect)
      case Keep =>
        SweepKeepsPlain(q[1..], target, part, rect);
        ProjectAppend(Plain, [q[0]], SweepQueue(q[1..], target, part, rect).kept);
        ProjectOne(Plain, q[0]);
      case Drop => SweepKeepsPlain(q[1..], target, part, rect);
      case Merge => SweepKeepsPlain(q[1..], target, part, Join(rect, RectOf(q[0].body.area)));
    }
  }

  lemma {:induction false} PutTilesKeepsProjection<T(!new)>(p: Message -> Option<T>, q: seq<Message>,
                                                     tiles: seq<Message>)
    requires HidesTiles(p) && forall m :: m in tiles ==> m.Tile?
    ensures Project(p, PutTiles(q, tiles)) == Project(p, q)
    decreases |tiles|
  {
    if tiles != [] {
      PutTileKeepsProjection(p, q, tiles[0]);
      PutTilesKeepsProjection(p, PutTile(q, tiles[0]), tiles[1..]);
    }
  }

  lemma {:induction false} PutTileKeepsProjection<T(!new)>(p: Message -> Option<T>, q: seq<Message>, m: Message)
    requires HidesTiles(p) && m.Tile?
    ensures Project(p, PutTile(q, m)) == Project(p, q)
  {
    var i := FindFirst(q, x => IsTileDuplicate(m.raw, x));
    ProjectRemove(p, q, i);
    ProjectAppend(p, RemoveAt(q, i), [m]);
    ProjectOne(p, m);
  }

  /** Replacing a hidden message by another hidden one at the end. */
  lemma {:induction false} ProjectReplace<T>(p: Message -> Option<T>, q: seq<Message>, i: nat, n: Message)
    requires i < |q| && p(q[i]) == None && p(n) == None
    ensures Project(p, RemoveAt(q, i) + [n]) == Project(p, q)
  {
    ProjectRemove(p, q, i);
    ProjectAppend(p, RemoveAt(q, i), [n]);
    ProjectOne(p, n);
  }

  /** Complete text input and complete text removal: the messages that put merges with each other. */
  predicate IsText(m: Message) {
    (m.TextInput? && m.id.Some? && m.text.Some?) || (m.RemoveText? && m.id.Some? && m.before.Some? && m.after.Some?)
  }

  ghost predicate HidesText<T(!new)>(p: Message -> Option<T>) {
    forall m :: IsText(m) ==> p(m) == None
  }

  /** A put that finds text to merge with takes it out and appends the merged text; any other put
      appends its message. */
  lemma {:induction false} BasePutMeans(q: seq<Message>, m: Message)
    ensures match Found(q, m)
            case None => BasePut(q, m) == q + [m]
            case Some(k) =>
              && |BasePut(q, m)| == |q| && BasePut(q, m) == RemoveAt(q, k) + [BasePut(q, m)[|q| - 1]]
              && IsText(q[k]) && IsText(m) && IsText(BasePut(q, m)[|q| - 1])
  {
    hide FindTextInput, FindRemoveText;
  }

  lemma {:induction false} TextIsHidden<T(!new)>(p: Message -> Option<T>, m: Message)
    requires HidesText(p) && IsText(m)
    ensures p(m) == None
  {
  }

  /** Merging text is invisible to a projection that shows no text. */
  lemma {:induction false} BasePutKeepsProjection<T(!new)>(p: Message -> Option<T>, q: seq<Message>, m: Message)
    requires HidesText(p)
    ensures Project(p, BasePut(q, m)) == Project(p, q + [m])
  {
    hide *;
    BasePutMeans(q, m);
    var k := Found(q, m);
    if k.Some? {
      var n := BasePut(q, m)[|q| - 1];
      TextIsHidden(p, q[k.value]);
      TextIsHidden(p, m);
      TextIsHidden(p, n);
      ProjectReplace(p, q, k.value, n);
      HiddenAtEnd(p, q, m);
    }
  }

  lemma {:induction false} HiddenAtEnd<T>(p: Message -> Option<T>, q: seq<Message>, m: Message)
    requires p(m) == None
    ensures Project(p, q + [m]) == Project(p, q)
  {
    ProjectAppend(p, q, [m]);
    ProjectOne(p, m);
  }

  lemma {:induction false} PutCallbackKeepsPlain(q: seq<Message>, m: Message)
    requires m.Callback?
    ensures Project(Plain, PutCallback(q, m)) == Project(Plain, q + [m])
  {
    ProjectAppend(Plain, q, [m]);
    ProjectOne(Plain, m);
    if m.body.Invalidate? {
      var s := SweepQueue(q, m.target, m.body.part, RectOf(m.body.area));
      var n := if s.merged then Callback(m.target, Invalidate(Some(s.rect), m.body.part)) else m;
      SweepKeepsPlain(q, m.target, m.body.part, RectOf(m.body.area));
      ProjectAppend(Plain, s.kept, [n]);
      ProjectOne(Plain, n);
    } else if KeyOf(m).Some? {
      var i := FindFirst(q, x => KeyOf(x) == KeyOf(m));
      ProjectRemove(Plain, q, i);
      ProjectAppend(Plain, RemoveAt(q, i), [m]);
    }
  }

  lemma {:induction false} PutKeepsPlain(q: seq<Message>, input: Input)
    requires ValidInput(input)
    ensures Project(Plain, Put(q, input)) == Project(Plain, q + Messages(input))
  {
    match input
    case TileCombine(tiles) =>
      PutTilesKeepsProjection(Plain, q, tiles);
      ProjectAppend(Plain, q, tiles);
      ProjectNothing(Plain, tiles);
    case One(m) =>
      if m.Tile? {
        PutTileKeepsProjection(Plain, q, m);
        ProjectAppend(Plain, q, [m]);
        ProjectOne(Plain, m);
      } else if m.Callback? {
        PutCallbackKeepsPlain(q, m);
      } else {
        PlainHidesText();
        BasePutKeepsProjection(Plain, q, m);
      }
  }

  lemma {:induction false} PlainHidesText()
    ensures HidesText(Plain)
  {
  }

  lemma {:induction false} PlainHidesTiles()
    ensures HidesTiles(Plain)
  {
  }

  /** One step adds to the log, as the projection shows it, what was put. */
  lemma {:induction false} StepKeepsPlain(s: QState, e: Event)
    requires s.views.Closed() && (e.PutEvent? ==> ValidInput(e.input))
    ensures Project(Plain, Log(Step(s, e))) == Project(Plain, Log(s) + PutBy(e))
  {
    hide Step, Log, Put, Get, Project, Plain;
    var d := Delivered(s.responses);
    LogSteps(s, e);
    ProjectAppend(Plain, d, s.queue + PutBy(e));
    assert s.queue + [] == s.queue;
    match e
    case PutEvent(input) =>
      PutKeepsPlain(s.queue, input);
      ProjectAppend(Plain, d, Put(s.queue, input));
    case GetEvent =>
      if s.queue != [] {
        PlainHidesTiles();
        GetKeepsProjection(Plain, s.queue, s.views);
        ProjectAppend(Plain, d, Moved(Get(s.queue, s.views).0) + Get(s.queue, s.views).1);
      }
    case _ =>
  }

  /** Over any run, the messages that are never merged are delivered first in, first out: delivered
      ones followed by queued ones are exactly what was put, unchanged and in order. */
  lemma {:induction false} PlainMessagesStayInOrder(s: QState, events: seq<Event>)
    requires s.views.Valid() && ValidEvents(events)
    ensures Project(Plain, Log(Run(s, events))) == Project(Plain, Log(s) + History(events))
    decreases |events|
  {
    hide Step, Log, Project, PutBy;
    if events == [] {
      assert Log(s) + History(events) == Log(s);
    } else {
      var e, rest := events[0], events[1..];
      StepKeepsViews(s, e);
      PlainMessagesStayInOrder(Step(s, e), rest);
      StepKeepsPlain(s, e);
      ProjectAppend(Plain, Log(Step(s, e)), History(rest));
      ProjectAppend(Plain, Log(s) + PutBy(e), History(rest));
      HistoryGrows(Log(s), events);
    }
  }

  // ----- which text is merged ---------------------------------------------------------------

  /** The message text input of this client for this window is appended to: the latest such one with a text,
      if no single token, no interaction and no removal of the client lie behind it. */
  ghost predicate LatestText(q: seq<Message>, client: string, id: string, i: nat)
    requires i < |q|
  {
    && (match q[i] case TextInput(c, window, Some(_)) => c == client && window == Some(id) case _ => false)
    && forall j :: i < j < |q| ==>
         match q[j]
         case Bare(_) => false
         case Interaction(c, _, _) => c != client
         case RemoveText(c, _, _, _) => c != client
         case TextInput(c, window, text) => !(c == client && window == Some(id) && text.Some?)
         case _ => true
  }

  /** The same for the removal of text. */
  ghost predicate LatestRemoval(q: seq<Message>, client: string, id: string, i: nat)
    requires i < |q|
  {
    && (match q[i] case RemoveText(c, window, Some(_), Some(_)) => c == client && window == Some(id) case _ => false)
    && forall j :: i < j < |q| ==>
         match q[j]
         case Bare(_) => false
         case Interaction(c, _, _) => c != client
         case TextInput(c, _, _) => c != client
         case RemoveText(c, window, before, after) =>
           !(c == client && window == Some(id) && before.Some? && after.Some?)
         case _ => true
  }

  lemma {:induction false} TextSearch(q: seq<Message>, client: string, id: string, n: nat, i: nat)
    requires n <= |q| && i < n
    ensures FindTextInput(q, client, id, n) == Some(i) <==> LatestText(q[..n], client, id, i)
    decreases n
  {
    var m := q[n - 1];
    assert q[..n][..n - 1] == q[..n - 1] && q[..n][n - 1] == m;
    if i < n - 1 {
      TextSearch(q, client, id, n - 1, i);
      forall j | i < j < n - 1 ensures q[..n][j] == q[..n - 1][j] {
      }
    }
  }

  lemma {:induction false} RemovalSearch(q: seq<Message>, client: string, id: string, n: nat, i: nat)
    requires n <= |q| && i < n
    ensures FindRemoveText(q, client, id, n) == Some(i) <==> LatestRemoval(q[..n], client, id, i)
    decreases n
  {
    var m := q[n - 1];
    assert q[..n][..n - 1] == q[..n - 1] && q[..n][n - 1] == m;
    if i < n - 1 {
      RemovalSearch(q, client, id, n - 1, i);
      forall j | i < j < n - 1 ensures q[..n][j] == q[..n - 1][j] {
      }
    }
  }

  /** Text and removals are merged with exactly these. */
  lemma {:induction false} MergedExactly(q: seq<Message>, m: Message, i: nat)
    requires i < |q|
    ensures Found(q, m) == Some(i) <==>
            match m
            case TextInput(client, Some(id), Some(_)) => LatestText(q, client, id, i)
            case RemoveText(client, Some(id), Some(_), Some(_)) => LatestRemoval(q, client, id, i)
            case _ => false
  {
    assert q[..|q|] == q;
    match m
    case TextInput(client, Some(id), Some(_)) => TextSearch(q, client, id, |q|, i);
    case RemoveText(client, Some(id), Some(_), Some(_)) => RemovalSearch(q, client, id, |q|, i);
    case _ =>
  }

  // ----- text input and text removal --------------------------------------------------------

  /** Whose messages are looked at (None: those of all clients), for which window, and whether other
      commands than interactions count as well. */
  datatype Scope = Scope(client: Option<string>, window: string, commands: bool)

  predicate LooksAt(v: Scope, client: string) {
    v.client.None? || v.client.value == client
  }

  /** What a message does to a window: an interaction or another command, or an edit of the text, at the
      place where its client is. */
  datatype Edit =
    | Act(m: Message)
    | Insert(client: string, text: string)
    | Remove(client: string, before: int, after: int)

  function EditOf(v: Scope, m: Message): Option<Edit> {
    match m
    case Interaction(c, _, _) => if LooksAt(v, c) then Some(Act(m)) else None
    case Other(c, _) => if v.commands && LooksAt(v, c) then Some(Act(m)) else None
    case TextInput(c, Some(w), Some(text)) => if LooksAt(v, c) && w == v.window then Some(Insert(c, text)) else None
    case RemoveText(c, Some(w), Some(before), Some(after)) =>
      if LooksAt(v, c) && w == v.window then Some(Remove(c, before, after)) else None
    case _ => None
  }

  /** Something that counts lies behind position `k`. */
  ghost predicate ShowsBehind(v: Scope, q: seq<Message>, k: nat) {
    exists j :: k < j < |q| && EditOf(v, q[j]).Some?
  }

  /** Putting `m` moves queued text of the window across something that counts. */
  ghost predicate Overtakes(v: Scope, q: seq<Message>, m: Message) {
    EditOf(v, m).Some? && Found(q, m).Some? && ShowsBehind(v, q, Found(q, m).value)
  }

  ghost predicate InputOvertakes(v: Scope, q: seq<Message>, input: Input) {
    input.One? && Overtakes(v, q, input.m)
  }

  /** Insertions, or removals, of the same client. */
  predicate SameKind(e: Edit, f: Edit) {
    (e.Insert? && f.Insert? && e.client == f.client) || (e.Remove? && f.Remove? && e.client == f.client)
  }

  function Joined(e: Edit, f: Edit): Edit
    requires SameKind(e, f)
  {
    match e
    case Insert(c, text) => Insert(c, text + f.text)
    case Remove(c, before, after) => Remove(c, before + f.before, after + f.after)
  }

  predicate EndsInKind(s: seq<Edit>, e: Edit) {
    s != [] && SameKind(s[|s| - 1], e)
  }

  /** Appends an edit; adjacent insertions of a client are joined and adjacent removals added up. */
  function AddEdit(s: seq<Edit>, e: Edit): seq<Edit> {
    if EndsInKind(s, e) then s[..|s| - 1] + [Joined(s[|s| - 1], e)] else s + [e]
  }

  function AddMessage(v: Scope, s: seq<Edit>, m: Message): seq<Edit> {
    match EditOf(v, m)
    case None => s
    case Some(e) => AddEdit(s, e)
  }

  /** The edits of the messages, appended to `s`. */
  function Edits(v: Scope, s: seq<Edit>, msgs: seq<Message>): seq<Edit>
    decreases |msgs|
  {
    if msgs == [] then s else Edits(v, AddMessage(v, s, msgs[0]), msgs[1..])
  }

  lemma {:induction false} EditsAppend(v: Scope, s: seq<Edit>, a: seq<Message>, b: seq<Message>)
    ensures Edits(v, s, a + b) == Edits(v, Edits(v, s, a), b)
    decreases |a|
  {
    if a == [] {
      assert a + b == b;
    } else {
      assert (a + b)[1..] == a[1..] + b;
      EditsAppend(v, AddMessage(v, s, a[0]), a[1..], b);
    }
  }

  lemma {:induction false} EditsOne(v: Scope, s: seq<Edit>, m: Message)
    ensures Edits(v, s, [m]) == AddMessage(v, s, m)
  {
    assert [m][1..] == [];
  }

  lemma {:induction false} EditsNone(v: Scope, s: seq<Edit>, msgs: seq<Message>)
    requires forall i :: 0 <= i < |msgs| ==> EditOf(v, msgs[i]) == None
    ensures Edits(v, s, msgs) == s
    decreases |msgs|
  {
    if msgs != [] {
      EditsNone(v, s, msgs[1..]);
    }
  }

  /** Taking an edit out of the queue and appending the merged one gives the same edits, if nothing
      behind it counts. */
  lemma {:induction false} EditsMerge(v: Scope, s: seq<Edit>, q: seq<Message>, i: nat, m: Message, n: Message)
    requires i < |q|
    requires forall j :: i < j < |q| ==> EditOf(v, q[j]) == None
    requires forall t :: AddMessage(v, AddMessage(v, t, q[i]), m) == AddMessage(v, t, n)
    ensures Edits(v, s, RemoveAt(q, i) + [n]) == Edits(v, s, q + [m])
  {
    var front, back := q[..i], q[i + 1..];
    var t := Edits(v, s, front);
    assert RemoveAt(q, i) + [n] == front + (back + [n]);
    assert q + [m] == front + ([q[i]] + (back + [m]));
    EditsAppend(v, s, front, back + [n]);
    EditsAppend(v, t, back, [n]);
    EditsNone(v, t, back);
    EditsOne(v, t, n);
    var u := AddMessage(v, t, q[i]);
    EditsAppend(v, s, front, [q[i]] + (back + [m]));
    EditsAppend(v, t, [q[i]], back + [m]);
    EditsOne(v, t, q[i]);
    EditsAppend(v, u, back, [m]);
    EditsNone(v, u, back);
    EditsOne(v, u, m);
  }

  lemma {:induction false} JoinedInTurn(e: Edit, f: Edit, g: Edit)
    requires SameKind(e, f) && SameKind(f, g)
    ensures Joined(Joined(e, f), g) == Joined(e, Joined(f, g))
  {
    if e.Insert? {
      assert e.text + f.text + g.text == e.text + (f.text + g.text);
    }
  }

  lemma {:induction false} AddTwice(s: seq<Edit>, e: Edit, f: Edit)
    requires SameKind(e, f)
    ensures AddEdit(AddEdit(s, e), f) == AddEdit(s, Joined(e, f))
  {
    hide Joined, SameKind;
    SameKindMeans(e, f);
    if EndsInKind(s, e) {
      var front, d := s[..|s| - 1], s[|s| - 1];
      SameKindMeans(d, e);
      JoinedInTurn(d, e, f);
      assert (front + [Joined(d, e)])[..|front|] == front;
    } else {
      KindOfJoined(s, e, f);
      assert (s + [e])[..|s|] == s;
    }
  }

  lemma {:induction false} SameKindMeans(e: Edit, f: Edit)
    requires SameKind(e, f)
    ensures SameKind(Joined(e, f), f) && SameKind(f, e) && SameKind(e, Joined(e, f))
    ensures forall g :: SameKind(f, g) <==> SameKind(e, g)
    ensures forall g :: SameKind(g, f) <==> SameKind(g, e)
    ensures forall g :: SameKind(Joined(e, f), g) <==> SameKind(e, g)
    ensures forall g :: SameKind(g, Joined(e, f)) <==> SameKind(g, e)
  {
  }

  lemma {:induction false} KindOfJoined(s: seq<Edit>, e: Edit, f: Edit)
    requires SameKind(e, f)
    ensures EndsInKind(s, Joined(e, f)) <==> EndsInKind(s, e)
  {
  }

  /** Erasing a message that does not count. */
  lemma {:induction false} EditsRemove(v: Scope, s: seq<Edit>, q: seq<Message>, i: nat)
    requires i < |q| ==> EditOf(v, q[i]) == None
    ensures Edits(v, s, RemoveAt(q, i)) == Edits(v, s, q)
  {
    if i < |q| {
      var front, back := q[..i], q[i + 1..];
      assert q == front + ([q[i]] + back);
      EditsAppend(v, s, front, [q[i]] + back);
      EditsAppend(v, Edits(v, s, front), [q[i]], back);
      EditsOne(v, Edits(v, s, front), q[i]);
      EditsAppend(v, s, front, back);
    }
  }

  lemma {:induction false} EditsReplace(v: Scope, s: seq<Edit>, q: seq<Message>, i: nat, m: Message, n: Message)
    requires i < |q| && EditOf(v, q[i]) == None
    requires EditOf(v, m) == None && EditOf(v, n) == None
    ensures Edits(v, s, RemoveAt(q, i) + [n]) == Edits(v, s, q + [m])
  {
    EditsRemove(v, s, q, i);
    EditsAppend(v, s, RemoveAt(q, i), [n]);
    EditsAppend(v, s, q, [m]);
    EditsOne(v, Edits(v, s, q), n);
    EditsOne(v, Edits(v, s, q), m);
  }

  /** Merging text behind which nothing counts. */
  lemma {:induction false} BasePutKeepsEdits(v: Scope, s: seq<Edit>, q: seq<Message>, m: Message)
    requires !Overtakes(v, q, m)
    ensures Edits(v, s, BasePut(q, m)) == Edits(v, s, q + [m])
  {
    hide AddEdit, Edits, BasePut, Found, EditOf, Joined, SameKind, NoneJoins;
    BasePutMeans(q, m);
    if Found(q, m).Some? {
      var k := Found(q, m).value;
      var n := BasePut(q, m)[|q| - 1];
      if EditOf(v, m).Some? {
        FoundMeans(v, q, m);
        forall t: seq<Edit> ensures AddMessage(v, AddMessage(v, t, q[k]), m) == AddMessage(v, t, n) {
          AddTwice(t, EditOf(v, q[k]).value, EditOf(v, m).value);
        }
        EditsMerge(v, s, q, k, m, n);
      } else {
        FoundIsHidden(v, q, m);
        EditsReplace(v, s, q, k, m, n);
      }
    }
  }

  lemma {:induction false} FoundIsHidden(v: Scope, q: seq<Message>, m: Message)
    requires EditOf(v, m) == None && Found(q, m).Some?
    ensures EditOf(v, q[Found(q, m).value]) == None && |BasePut(q, m)| == |q|
    ensures EditOf(v, BasePut(q, m)[|q| - 1]) == None
  {
    hide FindTextInput, FindRemoveText;
  }

  lemma {:induction false} SweepKeepsEdits(v: Scope, s: seq<Edit>, q: seq<Message>,
                                           target: string, part: int, rect: Rect)
    ensures Edits(v, s, SweepQueue(q, target, part, rect).kept) == Edits(v, s, q)
    decreases |q|
  {
    if q != [] {
      match Judge(q[0], target, part, rect)
      case Keep =>
        var kept := SweepQueue(q[1..], target, part, rect).kept;
        assert ([q[0]] + kept)[1..] == kept;
        SweepKeepsEdits(v, AddMessage(v, s, q[0]), q[1..], target, part, rect);
      case Drop => SweepKeepsEdits(v, s, q[1..], target, part, rect);
      case Merge => SweepKeepsEdits(v, s, q[1..], target, part, Join(rect, RectOf(q[0].body.area)));
    }
  }

  lemma {:induction false} PutCallbackKeepsEdits(v: Scope, s: seq<Edit>, q: seq<Message>, m: Message)
    requires m.Callback?
    ensures Edits(v, s, PutCallback(q, m)) == Edits(v, s, q + [m])
  {
    EditsAppend(v, s, q, [m]);
    EditsOne(v, Edits(v, s, q), m);
    if m.body.Invalidate? {
      var w := SweepQueue(q, m.target, m.body.part, RectOf(m.body.area));
      var n := if w.merged then Callback(m.target, Invalidate(Some(w.rect), m.body.part)) else m;
      SweepKeepsEdits(v, s, q, m.target, m.body.part, RectOf(m.body.area));
      EditsAppend(v, s, w.kept, [n]);
      EditsOne(v, Edits(v, s, q), n);
    } else if KeyOf(m).Some? {
      var i := FindFirst(q, x => KeyOf(x) == KeyOf(m));
      EditsRemove(v, s, q, i);
      EditsAppend(v, s, RemoveAt(q, i), [m]);
    }
  }

  lemma {:induction false} PutTileKeepsEdits(v: Scope, s: seq<Edit>, q: seq<Message>, m: Message)
    requires m.Tile?
    ensures Edits(v, s, PutTile(q, m)) == Edits(v, s, q)
  {
    var i := FindFirst(q, x => IsTileDuplicate(m.raw, x));
    EditsRemove(v, s, q, i);
    EditsAppend(v, s, RemoveAt(q, i), [m]);
    EditsOne(v, Edits(v, s, q), m);
  }

  lemma {:induction false} PutTilesKeepsEdits(v: Scope, s: seq<Edit>, q: seq<Message>, tiles: seq<Message>)
    requires forall m :: m in tiles ==> m.Tile?
    ensures Edits(v, s, PutTiles(q, tiles)) == Edits(v, s, q)
    decreases |tiles|
  {
    if tiles != [] {
      PutTileKeepsEdits(v, s, q, tiles[0]);
      PutTilesKeepsEdits(v, s, PutTile(q, tiles[0]), tiles[1..]);
    }
  }

  lemma {:induction false} PutKeepsEdits(v: Scope, s: seq<Edit>, q: seq<Message>, input: Input)
    requires ValidInput(input) && !InputOvertakes(v, q, input)
    ensures Edits(v, s, Put(q, input)) == Edits(v, s, q + Messages(input))
  {
    match input
    case TileCombine(tiles) =>
      PutTilesKeepsEdits(v, s, q, tiles);
      EditsAppend(v, s, q, tiles);
      EditsNone(v, Edits(v, s, q), tiles);
    case One(m) =>
      match m
      case Tile(_, _, _) =>
        PutTileKeepsEdits(v, s, q, m);
        EditsAppend(v, s, q, [m]);
        EditsNone(v, Edits(v, s, q), [m]);
      case Callback(_, _) => PutCallbackKeepsEdits(v, s, q, m);
      case _ => BasePutKeepsEdits(v, s, q, m);
  }

  // ----- when a put keeps the order ---------------------------------------------------------

  /** Inserts or removes nothing. */
  predicate IsNothing(e: Edit) {
    (e.Insert? && e.text == "") || (e.Remove? && e.before == e.after == 0)
  }

  /** None of the messages would be merged with the edit. */
  ghost predicate NoneJoins(v: Scope, msgs: seq<Message>, e: Edit) {
    forall i :: 0 <= i < |msgs| && EditOf(v, msgs[i]).Some? ==> !SameKind(EditOf(v, msgs[i]).value, e)
  }

  /** What is found and the message that it is merged with, as edits of the window. */
  lemma {:induction false} FoundMeans(v: Scope, q: seq<Message>, m: Message)
    requires EditOf(v, m).Some? && Found(q, m).Some?
    ensures var k := Found(q, m).value;
            var e := EditOf(v, q[k]);
            && e.Some? && SameKind(e.value, EditOf(v, m).value)
            && NoneJoins(v, q[k + 1..], e.value)
            && |BasePut(q, m)| == |q| && BasePut(q, m) == RemoveAt(q, k) + [BasePut(q, m)[|q| - 1]]
            && EditOf(v, BasePut(q, m)[|q| - 1]) == Some(Joined(e.value, EditOf(v, m).value))
  {
    hide Found, BasePut, EditOf, NoneJoins;
    FoundIsMerged(v, q, m);
    NoneJoinsBehind(v, q, m);
  }

  lemma {:induction false} FoundIsMerged(v: Scope, q: seq<Message>, m: Message)
    requires EditOf(v, m).Some? && Found(q, m).Some?
    ensures var k := Found(q, m).value;
            var e := EditOf(v, q[k]);
            && e.Some? && SameKind(e.value, EditOf(v, m).value)
            && |BasePut(q, m)| == |q| && BasePut(q, m) == RemoveAt(q, k) + [BasePut(q, m)[|q| - 1]]
            && EditOf(v, BasePut(q, m)[|q| - 1]) == Some(Joined(e.value, EditOf(v, m).value))
  {
    hide FindTextInput, FindRemoveText;
  }

  lemma {:induction false} NoneJoinsBehind(v: Scope, q: seq<Message>, m: Message)
    requires EditOf(v, m).Some? && Found(q, m).Some?
    ensures EditOf(v, q[Found(q, m).value]).Some?
    ensures NoneJoins(v, q[Found(q, m).value + 1..], EditOf(v, q[Found(q, m).value]).value)
  {
    hide FindTextInput, FindRemoveText;
    var k := Found(q, m).value;
    var back := q[k + 1..];
    forall i | 0 <= i < |back| ensures back[i] == q[k + 1 + i] {
    }
  }

  /** Of a single client only its other commands can lie between. */
  lemma {:induction false} OwnTextOvertakes(v: Scope, q: seq<Message>, m: Message)
    requires v.client.Some? && EditOf(v, m).Some? && Found(q, m).Some?
    ensures Overtakes(v, q, m) <==>
            v.commands && exists j :: Found(q, m).value < j < |q| && q[j].Other? && q[j].client == v.client.value
  {
    hide FindTextInput, FindRemoveText;
    if j :| Found(q, m).value < j < |q| && q[j].Other? && q[j].client == v.client.value && v.commands {
      assert EditOf(v, q[j]).Some?;
    }
  }

  /** The edits of messages of which none joins what was there, and one at least shows. */
  lemma {:induction false} EditsApart(v: Scope, u: seq<Edit>, msgs: seq<Message>, e: Edit)
    requires EndsInKind(u, e) && NoneJoins(v, msgs, e)
    ensures Edits(v, u, msgs) == u + Edits(v, [], msgs)
    decreases |msgs|
  {
    hide EditOf, SameKind, Joined;
    if msgs != [] {
      assert msgs[0] == msgs[..1][0];
      assert NoneJoins(v, msgs[1..], e);
      match EditOf(v, msgs[0])
      case None => EditsApart(v, u, msgs[1..], e);
      case Some(f) =>
        OtherKind(u[|u| - 1], e, f);
        assert AddEdit([], f) == [f];
        EditsFrom(v, u, [f], msgs[1..]);
    } else {
      assert u + [] == u;
    }
  }

  lemma {:induction false} OtherKind(d: Edit, e: Edit, f: Edit)
    requires SameKind(d, e) && !SameKind(f, e)
    ensures !SameKind(d, f)
  {
  }

  /** What is in front of the last edit stays as it is. */
  lemma {:induction false} EditsFrom(v: Scope, u: seq<Edit>, w: seq<Edit>, msgs: seq<Message>)
    requires w != []
    ensures Edits(v, u + w, msgs) == u + Edits(v, w, msgs)
    decreases |msgs|
  {
    hide EditOf, SameKind, Joined;
    if msgs != [] {
      match EditOf(v, msgs[0])
      case None => EditsFrom(v, u, w, msgs[1..]);
      case Some(e) =>
        assert (u + w)[|u + w| - 1] == w[|w| - 1];
        assert AddEdit(u + w, e) == u + AddEdit(w, e) by {
          assert (u + w)[..|u + w| - 1] == u + w[..|w| - 1];
        }
        EditsFrom(v, u, AddEdit(w, e), msgs[1..]);
    }
  }

  /** Joining with what was there can only make the list shorter. */
  lemma {:induction false} EditsLength(v: Scope, t: seq<Edit>, x: seq<Edit>, w: seq<Edit>, msgs: seq<Message>)
    requires |x| <= |t| + |w|
    requires w == [] || (x != [] && forall e :: EndsInKind(x, e) <==> EndsInKind(w, e))
    ensures |Edits(v, x, msgs)| <= |t| + |Edits(v, w, msgs)|
    decreases |msgs|
  {
    hide EditOf, SameKind, Joined;
    if msgs != [] {
      match EditOf(v, msgs[0])
      case None => EditsLength(v, t, x, w, msgs[1..]);
      case Some(e) =>
        AddedKind(x, e);
        AddedKind(w, e);
        EditsLength(v, t, AddEdit(x, e), AddEdit(w, e), msgs[1..]);
    }
  }

  lemma {:induction false} AddedKind(s: seq<Edit>, e: Edit)
    ensures AddEdit(s, e) != [] && forall f :: EndsInKind(AddEdit(s, e), f) <==> SameKind(e, f)
  {
    if EndsInKind(s, e) {
      SameKindMeans(s[|s| - 1], e);
    }
  }

  /** If something shows, the last edit is of that. */
  lemma {:induction false} LastShows(v: Scope, t: seq<Edit>, msgs: seq<Message>, e: Edit, j: nat)
    requires NoneJoins(v, msgs, e) && j < |msgs| && EditOf(v, msgs[j]).Some?
    ensures !EndsInKind(Edits(v, t, msgs), e)
    decreases |msgs|
  {
    hide EditOf, SameKind, AddEdit;
    var last := |msgs| - 1;
    assert msgs == msgs[..last] + [msgs[last]];
    EditsAppend(v, t, msgs[..last], [msgs[last]]);
    EditsOne(v, Edits(v, t, msgs[..last]), msgs[last]);
    if EditOf(v, msgs[last]).Some? {
      AddedKind(Edits(v, t, msgs[..last]), EditOf(v, msgs[last]).value);
    } else {
      assert msgs[..last][j] == msgs[j];
      LastShows(v, t, msgs[..last], e, j);
    }
  }

  /** The edits before and after merging text across something. */
  lemma {:induction false} EditsAcross(v: Scope, s: seq<Edit>, q: seq<Message>, m: Message)
    requires Overtakes(v, q, m)
    ensures var k := Found(q, m).value;
            var (t, back) := (Edits(v, s, q[..k]), q[k + 1..]);
            var (e1, e2) := (EditOf(v, q[k]), EditOf(v, m));
            && e1.Some? && SameKind(e1.value, e2.value) && NoneJoins(v, back, e1.value)
            && Edits(v, s, BasePut(q, m)) == Edits(v, t, back) + [Joined(e1.value, e2.value)]
            && Edits(v, s, q + [m]) == Edits(v, AddEdit(t, e1.value), back) + [e2.value]
  {
    hide EditOf, Edits, BasePut, Found, NoneJoins, Joined, SameKind, AddEdit, RemoveAt;
    FoundMeans(v, q, m);
    var k := Found(q, m).value;
    var back, e1, e2 := q[k + 1..], EditOf(v, q[k]).value, EditOf(v, m).value;
    var j :| k < j < |q| && EditOf(v, q[j]).Some?;
    assert back[j - k - 1] == q[j];
    AroundFound(q, k, m, BasePut(q, m)[|q| - 1]);
    AppendBehind(v, s, q[..k], back, j - k - 1, BasePut(q, m)[|q| - 1], e1, e2);
    AppendBehind(v, s, q[..k] + [q[k]], back, j - k - 1, m, e1, e2);
    EditsAppend(v, s, q[..k], [q[k]]);
    EditsOne(v, Edits(v, s, q[..k]), q[k]);
  }

  lemma {:induction false} AroundFound(q: seq<Message>, k: nat, m: Message, n: Message)
    requires k < |q|
    ensures RemoveAt(q, k) + [n] == q[..k] + q[k + 1..] + [n]
    ensures q + [m] == q[..k] + [q[k]] + q[k + 1..] + [m]
  {
  }

  lemma {:induction false} AppendBehind(v: Scope, s: seq<Edit>, front: seq<Message>, back: seq<Message>, j: nat,
                                        n: Message, e1: Edit, e2: Edit)
    requires NoneJoins(v, back, e1) && j < |back| && EditOf(v, back[j]).Some? && SameKind(e1, e2)
    requires EditOf(v, n) == Some(e2) || EditOf(v, n) == Some(Joined(e1, e2))
    ensures Edits(v, s, front + back + [n]) == Edits(v, Edits(v, s, front), back) + [EditOf(v, n).value]
  {
    hide EditOf, Edits, NoneJoins, Joined, SameKind, EndsInKind;
    EditsAppend(v, s, front + back, [n]);
    EditsAppend(v, s, front, back);
    var u := Edits(v, Edits(v, s, front), back);
    EditsOne(v, u, n);
    LastShows(v, Edits(v, s, front), back, e1, j);
    SameEnd(u, e1, e2);
  }

  lemma {:induction false} SameEnd(u: seq<Edit>, e1: Edit, e2: Edit)
    requires SameKind(e1, e2)
    ensures EndsInKind(u, e2) <==> EndsInKind(u, e1)
    ensures EndsInKind(u, Joined(e1, e2)) <==> EndsInKind(u, e1)
  {
  }

  lemma {:induction false} NothingAdded(e: Edit, f: Edit)
    requires SameKind(e, f)
    ensures IsNothing(f) <==> Joined(e, f) == e
    ensures IsNothing(f) <==> Joined(f, e) == e
  {
    if e.Insert? {
      assert |e.text + f.text| == |e.text| + |f.text|;
      assert e.text + "" == e.text && "" + e.text == e.text;
    }
  }

  /** Something between two edits that would be merged is noticed unless the first one is empty and
      disappears in an edit before it. */
  lemma {:induction false} AcrossIsNoticed(v: Scope, t: seq<Edit>, back: seq<Message>, e1: Edit, e2: Edit)
    requires SameKind(e1, e2) && NoneJoins(v, back, e1)
    ensures Edits(v, t, back) + [Joined(e1, e2)] == Edits(v, AddEdit(t, e1), back) + [e2] <==>
            IsNothing(e1) && EndsInKind(t, e1)
  {
    hide EditOf, Edits, NoneJoins, Joined, SameKind, IsNothing;
    var merged, fifo := Edits(v, t, back) + [Joined(e1, e2)], Edits(v, AddEdit(t, e1), back) + [e2];
    SameKindMeans(e1, e2);
    NothingAdded(e2, e1);
    if EndsInKind(t, e1) {
      var n := |t| - 1;
      NothingAdded(t[n], e1);
      assert IsNothing(e1) ==> AddEdit(t, e1) == t;
    } else {
      AddedKind(t, e1);
      EditsApart(v, t + [e1], back, e1);
      EditsLength(v, t, t, [], back);
    }
    if merged == fifo {
      assert merged[|merged| - 1] == fifo[|fifo| - 1];
      assert merged[..|merged| - 1] == Edits(v, t, back) && fifo[..|fifo| - 1] == Edits(v, AddEdit(t, e1), back);
    }
  }

  /** A put keeps what is done to a window, in order, exactly if it does not move queued text across
      something that counts - or what it moves is empty and next to an edit of its kind. */
  lemma {:induction false} PutKeepsEditsExactly(v: Scope, s: seq<Edit>, q: seq<Message>, input: Input)
    requires ValidInput(input)
    ensures Edits(v, s, Put(q, input)) == Edits(v, s, q + Messages(input)) <==>
            !InputOvertakes(v, q, input) || MovesNothing(v, s, q, input.m)
  {
    hide Edits, AddEdit, IsNothing, EndsInKind, Found;
    if InputOvertakes(v, q, input) {
      var k := Found(q, input.m).value;
      FoundMeans(v, q, input.m);
      EditsAcross(v, s, q, input.m);
      AcrossIsNoticed(v, Edits(v, s, q[..k]), q[k + 1..], EditOf(v, q[k]).value, EditOf(v, input.m).value);
      assert Put(q, input) == BasePut(q, input.m) by { OvertakingIsText(v, q, input); }
    } else {
      PutKeepsEdits(v, s, q, input);
    }
  }

  lemma {:induction false} OvertakingIsText(v: Scope, q: seq<Message>, input: Input)
    requires InputOvertakes(v, q, input)
    ensures ValidInput(input) && Put(q, input) == BasePut(q, input.m)
  {
  }

  /** The queued text that putting `m` moves is empty and follows an edit of its kind. */
  ghost predicate MovesNothing(v: Scope, s: seq<Edit>, q: seq<Message>, m: Message)
    requires Overtakes(v, q, m)
  {
    FoundMeans(v, q, m);
    var k := Found(q, m).value;
    IsNothing(EditOf(v, q[k]).value) && EndsInKind(Edits(v, s, q[..k]), EditOf(v, q[k]).value)
  }

  lemma {:induction false} NotCombinedKeepsEdits(v: Scope, s: seq<Edit>, q: seq<Message>, first: TileDesc)
    ensures Edits(v, s, NotCombined(q, first)) == Edits(v, s, q)
    decreases |q|
  {
    if q != [] {
      NotCombinedKeepsEdits(v, AddMessage(v, s, q[0]), q[1..], first);
      if !(IsPlainTile(q[0]) && CanCombine(first, q[0].desc)) {
        assert NotCombined(q, first)[1..] == NotCombined(q[1..], first);
      } else {
        assert NotCombined(q, first) == NotCombined(q[1..], first);
      }
    }
  }

  lemma {:induction false} GetKeepsEdits(v: Scope, s: seq<Edit>, q: seq<Message>, views: Views)
    requires q != [] && views.Closed()
    ensures var (response, rest) := Get(q, views);
            Edits(v, s, Moved(response) + rest) ==
            Edits(v, s, q)
  {
    hide Edits, EditOf, Get, NotCombined, Best, LeadingPreviews, LeadingTiles;
    GetMeans(q, views);
    var (response, rest) := Get(q, views);
    if !q[0].Tile? {
      assert [q[0]] + q[1..] == q;
    } else if q[0].preview {
      var t := q[1..];
      var n := LeadingPreviews(t);
      PreviewsAreNoEdits(v, t[..n]);
      EditsAppend(v, s, [q[0]], rest);
      EditsAppend(v, s, [q[0]], t);
      var u := Edits(v, s, [q[0]]);
      EditsAppend(v, u, t[n..], t[..n]);
      EditsNone(v, Edits(v, u, t[n..]), t[..n]);
      EditsAppend(v, u, t[..n], t[n..]);
      EditsNone(v, u, t[..n]);
      assert t[..n] + t[n..] == t && [q[0]] + t == q;
    } else {
      var b := Best(q, views, LeadingTiles(q));
      TilesAreNoEdits(v, q[b]);
      EditsRemove(v, s, q, b);
      NotCombinedKeepsEdits(v, s, RemoveAt(q, b), q[b].desc);
      assert [] + rest == rest;
    }
  }

  lemma {:induction false} PreviewsAreNoEdits(v: Scope, msgs: seq<Message>)
    requires forall i :: 0 <= i < |msgs| ==> IsPreview(msgs[i])
    ensures forall i :: 0 <= i < |msgs| ==> EditOf(v, msgs[i]) == None
  {
  }

  lemma {:induction false} TilesAreNoEdits(v: Scope, m: Message)
    requires m.Tile?
    ensures EditOf(v, m) == None
  {
  }

  lemma {:induction false} StepKeepsEdits(v: Scope, s: QState, e: Event)
    requires s.views.Closed() && (e.PutEvent? ==> ValidInput(e.input) && !InputOvertakes(v, s.queue, e.input))
    ensures Edits(v, [], Log(Step(s, e))) == Edits(v, [], Log(s) + PutBy(e))
  {
    hide Step, Log, Put, Get, Edits;
    var d := Delivered(s.responses);
    var t := Edits(v, [], d);
    LogSteps(s, e);
    EditsAppend(v, [], d, s.queue + PutBy(e));
    assert s.queue + [] == s.queue;
    match e
    case PutEvent(input) =>
      PutKeepsEdits(v, t, s.queue, input);
      EditsAppend(v, [], d, Put(s.queue, input));
    case GetEvent =>
      if s.queue != [] {
        GetKeepsEdits(v, t, s.queue, s.views);
        EditsAppend(v, [], d, Moved(Get(s.queue, s.views).0) + Get(s.queue, s.views).1);
      }
    case _ =>
  }

  /** No put of the run moves text of the window across something that counts. */
  ghost predicate Orderly(v: Scope, s: QState, events: seq<Event>)
    requires s.views.Valid() && ValidEvents(events)
    decreases |events|
  {
    events == [] ||
    (StepKeepsViews(s, events[0]);
     && (events[0].PutEvent? ==> !InputOvertakes(v, s.queue, events[0].input))
     && Orderly(v, Step(s, events[0]), events[1..]))
  }

  /** What a single client does, its other commands left out. */
  predicate OwnEditsOnly(v: Scope) {
    v.client.Some? && !v.commands
  }

  lemma {:induction false} OwnEditsAreOrderly(v: Scope, s: QState, events: seq<Event>)
    requires s.views.Valid() && ValidEvents(events) && OwnEditsOnly(v)
    ensures Orderly(v, s, events)
    decreases |events|
  {
    hide Step, Overtakes;
    if events != [] {
      StepKeepsViews(s, events[0]);
      if events[0].PutEvent? {
        OwnEditsStayPut(v, s.queue, events[0].input);
      }
      OwnEditsAreOrderly(v, Step(s, events[0]), events[1..]);
    }
  }

  lemma {:induction false} OwnEditsStayPut(v: Scope, q: seq<Message>, input: Input)
    requires OwnEditsOnly(v)
    ensures !InputOvertakes(v, q, input)
  {
    hide EditOf, Found, ShowsBehind;
    if input.One? && EditOf(v, input.m).Some? && Found(q, input.m).Some? {
      OwnTextOvertakes(v, q, input.m);
    }
  }

  /** Over any orderly run, merging never changes what interactions, commands, insertions and removals
      of all clients, or of one, are done to a window: the edits delivered or queued are those of plain
      first in, first out.  Every run is orderly if only one client's interactions and text are looked
      at. */
  lemma {:induction false} EditsAreThoseOfFifo(v: Scope, s: QState, events: seq<Event>)
    requires s.views.Valid() && ValidEvents(events)
    ensures OwnEditsOnly(v) || Orderly(v, s, events) ==>
              Edits(v, [], Log(Run(s, events))) == Edits(v, [], Log(s) + History(events))
  {
    hide Step, Run, Edits;
    if OwnEditsOnly(v) {
      OwnEditsAreOrderly(v, s, events);
    }
    if Orderly(v, s, events) {
      OrderlyKeepsEdits(v, s, events);
    }
  }

  lemma {:induction false} OrderlyKeepsEdits(v: Scope, s: QState, events: seq<Event>)
    requires s.views.Valid() && ValidEvents(events) && Orderly(v, s, events)
    ensures Edits(v, [], Log(Run(s, events))) == Edits(v, [], Log(s) + History(events))
    decreases |events|
  {
    hide Step, Log, Edits, PutBy, InputOvertakes;
    if events == [] {
      assert Log(s) + History(events) == Log(s);
    } else {
      var e, rest := events[0], events[1..];
      StepKeepsViews(s, e);
      OrderlyKeepsEdits(v, Step(s, e), rest);
      StepKeepsEdits(v, s, e);
      EditsAppend(v, [], Log(Step(s, e)), History(rest));
      EditsAppend(v, [], Log(s) + PutBy(e), History(rest));
      HistoryGrows(Log(s), events);
    }
  }
}
