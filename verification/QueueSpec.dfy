/**
 The messages of the tile queue and what put and get do to the sequence of queued messages
 (common/MessageQueue.cpp, common/MessageQueue.hpp), as functions.  The methods that loop over the
 queue are in `TileQueues`, what the functions keep over whole runs is in `QueueRuns`.

 A message is kept in parsed form.  A tile message also keeps its text, because duplicates are
 found by comparing text.
*/
module QueueSpec {

  import opened Arithmetic
  import opened Sequences
  import opened Wrappers
  import opened TileDescs

  datatype InteractionKind = Key | Mouse | WindowKey

  /** Callback types whose latest value makes an earlier one obsolete; the View kinds carry the id of
      the view they are about. */
  datatype CursorKind = VisibleCursor | CursorVisible | IndicatorValue | DocumentSize | CellCursor

  datatype ViewKind = ViewCursor | CellViewCursor | ViewCursorVisible

  datatype CallbackBody =
    | Invalidate(area: Option<Rect>, part: int)   // area None: the EMPTY form
    | State(command: string, value: string)       // a state change of a .uno: command
    | Cursor(kind: CursorKind, payload: string)
    | View(viewKind: ViewKind, viewId: string, viewPayload: string)
    | OtherCallback(callbackType: int, otherPayload: string)

  datatype Message =
    | Tile(raw: string, desc: TileDesc, preview: bool)    // preview: it has an id token
    | Callback(target: string, body: CallbackBody)
    | TextInput(client: string, id: Option<string>, text: Option<string>)
    | RemoveText(client: string, id: Option<string>, before: Option<int>, after: Option<int>)
    | Interaction(client: string, kind: InteractionKind, rest: string)
    | Bare(token: string)                                 // a single token
    | Other(client: string, payload: string)

  // ----- searching and erasing --------------------------------------------------------------

  /** The first index at which `p` holds, or the length. */
  function FindFirst<T>(q: seq<T>, p: T -> bool): (r: nat)
    ensures r <= |q|
    ensures r < |q| ==> p(q[r])
    ensures forall i :: 0 <= i < r ==> !p(q[i])
  {
    if q == [] then 0 else if p(q[0]) then 0 else 1 + FindFirst(q[1..], p)
  }

  // ----- text input and text removal --------------------------------------------------------

  /** Messages that text of `client` must not move across. */
  predicate BlocksText(client: string, m: Message) {
    m.Bare? || (m.Interaction? && m.client == client)
  }

  predicate BlocksTextInput(client: string, m: Message) {
    BlocksText(client, m) || (m.RemoveText? && m.client == client)
  }

  predicate BlocksRemoveText(client: string, m: Message) {
    BlocksText(client, m) || (m.TextInput? && m.client == client)
  }

  predicate MergesTextInput(client: string, id: string, m: Message) {
    m.TextInput? && m.client == client && m.id == Some(id) && m.text.Some?
  }

  predicate MergesRemoveText(client: string, id: string, m: Message) {
    m.RemoveText? && m.client == client && m.id == Some(id) && m.before.Some? && m.after.Some?
  }

  /** The source's backward search over the first `n` messages: stops at a blocking message. */
  function FindTextInput(q: seq<Message>, client: string, id: string, n: nat): (r: Option<nat>)
    requires n <= |q|
    ensures r.Some? ==>
              && r.value < n && MergesTextInput(client, id, q[r.value])
              && forall i :: r.value < i < n ==> !BlocksTextInput(client, q[i]) && !MergesTextInput(client, id, q[i])
  {
    if n == 0 || BlocksTextInput(client, q[n - 1]) then None
    else if MergesTextInput(client, id, q[n - 1]) then Some(n - 1)
    else FindTextInput(q, client, id, n - 1)
  }

  function FindRemoveText(q: seq<Message>, client: string, id: string, n: nat): (r: Option<nat>)
    requires n <= |q|
    ensures r.Some? ==>
              && r.value < n && MergesRemoveText(client, id, q[r.value])
              && forall i :: r.value < i < n ==> !BlocksRemoveText(client, q[i]) && !MergesRemoveText(client, id, q[i])
  {
    if n == 0 || BlocksRemoveText(client, q[n - 1]) then None
    else if MergesRemoveText(client, id, q[n - 1]) then Some(n - 1)
    else FindRemoveText(q, client, id, n - 1)
  }

  /** The queued message that putting `m` would take out and merge with. */
  function Found(q: seq<Message>, m: Message): (r: Option<nat>)
    ensures r.Some? ==> r.value < |q|
  {
    match m
    case TextInput(client, Some(id), Some(text)) => FindTextInput(q, client, id, |q|)
    case RemoveText(client, Some(id), Some(before), Some(after)) => FindRemoveText(q, client, id, |q|)
    case _ => None
  }

  /** MessageQueue::put_impl. */
  function BasePut(q: seq<Message>, m: Message): seq<Message> {
    match m
    case TextInput(client, Some(id), Some(text)) =>
      (match FindTextInput(q, client, id, |q|)
       case None => q + [m]
       case Some(i) => RemoveAt(q, i) + [TextInput(client, Some(id), Some(q[i].text.value + text))])
    case RemoveText(client, Some(id), Some(before), Some(after)) =>
      (match FindRemoveText(q, client, id, |q|)
       case None => q + [m]
       case Some(i) =>
         RemoveAt(q, i) +
         [RemoveText(client, Some(id), Some(q[i].before.value + before), Some(q[i].after.value + after))])
    case _ => q + [m]
  }

  // ----- tiles ------------------------------------------------------------------------------

  /** The position of the first occurrence of `pattern`, or None. */
  function Find(s: string, pattern: string): (r: Option<nat>)
    ensures r.Some? ==> r.value + |pattern| <= |s| && s[r.value..r.value + |pattern|] == pattern
  {
    if |s| < |pattern| then None
    else if s[..|pattern|] == pattern then Some(0)
    else if s == [] then None
    else
      match Find(s[1..], pattern)
      case None => None
      case Some(i) => assert s[1..][i..i + |pattern|] == s[i + 1..i + 1 + |pattern|]; Some(i + 1)
  }

  /** How much of a tile message counts when duplicates are sought: all before " ver", else all but
      the last character. */
  function KeyLength(raw: string): (n: nat)
    ensures n <= |raw|
  {
    match Find(raw, " ver")
    case Some(i) => i
    case None => if raw == [] then 0 else |raw| - 1
  }

  /** The queued message `m` is superseded by a new tile message with text `raw`. */
  predicate IsTileDuplicate(raw: string, m: Message) {
    var n := KeyLength(raw);
    m.Tile? && |m.raw| > n && m.raw[..n] == raw[..n]
  }

  function PutTile(q: seq<Message>, m: Message): seq<Message>
    requires m.Tile?
  {
    RemoveAt(q, FindFirst(q, x => IsTileDuplicate(m.raw, x))) + [m]
  }

  function PutTiles(q: seq<Message>, tiles: seq<Message>): seq<Message>
    requires forall m :: m in tiles ==> m.Tile?
    decreases |tiles|
  {
    if tiles == [] then q else PutTiles(PutTile(q, tiles[0]), tiles[1..])
  }

  // ----- callbacks --------------------------------------------------------------------------

  datatype CallbackKey =
    | StateKey(target: string, command: string)
    | CursorKey(target: string, kind: CursorKind)
    | ViewKey(target: string, viewKind: ViewKind, viewId: string)

  /** What a callback is the latest value of; None if it never makes another one obsolete. */
  function KeyOf(m: Message): Option<CallbackKey> {
    match m
    case Callback(target, State(command, value)) =>
      if command == ".uno:ModifiedStatus" then None else Some(StateKey(target, command))
    case Callback(target, Cursor(kind, payload)) => Some(CursorKey(target, kind))
    case Callback(target, View(viewKind, viewId, payload)) => Some(ViewKey(target, viewKind, viewId))
    case _ => None
  }

  const INT_MAX: int := 0x7fff_ffff
  const REASONABLE_SIZE_X: int := 15360
  const REASONABLE_SIZE_Y: int := 7680

  /** extractRectangle: the EMPTY form stands for everything. */
  function RectOf(area: Option<Rect>): Rect {
    match area
    case None => Rect(0, 0, INT_MAX, INT_MAX)
    case Some(r) => r
  }

  predicate IsInvalidation(target: string, part: int, m: Message) {
    m.Callback? && m.target == target && m.body.Invalidate? && m.body.part == part
  }

  predicate Covers(r: Rect, s: Rect) {
    r.x <= s.x && s.x + s.w <= r.x + r.w && r.y <= s.y && s.y + s.h <= r.y + r.h
  }

  function Max(a: int, b: int): int { if a > b then a else b }

  function Join(r: Rect, s: Rect): Rect {
    var x, y := Min(r.x, s.x), Min(r.y, s.y);
    Rect(x, y, Max(r.x + r.w, s.x + s.w) - x, Max(r.y + r.h, s.y + s.h) - y)
  }

  datatype Sweep = Sweep(kept: seq<Message>, rect: Rect, merged: bool)

  /** What the sweep does with one queued message: keep it, drop it because the rectangle covers it,
      or merge it into the rectangle. */
  datatype Verdict = Keep | Drop | Merge

  function Judge(m: Message, target: string, part: int, rect: Rect): Verdict {
    if !IsInvalidation(target, part, m) then Keep
    else
      var queued := RectOf(m.body.area);
      if Covers(rect, queued) then Drop
      else if RectanglesIntersect(rect, queued) then
        var j := Join(rect, queued);
        if j.w > REASONABLE_SIZE_X || j.h > REASONABLE_SIZE_Y then Keep else Merge
      else Keep
  }

  /** One pass over the queue: drops the invalidations that `rect` covers and merges those it
      touches into `rect`, which grows on the way. */
  function SweepQueue(q: seq<Message>, target: string, part: int, rect: Rect): Sweep {
    if q == [] then Sweep([], rect, false)
    else
      match Judge(q[0], target, part, rect)
      case Keep => var s := SweepQueue(q[1..], target, part, rect); s.(kept := [q[0]] + s.kept)
      case Drop => SweepQueue(q[1..], target, part, rect)
      case Merge =>
        SweepQueue(q[1..], target, part, Join(rect, RectOf(q[0].body.area))).(merged := true)
  }

  function PutCallback(q: seq<Message>, m: Message): seq<Message>
    requires m.Callback?
  {
    if m.body.Invalidate? then
      var s := SweepQueue(q, m.target, m.body.part, RectOf(m.body.area));
      s.kept + [if s.merged then Callback(m.target, Invalidate(Some(s.rect), m.body.part)) else m]
    else if KeyOf(m).Some? then
      RemoveAt(q, FindFirst(q, x => KeyOf(x) == KeyOf(m))) + [m]
    else
      q + [m]
  }

  // ----- put --------------------------------------------------------------------------------

  datatype Input =
    | One(m: Message)
    | TileCombine(tiles: seq<Message>)

  ghost predicate ValidInput(input: Input) {
    input.TileCombine? ==> forall m :: m in input.tiles ==> m.Tile?
  }

  /** TileQueue::put_impl, without canceltiles. */
  function Put(q: seq<Message>, input: Input): seq<Message>
    requires ValidInput(input)
  {
    match input
    case TileCombine(tiles) => PutTiles(q, tiles)
    case One(m) => if m.Tile? then PutTile(q, m) else if m.Callback? then PutCallback(q, m) else BasePut(q, m)
  }

  // ----- get --------------------------------------------------------------------------------

  datatype CursorPosition = CursorPosition(part: int, rect: Rect)

  /** The views in the order of their last cursor movement (the latest last), and their cursors. */
  datatype Views = Views(order: seq<int>, cursors: map<int, CursorPosition>) {
    /** Every view in the order has a cursor. */
    ghost predicate Closed() {
      forall i :: 0 <= i < |order| ==> order[i] in cursors
    }

    ghost predicate Valid() {
      && Closed()
      && (forall i, j :: 0 <= i < j < |order| ==> order[i] != order[j])
      && (forall v :: v in cursors ==> v in order)
    }
  }

  /** The highest index below `n` of a view whose cursor the tile meets, else -1. */
  function PriorityBelow(views: Views, desc: TileDesc, n: nat): (p: int)
    requires n <= |views.order| && views.Closed()
    ensures -1 <= p < n
    ensures p >= 0 ==> IntersectsWithRect(desc, views.cursors[views.order[p]].rect)
    ensures forall i :: p < i < n ==> !IntersectsWithRect(desc, views.cursors[views.order[i]].rect)
  {
    if n == 0 then -1
    else
      if IntersectsWithRect(desc, views.cursors[views.order[n - 1]].rect) then n - 1
      else PriorityBelow(views, desc, n - 1)
  }

  function Priority(views: Views, desc: TileDesc): (p: int)
    requires views.Closed()
    ensures -1 <= p < |views.order|
  {
    PriorityBelow(views, desc, |views.order|)
  }

  predicate IsPlainTile(m: Message) {
    m.Tile? && !m.preview
  }

  predicate IsPreview(m: Message) {
    m.Tile? && m.preview
  }

  datatype Response =
    | Whole(m: Message)
    | Tiles(descs: seq<TileDesc>)

  /** The number of previews the queue starts with. */
  function LeadingPreviews(q: seq<Message>): (n: nat)
    ensures n <= |q|
    ensures forall i :: 0 <= i < n ==> IsPreview(q[i])
    ensures n < |q| ==> !IsPreview(q[n])
  {
    FindFirst(q, m => !IsPreview(m))
  }

  /** deprioritizePreviews: the leading previews go to the end, in order. */
  function Deprioritize(q: seq<Message>): seq<Message> {
    q[LeadingPreviews(q)..] + q[..LeadingPreviews(q)]
  }

  /** The number of plain tiles the queue starts with: the search for the tile to take stays in
      this part. */
  function LeadingTiles(q: seq<Message>): (n: nat)
    ensures n <= |q|
    ensures forall i :: 0 <= i < n ==> IsPlainTile(q[i])
    ensures n < |q| ==> !IsPlainTile(q[n])
  {
    FindFirst(q, m => !IsPlainTile(m))
  }

  /** The earliest of the first `n` tiles with the highest priority. */
  function Best(q: seq<Message>, views: Views, n: nat): (b: nat)
    requires 0 < n <= LeadingTiles(q)
    requires views.Closed()
    ensures b < n
  {
    if n == 1 then 0
    else
      var b := Best(q, views, n - 1);
      if Priority(views, q[n - 1].desc) > Priority(views, q[b].desc) then n - 1 else b
  }

  /** The plain tiles that can be combined with `first`, and what is left. */
  function Combined(q: seq<Message>, first: TileDesc): seq<TileDesc> {
    if q == [] then []
    else (if IsPlainTile(q[0]) && CanCombine(first, q[0].desc) then [q[0].desc] else []) + Combined(q[1..], first)
  }

  function NotCombined(q: seq<Message>, first: TileDesc): seq<Message> {
    if q == [] then []
    else (if IsPlainTile(q[0]) && CanCombine(first, q[0].desc) then [] else [q[0]]) + NotCombined(q[1..], first)
  }

  /** TileQueue::get_impl: the answer and the queue that is left. */
  function Get(q: seq<Message>, views: Views): (Response, seq<Message>)
    requires q != []
    requires views.Closed()
  {
    var front := q[0];
    if !front.Tile? then (Whole(front), q[1..])
    else if front.preview then (Whole(front), Deprioritize(q[1..]))
    else
      var b := Best(q, views, LeadingTiles(q));
      var first, others := q[b].desc, RemoveAt(q, b);
      (Tiles([first] + Combined(others, first)), NotCombined(others, first))
  }

  // ----- cursors ----------------------------------------------------------------------------

  function WithoutView(order: seq<int>, viewId: int): seq<int> {
    RemoveAt(order, FindFirst(order, v => v == viewId))
  }

  function UpdateCursor(views: Views, viewId: int, cursor: CursorPosition): Views {
    Views(WithoutView(views.order, viewId) + [viewId], views.cursors[viewId := cursor])
  }

  function RemoveCursor(views: Views, viewId: int): Views {
    Views(WithoutView(views.order, viewId), views.cursors - {viewId})
  }
}
