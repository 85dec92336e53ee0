/**
 The tile queue (common/MessageQueue.hpp, common/MessageQueue.cpp): the methods that search, erase
 and append in place, proved against the functions of `QueueSpec`.
*/
module TileQueues {

  import opened Sequences
  import opened Wrappers
  import opened TileDescs
  import QueueSpec
  import opened QueueRuns
  import opened QueueFairness
  import opened QueueCallbacks

  type Message = QueueSpec.Message
  type Views = QueueSpec.Views
  type CursorPosition = QueueSpec.CursorPosition
  type Response = QueueSpec.Response

  // ----- a loop that erases while it walks --------------------------------------------------

  /** Before position `i` the queue is done; sweeping the rest leads to `aim`. */
  ghost predicate Sweeping(aim: QueueSpec.Sweep, target: string, part: int, q: seq<Message>, i: nat, rect: Rect,
                           merged: bool)
  {
    i <= |q| &&
    var s := QueueSpec.SweepQueue(q[i..], target, part, rect);
    aim == QueueSpec.Sweep(q[..i] + s.kept, s.rect, merged || s.merged)
  }

  lemma {:induction false} SweepStarts(q: seq<Message>, target: string, part: int, rect: Rect)
    ensures Sweeping(QueueSpec.SweepQueue(q, target, part, rect), target, part, q, 0, rect, false)
  {
    assert q[0..] == q && q[..0] == [];
  }

  lemma {:induction false} SweepEnds(aim: QueueSpec.Sweep, target: string, part: int, q: seq<Message>, rect: Rect,
                                     merged: bool)
    requires Sweeping(aim, target, part, q, |q|, rect, merged)
    ensures aim == QueueSpec.Sweep(q, rect, merged)
  {
    assert q[..|q|] == q && q[|q|..] == [];
  }

  lemma {:induction false} SweepUnfolds(aim: QueueSpec.Sweep, target: string, part: int, q: seq<Message>, i: nat,
                                        rect: Rect, merged: bool)
    requires Sweeping(aim, target, part, q, i, rect, merged) && i < |q|
    ensures match QueueSpec.Judge(q[i], target, part, rect)
            case Keep => Sweeping(aim, target, part, q, i + 1, rect, merged)
            case Drop => Sweeping(aim, target, part, q[..i] + q[i + 1..], i, rect, merged)
            case Merge =>
              && q[i].Callback? && q[i].body.Invalidate?
              && var joined := QueueSpec.Join(rect, QueueSpec.RectOf(q[i].body.area));
                 Sweeping(aim, target, part, q[..i] + q[i + 1..], i, joined, true)
  {
    var r := q[..i] + q[i + 1..];
    assert q[i..][0] == q[i] && q[i..][1..] == q[i + 1..];
    assert q[..i + 1] == q[..i] + [q[i]];
    assert r[..i] == q[..i] && r[i..] == q[i + 1..];
  }

  lemma {:induction false} IsCallback(target: string, part: int, m: Message)
    requires QueueSpec.IsInvalidation(target, part, m)
    ensures m.Callback? && m.body.Invalidate?
  {
  }

  /** Before position `i` the queue is done; combining the rest with `tiles` leads to the aim. */
  ghost predicate Combining(allTiles: seq<TileDesc>, left: seq<Message>, q: seq<Message>, i: nat, tiles: seq<TileDesc>,
                            first: TileDesc)
  {
    && i <= |q|
    && allTiles == tiles + QueueSpec.Combined(q[i..], first)
    && left == q[..i] + QueueSpec.NotCombined(q[i..], first)
  }

  lemma {:induction false} CombiningStarts(q: seq<Message>, first: TileDesc)
    ensures Combining([first] + QueueSpec.Combined(q, first), QueueSpec.NotCombined(q, first), q, 0, [first], first)
  {
    assert q[0..] == q && q[..0] == [];
  }

  lemma {:induction false} CombiningEnds(allTiles: seq<TileDesc>, left: seq<Message>, q: seq<Message>,
                                         tiles: seq<TileDesc>, first: TileDesc)
    requires Combining(allTiles, left, q, |q|, tiles, first)
    ensures allTiles == tiles && left == q
  {
    assert q[..|q|] == q && q[|q|..] == [];
  }

  lemma {:induction false} CombiningUnfolds(allTiles: seq<TileDesc>, left: seq<Message>, q: seq<Message>, i: nat,
                                            tiles: seq<TileDesc>, first: TileDesc)
    requires Combining(allTiles, left, q, i, tiles, first) && i < |q|
    ensures if QueueSpec.IsPlainTile(q[i]) && CanCombine(first, q[i].desc)
            then Combining(allTiles, left, q[..i] + q[i + 1..], i, tiles + [q[i].desc], first)
            else Combining(allTiles, left, q, i + 1, tiles, first)
  {
    hide CanCombine;
    var r := q[..i] + q[i + 1..];
    assert q[i..][0] == q[i] && q[i..][1..] == q[i + 1..];
    assert q[..i + 1] == q[..i] + [q[i]];
    assert r[..i] == q[..i] && r[i..] == q[i + 1..];
  }

  class TileQueue {
    var queue: seq<Message>
    var viewOrder: seq<int>
    var cursorPositions: map<int, CursorPosition>

    function CurrentViews(): Views
      reads this
    {
      QueueSpec.Views(viewOrder, cursorPositions)
    }

    ghost predicate Valid()
      reads this
    {
      CurrentViews().Valid()
    }

    constructor ()
      ensures Valid() && queue == [] && viewOrder == []
    {
      queue, viewOrder, cursorPositions := [], [], map[];
    }

    // ----- put ------------------------------------------------------------------------------

    /** Takes the queued text input out that the new one can be appended to. */
    method CombineTextInput(client: string, id: string, text: string) returns (combined: Option<Message>)
      modifies this`queue
      ensures match QueueSpec.FindTextInput(old(queue), client, id, |old(queue)|)
              case None => combined == None && queue == old(queue)
              case Some(i) =>
                && queue == RemoveAt(old(queue), i)
                && combined == Some(QueueSpec.TextInput(client, Some(id), Some(old(queue)[i].text.value + text)))
    {
      var i := |queue| - 1;
      while i >= 0
        invariant -1 <= i < |queue| && queue == old(queue)
        invariant QueueSpec.FindTextInput(queue, client, id, |queue|) ==
                  QueueSpec.FindTextInput(queue, client, id, i + 1)
      {
        var m := queue[i];
        if QueueSpec.BlocksTextInput(client, m) {
          return None;
        }
        if QueueSpec.MergesTextInput(client, id, m) {
          queue := queue[..i] + queue[i + 1..];
          return Some(QueueSpec.TextInput(client, Some(id), Some(m.text.value + text)));
        }
        i := i - 1;
      }
      combined := None;
    }

    method CombineRemoveText(client: string, id: string, before: int, after: int) returns (combined: Option<Message>)
      modifies this`queue
      ensures match QueueSpec.FindRemoveText(old(queue), client, id, |old(queue)|)
              case None => combined == None && queue == old(queue)
              case Some(i) =>
                && queue == RemoveAt(old(queue), i)
                && combined == Some(QueueSpec.RemoveText(client, Some(id), Some(old(queue)[i].before.value + before),
                                                         Some(old(queue)[i].after.value + after)))
    {
      var i := |queue| - 1;
      while i >= 0
        invariant -1 <= i < |queue| && queue == old(queue)
        invariant QueueSpec.FindRemoveText(queue, client, id, |queue|) ==
                  QueueSpec.FindRemoveText(queue, client, id, i + 1)
      {
        var m := queue[i];
        if QueueSpec.BlocksRemoveText(client, m) {
          return None;
        }
        if QueueSpec.MergesRemoveText(client, id, m) {
          queue := queue[..i] + queue[i + 1..];
          return Some(QueueSpec.RemoveText(client, Some(id), Some(m.before.value + before),
                                      Some(m.after.value + after)));
        }
        i := i - 1;
      }
      combined := None;
    }

    /** MessageQueue::put_impl. */
    method BasePut(m: Message)
      modifies this`queue
      ensures queue == QueueSpec.BasePut(old(queue), m)
    {
      var combined := None;
      match m {
        case TextInput(client, Some(id), Some(text)) => combined := CombineTextInput(client, id, text);
        case RemoveText(client, Some(id), Some(before), Some(after)) =>
          combined := CombineRemoveText(client, id, before, after);
        case _ =>
      }
      queue := queue + [if combined.Some? then combined.value else m];
    }

    /** Erases the first queued tile message that a new one with this text supersedes. */
    method RemoveTileDuplicate(raw: string)
      modifies this`queue
      ensures queue == RemoveAt(old(queue), QueueSpec.FindFirst(old(queue), x => QueueSpec.IsTileDuplicate(raw, x)))
    {
      hide QueueSpec.FindFirst, QueueSpec.IsTileDuplicate;
      for i := 0 to |queue|
        invariant queue == old(queue)
        invariant forall j :: 0 <= j < i ==> !QueueSpec.IsTileDuplicate(raw, queue[j])
      {
        if QueueSpec.IsTileDuplicate(raw, queue[i]) {
          queue := queue[..i] + queue[i + 1..];
          return;
        }
      }
    }

    /** Erases the first queued callback with the same key. */
    method RemoveObsoleteCallback(m: Message)
      requires QueueSpec.KeyOf(m).Some?
      modifies this`queue
      ensures queue == RemoveAt(old(queue),
                               QueueSpec.FindFirst(old(queue), x => QueueSpec.KeyOf(x) == QueueSpec.KeyOf(m)))
    {
      hide QueueSpec.FindFirst, QueueSpec.KeyOf;
      for i := 0 to |queue|
        invariant queue == old(queue)
        invariant forall j :: 0 <= j < i ==> QueueSpec.KeyOf(queue[j]) != QueueSpec.KeyOf(m)
      {
        if QueueSpec.KeyOf(queue[i]) == QueueSpec.KeyOf(m) {
          queue := queue[..i] + queue[i + 1..];
          return;
        }
      }
    }

    /** The pass of an invalidation over the queue; the message rectangle grows on the way. */
    method SweepInvalidations(target: string, part: int, rect0: Rect) returns (rect: Rect, performedMerge: bool)
      modifies this`queue
      ensures QueueSpec.Sweep(queue, rect, performedMerge) == QueueSpec.SweepQueue(old(queue), target, part, rect0)
    {
      hide Sweeping, QueueSpec.SweepQueue, QueueSpec.IsInvalidation, QueueSpec.Join, QueueSpec.Covers;
      hide RectanglesIntersect;
      rect, performedMerge := rect0, false;
      ghost var aim := QueueSpec.SweepQueue(queue, target, part, rect0);
      var i := 0;
      SweepStarts(queue, target, part, rect0);
      while i < |queue|
        invariant 0 <= i <= |queue|
        invariant Sweeping(aim, target, part, queue, i, rect, performedMerge)
        decreases |queue| - i
      {
        SweepUnfolds(aim, target, part, queue, i, rect, performedMerge);
        if !QueueSpec.IsInvalidation(target, part, queue[i]) {
          i := i + 1;
        } else {
          IsCallback(target, part, queue[i]);
          var queued := QueueSpec.RectOf(queue[i].body.area);
          if QueueSpec.Covers(rect, queued) {
            queue := queue[..i] + queue[i + 1..];
          } else if RectanglesIntersect(rect, queued) {
            var join := QueueSpec.Join(rect, queued);
            if join.w > QueueSpec.REASONABLE_SIZE_X || join.h > QueueSpec.REASONABLE_SIZE_Y {
              i := i + 1;
            } else {
              rect, performedMerge := join, true;
              queue := queue[..i] + queue[i + 1..];
            }
          } else {
            i := i + 1;
          }
        }
      }
      SweepEnds(aim, target, part, queue, rect, performedMerge);
    }

    /** removeCallbackDuplicate: the message to put instead, if any.  It is the old one with another
        rectangle, so there must be a rectangle in the old one. */
    method RemoveCallbackDuplicate(m: Message) returns (instead: Option<Message>)
      requires m.Callback?
      modifies this`queue
      ensures instead.Some? ==>
                && m.body.Invalidate? && m.body.area.Some?
                && instead.value.Callback? && instead.value.target == m.target
                && instead.value.body.Invalidate? && instead.value.body.area.Some?
                && instead.value.body.part == m.body.part
      ensures queue + [if instead.Some? then instead.value else m] == QueueSpec.PutCallback(old(queue), m)
    {
      instead := None;
      if m.body.Invalidate? {
        var rect, performedMerge := SweepInvalidations(m.target, m.body.part, QueueSpec.RectOf(m.body.area));
        if performedMerge {
          if m.body.area.None? {
            EmptyFormIsNeverMerged(old(queue), m.target, m.body.part);
          }
          instead := Some(QueueSpec.Callback(m.target, QueueSpec.Invalidate(Some(rect), m.body.part)));
        }
      } else if QueueSpec.KeyOf(m).Some? {
        RemoveObsoleteCallback(m);
      }
    }

    method PutTile(m: Message)
      requires m.Tile?
      modifies this`queue
      ensures queue == QueueSpec.PutTile(old(queue), m)
    {
      RemoveTileDuplicate(m.raw);
      BasePut(m);
    }

    method Put(input: QueueSpec.Input)
      requires QueueSpec.ValidInput(input)
      modifies this`queue
      ensures queue == QueueSpec.Put(old(queue), input)
    {
      match input
      case TileCombine(tiles) =>
        for i := 0 to |tiles|
          invariant QueueSpec.PutTiles(old(queue), tiles) == QueueSpec.PutTiles(queue, tiles[i..])
        {
          assert tiles[i..][1..] == tiles[i + 1..];
          PutTile(tiles[i]);
        }
      case One(m) =>
        if m.Tile? {
          PutTile(m);
        } else if m.Callback? {
          var instead := RemoveCallbackDuplicate(m);
          BasePut(if instead.Some? then instead.value else m);
        } else {
          BasePut(m);
        }
    }

    // ----- get ------------------------------------------------------------------------------

    method Priority(desc: TileDesc) returns (p: int)
      requires Valid()
      ensures p == QueueSpec.Priority(CurrentViews(), desc)
    {
      var i := |viewOrder| - 1;
      while i >= 0
        invariant -1 <= i < |viewOrder|
        invariant QueueSpec.Priority(CurrentViews(), desc) == QueueSpec.PriorityBelow(CurrentViews(), desc, i + 1)
      {
        if IntersectsWithRect(desc, cursorPositions[viewOrder[i]].rect) {
          return i;
        }
        i := i - 1;
      }
      p := -1;
    }

    /** Moves the previews at the front to the end, one by one. */
    method DeprioritizePreviews()
      modifies this`queue
      ensures queue == QueueSpec.Deprioritize(old(queue))
    {
      ghost var q := queue;
      for i := 0 to |queue|
        invariant queue == q[i..] + q[..i]
        invariant forall j :: 0 <= j < i ==> QueueSpec.IsPreview(q[j])
      {
        var front := queue[0];
        if !QueueSpec.IsPreview(front) {
          assert QueueSpec.LeadingPreviews(q) == i;
          return;
        }
        queue := queue[1..];
        queue := queue + [front];
      }
      assert QueueSpec.LeadingPreviews(q) == |q|;
    }

    /** The index of the tile to take: stops at the first message that is no plain tile, and at a tile
        of the highest possible priority. */
    method FindPrioritized() returns (prioritized: nat)
      requires Valid() && queue != [] && QueueSpec.IsPlainTile(queue[0])
      ensures prioritized == QueueSpec.Best(queue, CurrentViews(), QueueSpec.LeadingTiles(queue))
    {
      hide QueueSpec.PriorityBelow, QueueSpec.Priority, QueueSpec.FindFirst;
      prioritized := 0;
      var prioritySoFar := -1;
      ghost var views, n := CurrentViews(), QueueSpec.LeadingTiles(queue);
      var i := 0;
      while i < |queue|
        invariant 0 <= i <= n && n > 0
        invariant i == 0 ==> prioritized == 0 && prioritySoFar == -1
        invariant i > 0 ==>
                    && prioritized == QueueSpec.Best(queue, views, i)
                    && prioritySoFar == QueueSpec.Priority(views, queue[prioritized].desc)
        decreases |queue| - i
      {
        if !QueueSpec.IsPlainTile(queue[i]) {
          break;
        }
        var p := Priority(queue[i].desc);
        if p > prioritySoFar {
          prioritySoFar := p;
          prioritized := i;
          if prioritySoFar == |viewOrder| - 1 {
            EarlyExitIsSound(queue, views, i, n);
            return;
          }
        }
        i := i + 1;
      }
    }

    /** Takes the plain tiles out that can be combined with the first one. */
    method CombineTiles(first: TileDesc) returns (tiles: seq<TileDesc>)
      modifies this`queue
      ensures tiles == [first] + QueueSpec.Combined(old(queue), first)
      ensures queue == QueueSpec.NotCombined(old(queue), first)
    {
      hide CanCombine, Combining, QueueSpec.Combined, QueueSpec.NotCombined;
      ghost var allTiles, left := [first] + QueueSpec.Combined(queue, first), QueueSpec.NotCombined(queue, first);
      tiles := [first];
      var i := 0;
      CombiningStarts(queue, first);
      while i < |queue|
        invariant 0 <= i <= |queue| && |tiles| > 0 && tiles[0] == first
        invariant Combining(allTiles, left, queue, i, tiles, first)
        decreases |queue| - i
      {
        CombiningUnfolds(allTiles, left, queue, i, tiles, first);
        if QueueSpec.IsPlainTile(queue[i]) && CanCombine(tiles[0], queue[i].desc) {
          tiles := tiles + [queue[i].desc];
          queue := queue[..i] + queue[i + 1..];
        } else {
          i := i + 1;
        }
      }
      CombiningEnds(allTiles, left, queue, tiles, first);
    }

    method Get() returns (response: Response)
      requires Valid() && queue != []
      modifies this`queue
      ensures (response, queue) == QueueSpec.Get(old(queue), CurrentViews())
    {
      hide QueueSpec.Combined, QueueSpec.NotCombined, QueueSpec.Best;
      var front := queue[0];
      if !QueueSpec.IsPlainTile(front) {
        queue := queue[1..];
        if QueueSpec.IsPreview(front) {
          DeprioritizePreviews();
        }
        return QueueSpec.Whole(front);
      }
      var prioritized := FindPrioritized();
      var first := queue[prioritized].desc;
      queue := queue[..prioritized] + queue[prioritized + 1..];
      var tiles := CombineTiles(first);
      response := QueueSpec.Tiles(tiles);
    }

    // ----- cursors --------------------------------------------------------------------------

    method EraseView(viewId: int)
      modifies this`viewOrder
      ensures viewOrder == QueueSpec.WithoutView(old(viewOrder), viewId)
    {
      hide QueueSpec.FindFirst;
      for i := 0 to |viewOrder|
        invariant viewOrder == old(viewOrder)
        invariant forall j :: 0 <= j < i ==> viewOrder[j] != viewId
      {
        if viewOrder[i] == viewId {
          viewOrder := viewOrder[..i] + viewOrder[i + 1..];
          return;
        }
      }
    }

    method UpdateCursorPosition(viewId: int, cursor: CursorPosition)
      requires Valid()
      modifies this`viewOrder, this`cursorPositions
      ensures CurrentViews() == QueueSpec.UpdateCursor(old(CurrentViews()), viewId, cursor)
      ensures Valid()
    {
      CursorsStayValid(CurrentViews(), viewId, cursor);
      cursorPositions := cursorPositions[viewId := cursor];
      EraseView(viewId);
      viewOrder := viewOrder + [viewId];
    }

    method RemoveCursorPosition(viewId: int)
      requires Valid()
      modifies this`viewOrder, this`cursorPositions
      ensures CurrentViews() == QueueSpec.RemoveCursor(old(CurrentViews()), viewId)
      ensures Valid()
    {
      LeavingStaysValid(CurrentViews(), viewId);
      EraseView(viewId);
      cursorPositions := cursorPositions - {viewId};
    }
  }
}
