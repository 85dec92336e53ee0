/**
 What merged text edits do to a window: a put leaves every window as appending the message would,
 whatever interactions, commands and the text of other clients do in between, exactly if it does not
 move text across something that counts.  A text with a cursor for every client is one such window.
*/
module QueueText {

  import opened Sequences
  import opened Wrappers
  import opened TileDescs
  import opened QueueSpec
  import opened QueueRuns

  // ----- windows ----------------------------------------------------------------------------

  /** What an edit does to a window; what a window is, and what interactions and commands do to it, is
      left open. */
  type Action<!S> = (S, Edit) -> S

  predicate IsNatural(e: Edit) {
    e.Remove? ==> e.before >= 0 && e.after >= 0
  }

  /** All that is asked of text edits: two insertions of a client in a row are one, so are two removals,
      and inserting or removing nothing does nothing. */
  ghost predicate Lawful<S(!new)>(act: Action<S>) {
    && (forall s, e, f :: SameKind(e, f) && IsNatural(e) && IsNatural(f) ==> act(act(s, e), f) == act(s, Joined(e, f)))
    && (forall s, e :: IsNothing(e) ==> act(s, e) == s)
  }

  /** The effect of the messages, one by one. */
  function PlayMessages<S>(act: Action<S>, v: Scope, s: S, msgs: seq<Message>): S
    decreases |msgs|
  {
    if msgs == [] then s else PlayMessages(act, v, PlayMessage(act, v, s, msgs[0]), msgs[1..])
  }

  function PlayMessage<S>(act: Action<S>, v: Scope, s: S, m: Message): S {
    match EditOf(v, m)
    case None => s
    case Some(e) => act(s, e)
  }

  /** The effect of the edits, in order. */
  function Play<S>(act: Action<S>, s: S, edits: seq<Edit>): S {
    if edits == [] then s else act(Play(act, s, edits[..|edits| - 1]), edits[|edits| - 1])
  }

  ghost predicate AllNatural(edits: seq<Edit>) {
    forall i :: 0 <= i < |edits| ==> IsNatural(edits[i])
  }

  /** Joining adjacent insertions and adding up adjacent removals keeps the effect. */
  lemma {:induction false} AddEditKeepsEffect<S(!new)>(act: Action<S>, s: S, edits: seq<Edit>, e: Edit)
    requires Lawful(act) && AllNatural(edits) && IsNatural(e)
    ensures AllNatural(AddEdit(edits, e))
    ensures Play(act, s, AddEdit(edits, e)) == act(Play(act, s, edits), e)
  {
    hide SameKind;
    if EndsInKind(edits, e) {
      var n := |edits| - 1;
      JoinedIsNatural(edits[n], e);
      var u := edits[..n] + [Joined(edits[n], e)];
      assert u[..|u| - 1] == edits[..n];
    } else {
      assert (edits + [e])[..|edits|] == edits;
    }
  }

  lemma {:induction false} JoinedIsNatural(e: Edit, f: Edit)
    requires SameKind(e, f) && IsNatural(e) && IsNatural(f)
    ensures IsNatural(Joined(e, f)) && (IsNothing(Joined(e, f)) <==> IsNothing(e) && IsNothing(f))
  {
    if e.Insert? {
      assert |Joined(e, f).text| == |e.text| + |f.text|;
    }
  }

  /** No removal that counts has a negative count. */
  ghost predicate NaturalRemovals(v: Scope, msgs: seq<Message>) {
    forall m :: m in msgs && EditOf(v, m).Some? ==> IsNatural(EditOf(v, m).value)
  }

  lemma {:induction false} EditsKeepEffect<S(!new)>(act: Action<S>, v: Scope, s: S, edits: seq<Edit>,
                                                    msgs: seq<Message>)
    requires Lawful(act) && AllNatural(edits) && NaturalRemovals(v, msgs)
    ensures Play(act, s, Edits(v, edits, msgs)) == PlayMessages(act, v, Play(act, s, edits), msgs)
    decreases |msgs|
  {
    hide Lawful, IsNatural, AllNatural, AddEdit, EditOf;
    if msgs != [] {
      var m := msgs[0];
      assert m in msgs;
      if EditOf(v, m).Some? {
        AddEditKeepsEffect(act, s, edits, EditOf(v, m).value);
      }
      EditsKeepEffect(act, v, s, AddMessage(v, edits, m), msgs[1..]);
    }
  }

  /** On any such window the two lists have the same effect. */
  ghost predicate SameEffect<S(!new)>(v: Scope, p: seq<Message>, q: seq<Message>) {
    forall act: Action<S>, s: S :: Lawful(act) ==> PlayMessages(act, v, s, p) == PlayMessages(act, v, s, q)
  }

  lemma {:induction false} SameEditsSameEffect<S(!new)>(v: Scope, p: seq<Message>, q: seq<Message>)
    requires NaturalRemovals(v, p) && NaturalRemovals(v, q) && Edits(v, [], p) == Edits(v, [], q)
    ensures SameEffect<S>(v, p, q)
  {
    hide Edits, PlayMessages, Lawful;
    forall act: Action<S>, s: S | Lawful(act) ensures PlayMessages(act, v, s, p) == PlayMessages(act, v, s, q) {
      EditsKeepEffect(act, v, s, [], p);
      EditsKeepEffect(act, v, s, [], q);
    }
  }

  lemma {:induction false} PlayInTurn<S>(act: Action<S>, v: Scope, s: S, p: seq<Message>, q: seq<Message>)
    ensures PlayMessages(act, v, s, p + q) == PlayMessages(act, v, PlayMessages(act, v, s, p), q)
    decreases |p|
  {
    hide PlayMessage;
    if p == [] {
      assert p + q == q;
    } else {
      assert (p + q)[1..] == p[1..] + q;
      PlayInTurn(act, v, PlayMessage(act, v, s, p[0]), p[1..], q);
    }
  }

  lemma {:induction false} PlayLast<S>(act: Action<S>, v: Scope, s: S, p: seq<Message>, m: Message)
    ensures PlayMessages(act, v, s, p + [m]) == PlayMessage(act, v, PlayMessages(act, v, s, p), m)
  {
    hide PlayMessage;
    PlayInTurn(act, v, s, p, [m]);
    assert [m][1..] == [];
  }

  // ----- removal counts ---------------------------------------------------------------------

  lemma {:induction false} RemoveAtMembers<T>(q: seq<T>, i: nat)
    ensures forall x :: x in RemoveAt(q, i) ==> x in q
  {
  }

  lemma {:induction false} SweepMembers(q: seq<Message>, target: string, part: int, rect: Rect)
    ensures forall m :: m in SweepQueue(q, target, part, rect).kept ==> m in q
  {
    if q != [] {
      match Judge(q[0], target, part, rect)
      case Merge => SweepMembers(q[1..], target, part, Join(rect, RectOf(q[0].body.area)));
      case _ => SweepMembers(q[1..], target, part, rect);
    }
  }

  lemma {:induction false} NotCombinedMembers(q: seq<Message>, first: TileDesc)
    ensures forall m :: m in NotCombined(q, first) ==> m in q
  {
    if q != [] {
      NotCombinedMembers(q[1..], first);
    }
  }

  lemma {:induction false} PutTilesMembers(q: seq<Message>, tiles: seq<Message>)
    requires forall m :: m in tiles ==> m.Tile?
    ensures forall m :: m in PutTiles(q, tiles) ==> m in q || m in tiles
    decreases |tiles|
  {
    if tiles != [] {
      RemoveAtMembers(q, FindFirst(q, x => IsTileDuplicate(tiles[0].raw, x)));
      PutTilesMembers(PutTile(q, tiles[0]), tiles[1..]);
    }
  }

  lemma {:induction false} PutStaysNatural(v: Scope, q: seq<Message>, input: Input)
    requires ValidInput(input) && NaturalRemovals(v, q + Messages(input))
    ensures NaturalRemovals(v, Put(q, input))
  {
    assert forall m :: m in q || m in Messages(input) ==> m in q + Messages(input);
    match input
    case TileCombine(tiles) => PutTilesMembers(q, tiles);
    case One(m) =>
      if m.Tile? {
        RemoveAtMembers(q, FindFirst(q, x => IsTileDuplicate(m.raw, x)));
      } else if m.Callback? && m.body.Invalidate? {
        SweepMembers(q, m.target, m.body.part, RectOf(m.body.area));
      } else if m.Callback? {
        RemoveAtMembers(q, FindFirst(q, x => KeyOf(x) == KeyOf(m)));
      } else {
        BasePutStaysNatural(v, q, m);
      }
  }

  lemma {:induction false} BasePutStaysNatural(v: Scope, q: seq<Message>, m: Message)
    requires NaturalRemovals(v, q + [m])
    ensures NaturalRemovals(v, BasePut(q, m))
  {
    hide BasePut, Found, EditOf;
    BasePutMeans(q, m);
    var k := Found(q, m);
    if k.Some? {
      var n := BasePut(q, m)[|q| - 1];
      MergedStaysNatural(v, q, m, k.value);
      RemoveAtMembers(q, k.value);
      assert forall x :: x in q ==> x in q + [m];
    }
  }

  lemma {:induction false} MergedStaysNatural(v: Scope, q: seq<Message>, m: Message, k: nat)
    requires NaturalRemovals(v, q + [m]) && Found(q, m) == Some(k)
    ensures |BasePut(q, m)| == |q| && NaturalRemovals(v, [BasePut(q, m)[|q| - 1]])
  {
    hide FindTextInput, FindRemoveText;
    BasePutMeans(q, m);
    assert q[k] in q + [m] && m in q + [m];
  }

  lemma {:induction false} GetStaysNatural(v: Scope, q: seq<Message>, views: Views)
    requires q != [] && views.Closed() && NaturalRemovals(v, q)
    ensures NaturalRemovals(v, Moved(Get(q, views).0) + Get(q, views).1)
  {
    if IsPlainTile(q[0]) {
      var b := Best(q, views, LeadingTiles(q));
      RemoveAtMembers(q, b);
      NotCombinedMembers(RemoveAt(q, b), q[b].desc);
    }
  }

  lemma {:induction false} StepStaysNatural(v: Scope, s: QState, e: Event)
    requires s.views.Closed() && (e.PutEvent? ==> ValidInput(e.input))
    requires NaturalRemovals(v, Log(s) + PutBy(e))
    ensures NaturalRemovals(v, Log(Step(s, e)))
  {
    hide Step, Log, Put, Get;
    LogSteps(s, e);
    var d := Delivered(s.responses);
    var all := d + (s.queue + PutBy(e));
    assert forall m :: m in d || m in s.queue || m in PutBy(e) ==> m in all;
    match e
    case PutEvent(input) => PutStaysNatural(v, s.queue, input);
    case GetEvent =>
      if s.queue != [] {
        GetStaysNatural(v, s.queue, s.views);
      }
    case _ =>
  }

  /** Merging keeps removal counts natural. */
  lemma {:induction false} RunStaysNatural(v: Scope, s: QState, events: seq<Event>)
    requires s.views.Valid() && ValidEvents(events)
    requires NaturalRemovals(v, Log(s) + History(events))
    ensures NaturalRemovals(v, Log(Run(s, events)))
    decreases |events|
  {
    hide Step, Log, PutBy, EditOf;
    assert forall m :: m in Log(s) ==> m in Log(s) + History(events);
    if events != [] {
      var e, rest := events[0], events[1..];
      StepKeepsViews(s, e);
      HistoryGrows(Log(s), events);
      var all := Log(s) + PutBy(e) + History(rest);
      assert forall m :: m in Log(s) + PutBy(e) || m in History(rest) ==> m in all;
      StepStaysNatural(v, s, e);
      RunStaysNatural(v, Step(s, e), rest);
    }
  }

  // ----- when a put keeps the effect --------------------------------------------------------

  lemma {:induction false} NaturalParts(v: Scope, p: seq<Message>, q: seq<Message>)
    requires NaturalRemovals(v, p + q)
    ensures NaturalRemovals(v, p) && NaturalRemovals(v, q)
  {
    assert forall m :: m in p || m in q ==> m in p + q;
  }

  /** The message inserts or removes something, or is an interaction or a command. */
  predicate DoesSomething(v: Scope, m: Message) {
    EditOf(v, m).Some? && !IsNothing(EditOf(v, m).value)
  }

  /** The put moves queued text, and not just an empty one, across something that counts. */
  ghost predicate MovesText(v: Scope, q: seq<Message>, input: Input) {
    && input.One? && EditOf(v, input.m).Some? && Found(q, input.m).Some?
    && DoesSomething(v, q[Found(q, input.m).value])
    && exists j :: Found(q, input.m).value < j < |q| && DoesSomething(v, q[j])
  }

  /** Of a single client it is moved only across another command of that client. */
  lemma {:induction false} OwnTextMoves(v: Scope, q: seq<Message>, input: Input)
    requires v.client.Some?
    ensures MovesText(v, q, input) <==>
            && v.commands && input.One? && EditOf(v, input.m).Some? && Found(q, input.m).Some?
            && DoesSomething(v, q[Found(q, input.m).value])
            && exists j :: Found(q, input.m).value < j < |q| && q[j].Other? && q[j].client == v.client.value
  {
    hide Found, BlocksTextInput, BlocksRemoveText;
    if input.One? && EditOf(v, input.m).Some? && Found(q, input.m).Some? {
      OwnTextOvertakes(v, q, input.m);
      if MovesText(v, q, input) {
        assert ShowsBehind(v, q, Found(q, input.m).value);
      }
      if j :| Found(q, input.m).value < j < |q| && q[j].Other? && q[j].client == v.client.value && v.commands {
        assert DoesSomething(v, q[j]);
      }
    }
  }

  lemma {:induction false} PlayNothing<S(!new)>(act: Action<S>, v: Scope, s: S, msgs: seq<Message>)
    requires Lawful(act) && forall i :: 0 <= i < |msgs| ==> !DoesSomething(v, msgs[i])
    ensures PlayMessages(act, v, s, msgs) == s
    decreases |msgs|
  {
    hide EditOf, IsNothing, SameKind, IsNatural;
    if msgs != [] {
      assert !DoesSomething(v, msgs[0]);
      PlayNothing(act, v, s, msgs[1..]);
    }
  }

  /** The effects before and after text is merged: the text found is played in front of what lies behind
      it, or behind that together with the new text. */
  lemma {:induction false} PlayAcross<S>(act: Action<S>, v: Scope, s: S, q: seq<Message>, m: Message)
    requires EditOf(v, m).Some? && Found(q, m).Some?
    ensures var k := Found(q, m).value;
            var (x, back, e1, e2) := (PlayMessages(act, v, s, q[..k]), q[k + 1..], EditOf(v, q[k]), EditOf(v, m).value);
            && e1.Some? && SameKind(e1.value, e2) && NoneJoins(v, back, e1.value)
            && PlayMessages(act, v, s, BasePut(q, m)) == act(PlayMessages(act, v, x, back), Joined(e1.value, e2))
            && PlayMessages(act, v, s, q + [m]) == act(PlayMessages(act, v, act(x, e1.value), back), e2)
  {
    hide PlayMessages, Found, BasePut, EditOf, SameKind, Joined, NoneJoins;
    FoundMeans(v, q, m);
    var k := Found(q, m).value;
    var front, back, n := q[..k], q[k + 1..], BasePut(q, m)[|q| - 1];
    assert BasePut(q, m) == front + back + [n];
    PlayLast(act, v, s, front + back, n);
    PlayInTurn(act, v, s, front, back);
    assert q + [m] == front + [q[k]] + back + [m];
    PlayLast(act, v, s, front + [q[k]] + back, m);
    PlayInTurn(act, v, s, front + [q[k]], back);
    PlayLast(act, v, s, front, q[k]);
  }

  lemma {:induction false} NaturalAt(v: Scope, msgs: seq<Message>, i: nat)
    requires NaturalRemovals(v, msgs) && i < |msgs| && EditOf(v, msgs[i]).Some?
    ensures IsNatural(EditOf(v, msgs[i]).value)
  {
    assert msgs[i] in msgs;
  }

  /** Merging keeps the effect if the text found is empty or nothing happens behind it. */
  lemma {:induction false} MergeKeepsEffect<S(!new)>(v: Scope, q: seq<Message>, m: Message)
    requires EditOf(v, m).Some? && Found(q, m).Some? && NaturalRemovals(v, q + [m]) && !MovesText(v, q, One(m))
    ensures SameEffect<S>(v, BasePut(q, m), q + [m])
  {
    hide Found, BasePut, EditOf, PlayMessages, SameKind, Joined, NoneJoins, IsNatural, NaturalRemovals, IsNothing;
    FoundMeans(v, q, m);
    var k := Found(q, m).value;
    var back, e1, e2 := q[k + 1..], EditOf(v, q[k]).value, EditOf(v, m).value;
    assert (q + [m])[k] == q[k] && (q + [m])[|q|] == m;
    NaturalAt(v, q + [m], k);
    NaturalAt(v, q + [m], |q|);
    SameKindMeans(e1, e2);
    NothingAdded(e2, e1);
    forall act: Action<S>, s: S | Lawful(act)
      ensures PlayMessages(act, v, s, BasePut(q, m)) == PlayMessages(act, v, s, q + [m])
    {
      PlayAcross(act, v, s, q, m);
      var x := PlayMessages(act, v, s, q[..k]);
      if IsNothing(e1) {
        assert act(x, e1) == x;
      } else {
        assert forall i :: 0 <= i < |back| ==> back[i] == q[k + 1 + i];
        PlayNothing(act, v, x, back);
        PlayNothing(act, v, act(x, e1), back);
        assert act(act(x, e1), e2) == act(x, Joined(e1, e2));
      }
    }
  }

  /** A put that moves no text across something leaves every window as appending the message would. */
  lemma {:induction false} PutKeepsEffect<S(!new)>(v: Scope, q: seq<Message>, input: Input)
    requires ValidInput(input) && NaturalRemovals(v, q + Messages(input)) && !MovesText(v, q, input)
    ensures SameEffect<S>(v, Put(q, input), q + Messages(input))
  {
    hide SameEffect, Found, EditOf, Put, NaturalRemovals, MovesText, ShowsBehind;
    if InputOvertakes(v, q, input) {
      OvertakingIsText(v, q, input);
      MergeKeepsEffect<S>(v, q, input.m);
    } else {
      PutStaysNatural(v, q, input);
      PutKeepsEdits(v, [], q, input);
      SameEditsSameEffect<S>(v, Put(q, input), q + Messages(input));
    }
  }

  // ----- a text with a cursor ---------------------------------------------------------------

  /** A text and the position of the cursor in it. */
  datatype Buffer = Buffer(text: string, cursor: nat) {
    predicate Valid() { cursor <= |text| }
  }

  type ValidBuffer = b: Buffer | b.Valid() witness Buffer("", 0)

  /** Inserts at the cursor, which ends up behind the insertion. */
  function InsertText(b: ValidBuffer, t: string): ValidBuffer {
    Buffer(b.text[..b.cursor] + t + b.text[b.cursor..], b.cursor + |t|)
  }

  /** The piece that a removal cuts out. */
  function CutFrom(b: ValidBuffer, before: nat): nat {
    if before <= b.cursor then b.cursor - before else 0
  }

  function CutTo(b: ValidBuffer, after: nat): nat {
    if b.cursor + after <= |b.text| then b.cursor + after else |b.text|
  }

  /** Removes up to `before` characters in front of the cursor and up to `after` behind it. */
  function RemoveAround(b: ValidBuffer, before: nat, after: nat): ValidBuffer {
    var (from, to) := (CutFrom(b, before), CutTo(b, after));
    Buffer(b.text[..from] + b.text[to..], from)
  }

  /** What a text edit does. */
  function Change(b: ValidBuffer, e: Edit): ValidBuffer {
    match e
    case Act(_) => b
    case Insert(_, t) => InsertText(b, t)
    case Remove(_, before, after) => if before >= 0 && after >= 0 then RemoveAround(b, before, after) else b
  }

  lemma {:induction false} InsertInTurn(b: ValidBuffer, t1: string, t2: string)
    ensures InsertText(InsertText(b, t1), t2) == InsertText(b, t1 + t2)
  {
    var b1 := InsertText(b, t1);
    assert b1.text[..b1.cursor] == b.text[..b.cursor] + t1;
    assert b1.text[b1.cursor..] == b.text[b.cursor..];
    assert b.text[..b.cursor] + t1 + t2 == b.text[..b.cursor] + (t1 + t2);
  }

  /** Cutting a larger piece around a piece that was cut out already. */
  lemma {:induction false} CutAgain(t: string, from1: nat, to1: nat, from2: nat, to2: nat)
    requires from2 <= from1 <= to1 <= to2 <= |t|
    ensures var c := t[..from1] + t[to1..];
            to2 - (to1 - from1) <= |c| && c[..from2] + c[to2 - (to1 - from1)..] == t[..from2] + t[to2..]
  {
    var c := t[..from1] + t[to1..];
    assert c[..from2] == t[..from2];
    assert c[to2 - (to1 - from1)..] == t[to2..];
  }

  lemma {:induction false} RemoveCuts(b: ValidBuffer, before: nat, after: nat)
    ensures var (from, to) := (CutFrom(b, before), CutTo(b, after));
            && from <= b.cursor <= to <= |b.text|
            && RemoveAround(b, before, after) == Buffer(b.text[..from] + b.text[to..], from)
  {
  }

  lemma {:induction false} CutsCompose(b: ValidBuffer, c: ValidBuffer, b1: nat, a1: nat, b2: nat, a2: nat)
    requires var (from, to) := (CutFrom(b, b1), CutTo(b, a1)); c.cursor == from && |c.text| == from + |b.text| - to
    ensures CutFrom(c, b2) == CutFrom(b, b1 + b2) <= CutFrom(b, b1)
    ensures CutTo(c, a2) == CutTo(b, a1 + a2) - (CutTo(b, a1) - CutFrom(b, b1))
    ensures CutTo(b, a1) <= CutTo(b, a1 + a2)
  {
  }

  /** The summed removal acts as the two removals in turn. */
  lemma {:induction false} RemoveInTurn(b: ValidBuffer, b1: nat, a1: nat, b2: nat, a2: nat)
    ensures RemoveAround(RemoveAround(b, b1, a1), b2, a2) == RemoveAround(b, b1 + b2, a1 + a2)
  {
    hide RemoveAround, CutFrom, CutTo;
    var c := RemoveAround(b, b1, a1);
    RemoveCuts(b, b1, a1);
    RemoveCuts(b, b1 + b2, a1 + a2);
    RemoveCuts(c, b2, a2);
    CutsCompose(b, c, b1, a1, b2, a2);
    CutAgain(b.text, CutFrom(b, b1), CutTo(b, a1), CutFrom(b, b1 + b2), CutTo(b, a1 + a2));
  }

  lemma {:induction false} ChangeInTurn(b: ValidBuffer, e: Edit, f: Edit)
    requires SameKind(e, f) && IsNatural(e) && IsNatural(f)
    ensures Change(Change(b, e), f) == Change(b, Joined(e, f))
  {
    hide InsertText, RemoveAround;
    if e.Insert? {
      InsertInTurn(b, e.text, f.text);
    } else {
      RemoveInTurn(b, e.before, e.after, f.before, f.after);
    }
  }

  lemma {:induction false} ChangeNothing(b: ValidBuffer, e: Edit)
    requires IsNothing(e)
    ensures Change(b, e) == b
  {
    assert b.text[..b.cursor] + "" + b.text[b.cursor..] == b.text;
    assert b.text[..b.cursor] + b.text[b.cursor..] == b.text;
  }

  // ----- exactly when -----------------------------------------------------------------------

  function ResetOr(own: Edit, r: ValidBuffer, b: ValidBuffer, e: Edit): ValidBuffer {
    if IsNothing(e) then b else if SameKind(own, e) then Change(b, e) else r
  }

  /** The window that knows the text edits of one kind, and on which everything else leaves `r`. */
  function ResetBy(own: Edit, r: ValidBuffer): Action<ValidBuffer> {
    (b: ValidBuffer, e: Edit) => ResetOr(own, r, b, e)
  }

  lemma {:induction false} ResetIsLawful(own: Edit, r: ValidBuffer)
    ensures Lawful(ResetBy(own, r))
  {
    hide Change, Joined, SameKind, IsNothing, IsNatural;
    var act := ResetBy(own, r);
    forall b: ValidBuffer, e, f | SameKind(e, f) && IsNatural(e) && IsNatural(f)
      ensures act(act(b, e), f) == act(b, Joined(e, f))
    {
      SameKindMeans(e, f);
      JoinedIsNatural(e, f);
      NothingAdded(e, f);
      NothingAdded(f, e);
      ChangeInTurn(b, e, f);
    }
  }

  /** A content on which the merged edit and the later one alone differ. */
  function Telling(e1: Edit, e2: Edit): ValidBuffer
    requires SameKind(e1, e2) && IsNatural(e1) && IsNatural(e2)
  {
    match e1
    case Insert(_, _) => Buffer("", 0)
    case Remove(_, before, after) =>
      Buffer(seq(before + e2.before + after + e2.after, i => 'x'), before + e2.before)
  }

  lemma {:induction false} TellingTells(e1: Edit, e2: Edit)
    requires SameKind(e1, e2) && IsNatural(e1) && IsNatural(e2) && !IsNothing(e1)
    ensures Change(Telling(e1, e2), Joined(e1, e2)) != Change(Telling(e1, e2), e2)
  {
    var r := Telling(e1, e2);
    var merged, later := Change(r, Joined(e1, e2)), Change(r, e2);
    if e1.Insert? {
      assert |merged.text| == |later.text| + |e1.text|;
    } else {
      assert |later.text| == |merged.text| + e1.before + e1.after;
    }
  }

  lemma {:induction false} PlayResets(own: Edit, r: ValidBuffer, v: Scope, b: ValidBuffer, msgs: seq<Message>)
    requires NoneJoins(v, msgs, own) && (b == r || exists j :: 0 <= j < |msgs| && DoesSomething(v, msgs[j]))
    ensures PlayMessages(ResetBy(own, r), v, b, msgs) == r
    decreases |msgs|
  {
    hide EditOf, IsNothing, SameKind, Change;
    if msgs != [] {
      var e := EditOf(v, msgs[0]);
      var c := PlayMessage(ResetBy(own, r), v, b, msgs[0]);
      if e.Some? {
        assert !SameKind(e.value, own);
        KindIsSymmetric(e.value, own);
      }
      assert c == if DoesSomething(v, msgs[0]) then r else b;
      if c != r {
        var j :| 0 <= j < |msgs| && DoesSomething(v, msgs[j]);
        assert msgs[1..][j - 1] == msgs[j];
      }
      PlayResets(own, r, v, c, msgs[1..]);
    }
  }

  lemma {:induction false} KindIsSymmetric(e: Edit, f: Edit)
    ensures SameKind(e, f) <==> SameKind(f, e)
  {
  }

  lemma {:induction false} MovedTextIsNoticed(v: Scope, q: seq<Message>, m: Message)
    requires MovesText(v, q, One(m)) && NaturalRemovals(v, q + [m])
    ensures !SameEffect<ValidBuffer>(v, BasePut(q, m), q + [m])
  {
    hide Found, BasePut, EditOf, PlayMessages, SameKind, Joined, NoneJoins, IsNatural, NaturalRemovals, IsNothing,
         Change, Lawful, Telling;
    FoundMeans(v, q, m);
    var k := Found(q, m).value;
    var back, e1, e2 := q[k + 1..], EditOf(v, q[k]).value, EditOf(v, m).value;
    assert (q + [m])[k] == q[k] && (q + [m])[|q|] == m;
    NaturalAt(v, q + [m], k);
    NaturalAt(v, q + [m], |q|);
    var j :| k < j < |q| && DoesSomething(v, q[j]);
    assert back[j - k - 1] == q[j];
    var r := Telling(e1, e2);
    var act := ResetBy(e1, r);
    ResetIsLawful(e1, r);
    PlayAcross(act, v, r, q, m);
    var x := PlayMessages(act, v, r, q[..k]);
    PlayResets(e1, r, v, x, back);
    PlayResets(e1, r, v, act(x, e1), back);
    TellingTells(e1, e2);
    LastAlone(e1, e2, r);
    assert PlayMessages(act, v, r, BasePut(q, m)) != PlayMessages(act, v, r, q + [m]);
  }

  lemma {:induction false} LastAlone(e1: Edit, e2: Edit, r: ValidBuffer)
    requires SameKind(e1, e2) && IsNatural(e1) && IsNatural(e2) && !IsNothing(e1)
    ensures ResetBy(e1, r)(r, Joined(e1, e2)) == Change(r, Joined(e1, e2))
    ensures ResetBy(e1, r)(r, e2) == Change(r, e2)
  {
    hide Change, SameKind, Joined, IsNothing, IsNatural;
    SameKindMeans(e1, e2);
    JoinedIsNatural(e1, e2);
    if IsNothing(e2) {
      ChangeNothing(r, e2);
    }
  }

  /** A put leaves every window as appending the message would, whatever interactions, commands and the
      text of other clients do to it, if and only if it does not move queued text across something that
      counts. */
  lemma {:induction false} PutKeepsWindowExactly(v: Scope, q: seq<Message>, input: Input)
    requires ValidInput(input) && NaturalRemovals(v, q + Messages(input))
    ensures NaturalRemovals(v, Put(q, input))
    ensures SameEffect<ValidBuffer>(v, Put(q, input), q + Messages(input)) <==> !MovesText(v, q, input)
  {
    PutStaysNatural(v, q, input);
    hide SameEffect, Found, EditOf, Put, NaturalRemovals, IsNothing;
    if MovesText(v, q, input) {
      var j :| Found(q, input.m).value < j < |q| && DoesSomething(v, q[j]);
      assert EditOf(v, q[j]).Some?;
      OvertakingIsText(v, q, input);
      MovedTextIsNoticed(v, q, input.m);
    } else {
      PutKeepsEffect<ValidBuffer>(v, q, input);
    }
  }

  // ----- a document with several clients ----------------------------------------------------

  /** A text, and where the cursors of the clients are. */
  datatype Document = Document(text: string, cursors: map<string, nat>) {
    predicate Valid() { forall c :: c in cursors ==> cursors[c] <= |text| }
  }

  type ValidDocument = d: Document | d.Valid() witness Document("", map[])

  function At(d: ValidDocument, client: string): ValidBuffer
    requires client in d.cursors
  {
    Buffer(d.text, d.cursors[client])
  }

  /** Where a position is after an insertion or a removal at another one. */
  function AfterInsert(at: nat, n: nat, p: nat): nat {
    if p > at then p + n else p
  }

  function AfterCut(from: nat, to: nat, p: nat): nat
    requires from <= to
  {
    if p <= from then p else if p >= to then p - (to - from) else from
  }

  /** A client edits at its cursor, and the cursors of the others stay where they are in the text.  A
      client without a cursor edits nothing. */
  function InsertIn(d: ValidDocument, client: string, t: string): ValidDocument {
    if client !in d.cursors then d
    else
      var at := d.cursors[client];
      Document(InsertText(At(d, client), t).text,
               map c | c in d.cursors :: if c == client then at + |t| else AfterInsert(at, |t|, d.cursors[c]))
  }

  function RemoveIn(d: ValidDocument, client: string, before: nat, after: nat): ValidDocument {
    if client !in d.cursors then d
    else
      var b := At(d, client);
      var (from, to) := (CutFrom(b, before), CutTo(b, after));
      Document(RemoveAround(b, before, after).text, map c | c in d.cursors :: AfterCut(from, to, d.cursors[c]))
  }

  function EditIn(act: (ValidDocument, Message) -> ValidDocument, d: ValidDocument, e: Edit): ValidDocument {
    match e
    case Act(m) => act(d, m)
    case Insert(c, t) => InsertIn(d, c, t)
    case Remove(c, before, after) => if before >= 0 && after >= 0 then RemoveIn(d, c, before, after) else d
  }

  /** What edits do to the document, if `act` says what interactions and commands do. */
  function DocumentAction(act: (ValidDocument, Message) -> ValidDocument): Action<ValidDocument> {
    (d: ValidDocument, e: Edit) => EditIn(act, d, e)
  }

  lemma {:induction false} InsertInTwice(d: ValidDocument, client: string, t1: string, t2: string)
    ensures InsertIn(InsertIn(d, client, t1), client, t2) == InsertIn(d, client, t1 + t2)
  {
    hide InsertText;
    if client in d.cursors {
      var d1 := InsertIn(d, client, t1);
      var d2, once := InsertIn(d1, client, t2), InsertIn(d, client, t1 + t2);
      InsertInTurn(At(d, client), t1, t2);
      InsertedCursor(At(d, client), t1);
      assert At(d1, client) == InsertText(At(d, client), t1);
      assert forall c :: c in d.cursors ==> d2.cursors[c] == once.cursors[c];
    }
  }

  lemma {:induction false} InsertedCursor(b: ValidBuffer, t: string)
    ensures InsertText(b, t).cursor == b.cursor + |t|
  {
  }

  lemma {:induction false} RemoveInTwice(d: ValidDocument, client: string, b1: nat, a1: nat, b2: nat, a2: nat)
    ensures RemoveIn(RemoveIn(d, client, b1, a1), client, b2, a2) == RemoveIn(d, client, b1 + b2, a1 + a2)
  {
    hide RemoveAround, CutFrom, CutTo, AfterCut;
    if client in d.cursors {
      var b := At(d, client);
      RemoveCuts(b, b1, a1);
      CutCursor(b, b1, a1);
      var d1 := RemoveIn(d, client, b1, a1);
      var c := At(d1, client);
      assert c == RemoveAround(b, b1, a1);
      RemoveInTurn(b, b1, a1, b2, a2);
      CutCursor(c, b2, a2);
      CutCursor(b, b1 + b2, a1 + a2);
      forall p: nat
        ensures AfterCut(CutFrom(c, b2), CutTo(c, a2), AfterCut(CutFrom(b, b1), CutTo(b, a1), p)) ==
                AfterCut(CutFrom(b, b1 + b2), CutTo(b, a1 + a2), p)
      {
        CursorCutTwice(b, c, b1, a1, b2, a2, p);
      }
      var d2, once := RemoveIn(d1, client, b2, a2), RemoveIn(d, client, b1 + b2, a1 + a2);
      assert forall c :: c in d.cursors ==> d2.cursors[c] == once.cursors[c];
    }
  }

  lemma {:induction false} CutCursor(b: ValidBuffer, before: nat, after: nat)
    ensures CutFrom(b, before) <= b.cursor <= CutTo(b, after)
    ensures AfterCut(CutFrom(b, before), CutTo(b, after), b.cursor) == RemoveAround(b, before, after).cursor
  {
  }

  lemma {:induction false} CursorCutTwice(b: ValidBuffer, c: ValidBuffer, b1: nat, a1: nat, b2: nat, a2: nat, p: nat)
    requires c == RemoveAround(b, b1, a1)
    ensures CutFrom(b, b1) <= CutTo(b, a1) && CutFrom(c, b2) <= CutTo(c, a2)
    ensures CutFrom(b, b1 + b2) <= CutTo(b, a1 + a2)
    ensures AfterCut(CutFrom(c, b2), CutTo(c, a2), AfterCut(CutFrom(b, b1), CutTo(b, a1), p)) ==
            AfterCut(CutFrom(b, b1 + b2), CutTo(b, a1 + a2), p)
  {
    hide RemoveAround, CutFrom, CutTo;
    RemoveCuts(b, b1, a1);
    RemoveCuts(c, b2, a2);
    RemoveCuts(b, b1 + b2, a1 + a2);
    CutsCompose(b, c, b1, a1, b2, a2);
  }

  lemma {:induction false} NothingIn(d: ValidDocument, client: string)
    ensures InsertIn(d, client, "") == d && RemoveIn(d, client, 0, 0) == d
  {
    if client in d.cursors {
      ChangeNothing(At(d, client), Insert(client, ""));
      ChangeNothing(At(d, client), Remove(client, 0, 0));
      assert InsertIn(d, client, "").cursors == d.cursors;
      assert RemoveIn(d, client, 0, 0).cursors == d.cursors;
    }
  }

  /** A document that several clients edit is such a window, whatever interactions and commands do. */
  lemma {:induction false} DocumentIsLawful(act: (ValidDocument, Message) -> ValidDocument)
    ensures Lawful(DocumentAction(act))
  {
    hide InsertIn, RemoveIn;
    var edit := DocumentAction(act);
    forall d: ValidDocument, e, f | SameKind(e, f) && IsNatural(e) && IsNatural(f)
      ensures edit(edit(d, e), f) == edit(d, Joined(e, f))
    {
      if e.Insert? {
        InsertInTwice(d, e.client, e.text, f.text);
      } else {
        RemoveInTwice(d, e.client, e.before, e.after, f.before, f.after);
      }
    }
    forall d: ValidDocument, e | IsNothing(e) ensures edit(d, e) == d {
      NothingIn(d, e.client);
    }
  }

  // ----- runs on which text is moved --------------------------------------------------------

  function Typed(client: string, text: string): Message {
    TextInput(client, Some("0"), Some(text))
  }

  function NoState(): QState {
    QState([], Views([], map[]), [])
  }

  /** A client types a, something else happens that clears the window, and the client types b: the queue
      keeps that and ab, so that the window ends with ab where it should end with b. */
  ghost predicate EndsWithMore(v: Scope, x: Message) {
    var events := [PutEvent(One(Typed("child-1", "a"))), PutEvent(One(x)), PutEvent(One(Typed("child-1", "b")))];
    && ValidEvents(events) && NoState().views.Valid()
    && NaturalRemovals(v, History(events))
    && exists act: Action<ValidBuffer> ::
         && Lawful(act)
         && PlayMessages<ValidBuffer>(act, v, Buffer("", 0), Log(Run(NoState(), events))) == Buffer("ab", 2)
         && PlayMessages<ValidBuffer>(act, v, Buffer("", 0), History(events)) == Buffer("b", 1)
  }

  /** Another command of the client, such as undo. */
  lemma {:induction false} OvertakenCommand()
    ensures EndsWithMore(Scope(Some("child-1"), "0", true), Other("child-1", "uno .uno:Undo"))
  {
    Overtaken(Scope(Some("child-1"), "0", true), Other("child-1", "uno .uno:Undo"));
  }

  /** A key that another client presses in the same document, or its text. */
  lemma {:induction false} OvertakenClient(commands: bool)
    ensures EndsWithMore(Scope(None, "0", commands), Interaction("child-2", Key, "type=input char=0 key=1286"))
    ensures EndsWithMore(Scope(None, "0", commands), Typed("child-2", "x"))
  {
    hide EndsWithMore, DoesSomething;
    var v := Scope(None, "0", commands);
    var key, text := Interaction("child-2", Key, "type=input char=0 key=1286"), Typed("child-2", "x");
    OthersCount(v, key, text);
    Overtaken(v, key);
    Overtaken(v, text);
  }

  lemma {:induction false} OthersCount(v: Scope, key: Message, text: Message)
    requires v.client.None? && v.window == "0" && key.Interaction? && text == Typed("child-2", "x")
    ensures DoesSomething(v, key) && DoesSomething(v, text)
  {
  }

  lemma {:induction false} Overtaken(v: Scope, x: Message)
    requires LooksAt(v, "child-1") && v.window == "0" && DoesSomething(v, x) && !x.RemoveText?
    requires x.TextInput? || x.Interaction? ==> x.client != "child-1"
    ensures EndsWithMore(v, x)
  {
    hide EditOf, PlayMessages, Run, NaturalRemovals, History, Log, Lawful, DoesSomething;
    var a, b, ab := Typed("child-1", "a"), Typed("child-1", "b"), Typed("child-1", "ab");
    var own := Insert("child-1", "a");
    var empty: ValidBuffer, one: ValidBuffer := Buffer("", 0), Buffer("a", 1);
    var act := ResetBy(own, empty);
    ResetIsLawful(own, empty);
    ShowsNoTile(v, x);
    TypedPuts(x);
    ThreePuts(a, x, b);
    PlayedTwice(v, x, act, empty, ab, 2);
    PlayTyped(v, act, empty, "a");
    PlayedTwice(v, x, act, one, b, 1);
    PlayInTurn(act, v, empty, [a], [x, b]);
    assert [a] + [x, b] == [a, x, b];
    NoRemovals(v, a, x, b);
    assert PlayMessages(act, v, empty, [x, ab]) == Buffer("ab", 2);
  }

  lemma {:induction false} ShowsNoTile(v: Scope, x: Message)
    requires DoesSomething(v, x)
    ensures !x.Tile? && !x.Callback? && !x.Bare?
  {
  }

  lemma {:induction false} NoRemovals(v: Scope, a: Message, x: Message, b: Message)
    requires !a.RemoveText? && !x.RemoveText? && !b.RemoveText?
    ensures NaturalRemovals(v, [a, x, b])
  {
  }

  lemma {:induction false} PlayTyped(v: Scope, act: Action<ValidBuffer>, b: ValidBuffer, text: string)
    requires LooksAt(v, "child-1") && v.window == "0" && b == Buffer("", 0) && text != ""
    requires act == ResetBy(Insert("child-1", "a"), Buffer("", 0))
    ensures PlayMessages(act, v, b, [Typed("child-1", text)]) == Buffer(text, |text|)
  {
    hide PlayMessages;
    assert [] + [Typed("child-1", text)] == [Typed("child-1", text)];
    PlayLast(act, v, b, [], Typed("child-1", text));
    assert PlayMessages(act, v, b, []) == b by { NoMessages(act, v, b); }
    assert "" + text + "" == text;
  }

  lemma {:induction false} NoMessages<S>(act: Action<S>, v: Scope, s: S)
    ensures PlayMessages(act, v, s, []) == s
  {
  }

  lemma {:induction false} PlayedTwice(v: Scope, x: Message, act: Action<ValidBuffer>, b: ValidBuffer, m: Message,
                                       n: nat)
    requires LooksAt(v, "child-1") && v.window == "0" && DoesSomething(v, x)
    requires x.TextInput? || x.Interaction? ==> x.client != "child-1"
    requires act == ResetBy(Insert("child-1", "a"), Buffer("", 0))
    requires m.TextInput? && m.text.Some? && m == Typed("child-1", m.text.value) && |m.text.value| == n > 0
    ensures PlayMessages(act, v, b, [x, m]) == Buffer(m.text.value, n)
  {
    hide PlayMessages;
    assert [x] + [m] == [x, m] && [] + [x] == [x];
    PlayInTurn(act, v, b, [x], [m]);
    PlayLast(act, v, b, [], x);
    NoMessages(act, v, b);
    PlayTyped(v, act, Buffer("", 0), m.text.value);
  }

  lemma {:induction false} TypedPuts(x: Message)
    requires !x.Tile? && !x.Callback? && !x.Bare? && !x.RemoveText?
    requires x.TextInput? || x.Interaction? ==> x.client != "child-1"
    ensures BasePut([], Typed("child-1", "a")) == [Typed("child-1", "a")]
    ensures BasePut([Typed("child-1", "a")], x) == [Typed("child-1", "a"), x]
    ensures Put([Typed("child-1", "a"), x], One(Typed("child-1", "b"))) == [x, Typed("child-1", "ab")]
  {
    var q := [Typed("child-1", "a"), x];
    assert FindTextInput(q, "child-1", "0", 1) == Some(0);
    assert FindTextInput(q, "child-1", "0", 2) == Some(0);
    assert "a" + "b" == "ab";
    assert RemoveAt(q, 0) == [x];
  }

  lemma {:induction false} ThreePuts(a: Message, b: Message, c: Message)
    requires !a.Tile? && !a.Callback? && !b.Tile? && !b.Callback? && BasePut([], a) == [a] && BasePut([a], b) == [a, b]
    ensures var events, s := [PutEvent(One(a)), PutEvent(One(b)), PutEvent(One(c))], QState([], Views([], map[]), []);
            && ValidEvents(events) && s.views.Valid()
            && Log(Run(s, events)) == Put([a, b], One(c)) && History(events) == [a, b, c]
  {
    hide BasePut, Put, Run, History, Delivered;
    assert Put([], One(a)) == [a] && Put([a], One(b)) == [a, b] by { NoTile(a, b); }
    var s := QState([], Views([], map[]), []);
    var s1, s2, s3 := s.(queue := [a]), s.(queue := [a, b]), s.(queue := Put([a, b], One(c)));
    var e1, e2, e3 := PutEvent(One(a)), PutEvent(One(b)), PutEvent(One(c));
    NoMore(s3);
    OnePut(s2, c, []);
    OnePut(s1, b, [e3]);
    OnePut(s, a, [e2, e3]);
    assert [e3] + [] == [e3] && [e2] + [e3] == [e2, e3] && [e1] + [e2, e3] == [e1, e2, e3];
    assert [c] + [] == [c] && [b] + [c] == [b, c] && [a] + [b, c] == [a, b, c];
  }

  lemma {:induction false} OnePut(s: QState, m: Message, rest: seq<Event>)
    requires s.views.Valid() && ValidEvents(rest)
    ensures ValidEvents([PutEvent(One(m))] + rest)
    ensures Run(s, [PutEvent(One(m))] + rest) == Run(s.(queue := Put(s.queue, One(m))), rest)
    ensures History([PutEvent(One(m))] + rest) == [m] + History(rest)
  {
    hide Put;
    assert ([PutEvent(One(m))] + rest)[1..] == rest;
  }

  lemma {:induction false} NoMore(s: QState)
    requires s.views.Valid()
    ensures ValidEvents([]) && Run(s, []) == s && History([]) == []
    ensures s.responses == [] ==> Log(s) == s.queue
  {
  }

  lemma {:induction false} NoTile(a: Message, b: Message)
    requires !a.Tile? && !a.Callback? && !b.Tile? && !b.Callback? && BasePut([], a) == [a] && BasePut([a], b) == [a, b]
    ensures Put([], One(a)) == [a] && Put([a], One(b)) == [a, b]
  {
  }

  // ----- over a run -------------------------------------------------------------------------

  /** No put of the run moves text of the window across something that counts. */
  ghost predicate Harmless(v: Scope, s: QState, events: seq<Event>)
    requires s.views.Valid() && ValidEvents(events)
    decreases |events|
  {
    events == [] ||
    (StepKeepsViews(s, events[0]);
     && (events[0].PutEvent? ==> !MovesText(v, s.queue, events[0].input))
     && Harmless(v, Step(s, events[0]), events[1..]))
  }

  /** Every run is harmless if only one client's interactions and text are looked at. */
  lemma {:induction false} OwnEditsAreHarmless(v: Scope, s: QState, events: seq<Event>)
    requires s.views.Valid() && ValidEvents(events) && OwnEditsOnly(v)
    ensures Harmless(v, s, events)
    decreases |events|
  {
    hide Step, MovesText;
    if events != [] {
      StepKeepsViews(s, events[0]);
      if events[0].PutEvent? {
        OwnTextMoves(v, s.queue, events[0].input);
      }
      OwnEditsAreHarmless(v, Step(s, events[0]), events[1..]);
    }
  }

  lemma {:induction false} StepKeepsEffect<S(!new)>(act: Action<S>, v: Scope, x: S, s: QState, e: Event)
    requires Lawful(act)
    requires s.views.Closed() && (e.PutEvent? ==> ValidInput(e.input) && !MovesText(v, s.queue, e.input))
    requires NaturalRemovals(v, Log(s) + PutBy(e))
    ensures PlayMessages(act, v, x, Log(Step(s, e))) == PlayMessages(act, v, x, Log(s) + PutBy(e))
  {
    hide Step, Log, Put, Get, PlayMessages, MovesText, EditOf, NaturalRemovals, Lawful;
    var d := Delivered(s.responses);
    LogSteps(s, e);
    PlayInTurn(act, v, x, d, s.queue + PutBy(e));
    NaturalParts(v, d, s.queue + PutBy(e));
    assert s.queue + [] == s.queue;
    match e
    case PutEvent(input) =>
      PutKeepsEffect<S>(v, s.queue, input);
      PlayInTurn(act, v, x, d, Put(s.queue, input));
    case GetEvent =>
      if s.queue != [] {
        var now := Moved(Get(s.queue, s.views).0) + Get(s.queue, s.views).1;
        PlayInTurn(act, v, x, d, now);
        GetStaysNatural(v, s.queue, s.views);
        GetKeepsEdits(v, [], s.queue, s.views);
        SameEditsSameEffect<S>(v, now, s.queue);
      }
    case _ =>
  }

  /** Over any run whose removal counts are natural numbers: if only one client's interactions and text
      are looked at, or no put moves text across something that counts, a window that has seen everything
      that was delivered and is still queued is as if it had seen the messages as they were put. */
  lemma {:induction false} WindowsEndUpAsWithFifo<S(!new)>(act: Action<S>, v: Scope, x: S, s: QState,
                                                           events: seq<Event>)
    requires s.views.Valid() && ValidEvents(events) && Lawful(act) && (OwnEditsOnly(v) || Harmless(v, s, events))
    requires NaturalRemovals(v, Log(s) + History(events))
    ensures NaturalRemovals(v, Log(Run(s, events)))
    ensures PlayMessages(act, v, x, Log(Run(s, events))) == PlayMessages(act, v, x, Log(s) + History(events))
    decreases |events|
  {
    hide Step, Log, PutBy, PlayMessages, MovesText, NaturalRemovals, Lawful;
    RunStaysNatural(v, s, events);
    if OwnEditsOnly(v) {
      OwnEditsAreHarmless(v, s, events);
    }
    if events == [] {
      assert Log(s) + History(events) == Log(s);
    } else {
      var e, rest := events[0], events[1..];
      StepKeepsViews(s, e);
      HistoryGrows(Log(s), events);
      NaturalParts(v, Log(s) + PutBy(e), History(rest));
      StepStaysNatural(v, s, e);
      StepKeepsEffect(act, v, x, s, e);
      PlayInTurn(act, v, x, Log(s) + PutBy(e), History(rest));
      NaturalTogether(v, Log(Step(s, e)), History(rest));
      PlayInTurn(act, v, x, Log(Step(s, e)), History(rest));
      WindowsEndUpAsWithFifo(act, v, x, Step(s, e), rest);
    }
  }

  lemma {:induction false} NaturalTogether(v: Scope, p: seq<Message>, q: seq<Message>)
    requires NaturalRemovals(v, p) && NaturalRemovals(v, q)
    ensures NaturalRemovals(v, p + q)
  {
  }
}
