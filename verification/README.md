# Document-kit algorithms, modelled and proved

The kit process of an online office suite renders a document into tiles and talks to the clients
that view it.  This project models the parts of it that are algorithms: how a tile is sent as a
difference to an earlier one, how tiles are hashed, how requests and callbacks are queued, how tiles
are compressed in parallel and cached, and two small formats.

The code of the original that changes things step by step is imperative here too: classes with the
original's fields, methods with loops, arrays that are mixed in place.  Each method is proved against
a function that says what it computes, and the lemmas are about those functions, over all inputs and
over whole runs.

| file | what it models |
|---|---|
| `Wrappers.dfy`, `Arithmetic.dfy`, `Sequences.dfy` | Option, bytes, numbers, sequences |
| `Pixmaps.dfy` | a window of a pixmap: its rows, and where they are in the buffer |
| `Delta.dfy` | the delta stream as commands, the encoder as a function, the decoder, the round trips |
| `DeltaGenerator.dfy` | the encoder that appends and patches bytes, the window of seven bitmaps, a client that follows the server |
| `SpookyMix.dfy` | the mixing rounds of SpookyHash V2, in place, and their inverses |
| `SpookyHash.dfy` | the one-shot and the streaming hash, and the hash of a tile |
| `SpookyTells.dfy`, `SpookyVectors.dfy` | that every byte of a message counts; the hashes of some messages as numbers |
| `TileDesc.dfy`, `QueueSpec.dfy` | tile descriptors; put and get of the tile queue as functions on parsed messages |
| `TileQueue.dfy` | the queue's methods, which search, erase and append in place |
| `QueueRuns.dfy`, `QueueText.dfy`, `QueueCallbacks.dfy`, `QueueFairness.dfy`, `QueueTiles.dfy` | what the queue keeps over any run of puts, gets and cursor movements |
| `QueueWaiting.dfy`, `QueueDelays.dfy` | how long a message waits over any run; what can wait for ever |
| `PngCacheSpec.dfy`, `PngCache.dfy` | the image cache with its eviction, and the wire ids |
| `ThreadPool.dfy`, `ThreadPoolRuns.dfy` | the thread pool as a state machine of lock-delimited steps; whole calls of run and of the destructor |
| `RenderSpec.dfy`, `RenderTiles.dfy` | the bookkeeping that answers every tile of a request from one buffer |
| `RenderRuns.dfy` | requests one after the other, and what the wire ids tell a client |
| `Levenshtein.dfy` | the edit-distance table |
| `Clipboard.dfy` | the clipboard format, with a stream that has eof and fail bits |

`dafny verify dfyconfig.toml` verifies the whole project.

## Results that are not quite what one would expect

- **Delta, height 256.**  A copy run may grow from the bottom row on to row 0, because row numbers are
  compared as bytes.  A decoder that keeps source rows modulo 256 always gets the bitmap back
  (`Delta.RoundTrip`); one that counts in ints, like the one in the tests, gets it back exactly if no
  run grows over the edge (`Delta.StrictRoundTrip`), which cannot happen below 256 rows
  (`Delta.ShortBitmapsNeverWrap`) and does happen at 256 (`DeltaGenerators.WrapExample`).
- **Thread pool.**  A `run` that does not use the threads does not wait for them.  A worker that an
  earlier `run` has woken may take the mutex late and be running a task when a later `run` returns,
  without any spurious wake-up (`ThreadPoolRuns.LateWorker`).  `ThreadPoolRuns.EarlyReturnExactly` says
  exactly when this can happen, and `ThreadPoolRuns.SpuriousEarlyReturnExactly` when spurious wake-ups are
  counted in; then a pool of one worker is enough (`ThreadPoolRuns.OneWorker`).
- **Text input.**  Text is merged with queued text of the same client and window across the client's
  other commands, such as paste or undo, and across everything that other clients do in the same
  document, none of which blocks merging as the client's own keys and mouse events do.  A put leaves
  every window as appending would exactly if nothing that does something lies behind the text found
  (`QueueText.PutKeepsWindowExactly`); of a single client that can only be another command
  (`QueueText.OwnTextMoves`).  `QueueText.OvertakenCommand` and `QueueText.OvertakenClient` are runs in
  which the document ends up different.
- **Waiting.**  A message that is no tile is given out after at most as many gets as its place in the
  queue, unless a put merges or supersedes it (`QueueWaiting.NoStarvation`).  So is a tile that has
  anything but a plain tile behind it, within as many gets as that message has messages in front of it
  (`QueueWaiting.TileComesOut`), and a preview with no other preview in front of it, or none behind a
  message in front of it that is no tile (`QueueWaiting.PreviewComesOut`).  Of the tiles at the front, where get looks for the best one, the
  others can wait for ever behind tiles at a cursor: as long as puts take nothing out of the queue, such
  a tile is sure to come out if and only if the queue has something else than plain tiles
  (`QueueDelays.SureExactly`, with `QueueDelays.TileBelowTheCursor`).  Also text that is merged again
  and again can wait for ever (`QueueDelays.TextCanWaitForEver`), a tile in front of a callback that is
  superseded again and again (`QueueDelays.RenewedCallbackIsNoStop`), and a preview that is moved to the
  end again and again (`QueueDelays.PreviewCanWaitForEver`).
- **Wire ids.**  The counter that wraps hands out 0, which is also the id of tiles without a hash, and
  then repeats ids: ids tell hashes apart exactly as long as the counter has not wrapped
  (`PngCacheSpec.IdsAreNeverShared`), and `PngCacheSpec.WrapReusesIds` is a history that gets there.
- **Rendering.**  A tile whose hash is 0 and that is not the first such tile of its request gets no
  answer, and neither does a tile whose compression fails, nor the duplicates of either
  (`RenderTiles.UnansweredExactly`).  After the counter has wrapped, the one hash that has the id 0 is
  taken for one that a new client already has, or for a duplicate of a tile without a hash, which leaves
  it unanswered (`RenderTiles.SharedIds`).
- **Superseded tiles.**  A new tile takes the place of a queued one whose text begins like its own, up to
  " ver", and goes on.  So it also takes the place of another tile if the text for that one only goes on
  where its own ends, as wid=12 does after wid=1 (`QueueTiles.ReplacesLongerText`).
- **Clipboard.**  An entry with a size but a null data pointer breaks the format; so do an empty MIME
  type and one with a newline.  Without these it is a round trip, and only then
  (`Clipboards.RoundTrip`).

## Model

| member | source | states |
|---|---|---|
| Delta.RoundTrip | kit/Delta.hpp:95-194 | for all bitmaps of one size up to 256 by 256, decoding the stream against the previous bitmap gives exactly the current one, when source rows are taken modulo 256 |
| Delta.StrictRoundTrip | kit/Delta.hpp:127-155 | the decoder that counts source rows in ints gets the bitmap back if and only if no copy run is extended by row 0, and otherwise fails |
| Delta.ShortBitmapsNeverWrap | kit/Delta.hpp:111-143 | with at most 255 rows no copy run is ever extended by row 0 |
| Delta.DecodeSerialized | test/DeltaTests.cpp:64-123 | decoding the bytes of a command list is carrying out the commands one after the other |
| Delta.RunsRebuildRow | kit/Delta.hpp:159-190 | the pixel runs sent for a row turn the old row into the new one and touch nothing else |
| Delta.AddCopyCopiesRow | kit/Delta.hpp:132-153 | raising the count of the latest copy command, or appending a new one, has the effect of copying one more row and keeps the meaning of the stream before it |
| Delta.HuntIsComplete | kit/Delta.hpp:125-130 | the modular search finds a row if and only if the previous bitmap has it, wherever it starts |
| Delta.RunGoesOn | kit/Delta.hpp:171-175 | a pixel run takes two pixels if the row has them, goes on over pixels that have not changed, and ends at the end of the row, after 254 pixels, or before the next changed one |
| Delta.ScrolledRowsJoin | kit/Delta.hpp:125-145 | as long as rows go on to come from the same distance the latest copy command takes them in, for up to 128 rows |
| Delta.ScrollIsOneCopy | kit/Delta.hpp:125-155 | scrolling a picture of at most 128 different rows is one copy command for all rows that stay in view |
| Delta.KnownRowsAreNeverSentAsPixels | kit/Delta.hpp:125-191 | pixels are sent only for rows that equal no row of the previous bitmap |
| Delta.SizeBound | kit/Delta.hpp:108-191 | a delta of h rows of w pixels has at most 1 + h(6w + 2) bytes |
| DeltaGenerators.PatchTest | kit/Delta.hpp:133-138 | the test on the signed bytes at lastCopy is the test whether the new copy continues the latest copy command |
| DeltaGenerators.PatchedBytes | kit/Delta.hpp:135-142 | incrementing the byte at lastCopy is incrementing the count of the latest copy command and changes no other command |
| DeltaGenerators.HuntRow | kit/Delta.hpp:125-155 | the loop over wrapped size_t sums looks at the same rows as the search over integers |
| DeltaGenerators.PutCopy | kit/Delta.hpp:132-154 | patches or appends, and leaves output, lastMatchOffset and lastCopy as the plan has them |
| DeltaGenerators.PutRow | kit/Delta.hpp:162-190 | the pixel loop ends and appends exactly the planned runs |
| DeltaGenerators.MakeDelta | kit/Delta.hpp:95-194 | appends the encoding of the pair of bitmaps to the output, or returns false and appends nothing if the sizes differ |
| DeltaGenerators.DataToDeltaData | kit/Delta.hpp:196-234 | the stored bitmap is, row by row and pixel by pixel, the window of the pixmap: of the rows that the buffer is cut into those from startY on, and of each the pixels from startX on |
| DeltaGenerators.DeltaGenerator.CreateDelta | kit/Delta.hpp:245-267 | stores the picture, of any size; the entries are the newest seven; appends the delta against the first entry with the old id, or answers false. Only where makeDelta goes on after comparing the sizes must the picture have at most 256 rows and columns |
| DeltaGenerators.WindowSlides | kit/Delta.hpp:253-259 | dropping the first of more than six entries and appending keeps exactly the last seven of the history |
| DeltaGenerators.AnswerDecodes | kit/Delta.hpp:245-267 | there is a delta if and only if the old picture is among the last seven and has the same size; applying it to the old picture gives the newest one |
| DeltaGenerators.ClientFollowsServer | kit/Delta.hpp:245-267 | over any run of calls in which an id always means the same picture, all a client holds is what the server stored, and a client that holds the old picture gets the newest one |
| DeltaGenerators.WrapExample | kit/Delta.hpp:133-142 | two bitmaps of 256 rows for which the decoder that counts in ints fails and the other succeeds |
| DeltaGenerators.DeltaExample | kit/Delta.hpp:108-190 | the bytes of one delta with a copy of two rows and a pixel run, as numbers |
| Pixmaps.RowIsOfWindow | kit/Delta.hpp:220-226 | the bytes at which the source looks for a row of the window are that row |
| Pixmaps.CutThenConcat | kit/Delta.hpp:220-226 | a buffer cut into rows and joined again is the buffer |
| Pixmaps.WholeWindow | kit/Delta.hpp:196-226 | the rows of the window that takes in everything, joined, are the buffer |
| Pixmaps.SideBySide | kit/Delta.hpp:196-226 | windows side by side show what one as wide as both shows |
| Pixmaps.OneBelowTheOther | kit/Delta.hpp:196-226 | windows one below the other show what one as high as both shows |
| SpookyMix.RotBack | common/SpookyV2.h:117-120 | a rotation by k is undone by one by 64 - k, for all k from 1 to 63 |
| SpookyMix.MixIsAPermutation | common/SpookyV2.h:135-153 | for any block of data Mix is a bijection on the twelve words, by an explicit two-sided inverse |
| SpookyMix.EndPartialIsAPermutation | common/SpookyV2.h:171-188 | EndPartial is a bijection on the twelve words |
| SpookyMix.ShortMixIsAPermutation | common/SpookyV2.h:219-233 | ShortMix is a bijection on the four words |
| SpookyMix.ShortEndIsAPermutation | common/SpookyV2.h:247-260 | ShortEnd is a bijection on the four words |
| SpookyMix.MixInPlace | common/SpookyV2.h:135-153 | the twelve written-out lines, on an array, are the twelve rows that are inverted above |
| SpookyMix.EndPartialInPlace | common/SpookyV2.h:171-188 | the same for EndPartial |
| SpookyMix.EndInPlace | common/SpookyV2.h:190-202 | adds the data and applies EndPartial three times |
| SpookyMix.ShortMixInPlace | common/SpookyV2.h:219-233 | the same for ShortMix |
| SpookyMix.ShortEndInPlace | common/SpookyV2.h:247-260 | the same for ShortEnd |
| SpookyHashes.AddTail | common/SpookyV2.cpp:86-137 | the switch with its fall-throughs adds the last 1 to 15 bytes as two zero-padded little-endian words |
| SpookyHashes.Short | common/SpookyV2.cpp:30-141 | the loop with its advancing pointer hashes the sets of 32 bytes, the half set and the tail in order |
| SpookyHashes.HashOnce | common/SpookyV2.cpp:147-206 | the one-shot hash of any message: short messages by Short, others block by block with a padded last block |
| SpookyHashes.SpookyHash.Init | common/SpookyV2.cpp:211-217 | starts with the empty message and the two seeds |
| SpookyHashes.SpookyHash.Update | common/SpookyV2.cpp:221-321 | the message grows by the fragment, whatever its length and whatever is in the stash |
| SpookyHashes.SpookyHash.Final | common/SpookyV2.cpp:325-370 | returns the one-shot hash of the message; it may overwrite the stash behind the stashed bytes but keeps the state valid for the same message |
| SpookyHashes.HashPieces | common/SpookyV2.h:94-113 | after any pieces, with Final asked after each, every answer is the one-shot hash of the pieces so far joined |
| SpookyTells.WordValue | common/SpookyV2.cpp:62-84 | a word of the message is the number that its eight bytes make up, the first byte counting least |
| SpookyTells.EveryWordCounts | common/SpookyV2.cpp:30-206 | two messages of the same length that differ in one word, or in one byte, anywhere, end with different states: nothing is lost before the state is cut to two words |
| SpookyTells.HashIsOfState | common/SpookyV2.cpp:138-141 | the hash is the first two words of that state |
| SpookyVectors.NoBytesHash | common/SpookyV2.cpp:30-141 | the hash of no bytes, as a number |
| SpookyVectors.OneByteHash | common/SpookyV2.cpp:30-141 | the hash of one byte |
| SpookyVectors.FortyBytesHash | common/SpookyV2.cpp:30-141 | the hash of 40 bytes: a complete set of 32 and a tail |
| SpookyVectors.TwoHundredBytesHash | common/SpookyV2.cpp:147-206 | the hash of 200 bytes: two blocks and a padded one |
| SpookyHashes.HashSubBuffer | common/Png.hpp:249-269 | 0 for a tile larger than the buffer, else the one-shot hash of the rows of the tile's window, joined |
| TileQueues.TileQueue.CombineTextInput | common/MessageQueue.hpp:133-181 | takes out the latest queued text input of the same client and window if nothing blocks it, and returns the joined one |
| TileQueues.TileQueue.CombineRemoveText | common/MessageQueue.hpp:190-244 | the same for removals, with the counts added |
| TileQueues.TileQueue.BasePut | common/MessageQueue.hpp:89-112 | the queue after the put is the one of the specification |
| TileQueues.TileQueue.RemoveTileDuplicate | common/MessageQueue.cpp:101-126 | erases the first message whose text agrees with the new one up to " ver", and no other |
| TileQueues.TileQueue.SweepInvalidations | common/MessageQueue.cpp:205-317 | the loop that erases while it walks is the recursive sweep: same queue, same grown rectangle, same flag |
| TileQueues.TileQueue.RemoveCallbackDuplicate | common/MessageQueue.cpp:187-431 | the queue and the message to append are those of the specification, for every kind of callback, and only an invalidation that has a rectangle is rewritten |
| TileQueues.TileQueue.Put | common/MessageQueue.cpp:23-99 | the queue after any put is the one of the specification |
| TileQueues.TileQueue.Priority | common/MessageQueue.cpp:433-446 | the highest index of a view whose cursor the tile meets, else -1 |
| TileQueues.TileQueue.DeprioritizePreviews | common/MessageQueue.cpp:448-466 | the leading previews go to the end, in order |
| TileQueues.TileQueue.FindPrioritized | common/MessageQueue.cpp:493-524 | the scan with its early exit finds the earliest of the leading tiles with the highest priority |
| TileQueues.TileQueue.CombineTiles | common/MessageQueue.cpp:531-557 | takes out exactly the plain tiles that can be combined with the first one, in order |
| TileQueues.TileQueue.Get | common/MessageQueue.cpp:468-571 | the answer and the rest of the queue are those of the specification |
| TileQueues.TileQueue.UpdateCursorPosition | common/MessageQueue.hpp:284-307 | the view moves to the end of the order and has the new cursor |
| TileQueues.TileQueue.RemoveCursorPosition | common/MessageQueue.hpp:309-318 | the view is neither in the order nor among the cursors |
| TileDescs.IntersectExactly | wsd/TileDesc.hpp:94-106 | rectangles intersect if and only if they have a point in common, borders included |
| TileDescs.CombinesOnGrid | wsd/TileDesc.hpp:123-152 | tiles on one grid are combined if and only if they are of the same view, part and size, at most sixteen columns and at most one row apart |
| QueueRuns.StepKeepsViews | common/MessageQueue.hpp:284-318 | the view order stays free of duplicates and equal, as a set, to the views that have a cursor |
| QueueRuns.MergedExactly | common/MessageQueue.hpp:133-244 | text is merged with the latest text input of the same client and window, and removals with the latest removal, if and only if no single token, no interaction of the client and none of its text of the other kind lies behind it |
| QueueRuns.PlainMessagesStayInOrder | common/MessageQueue.cpp:23-99 | over any run, messages that are never merged, such as callbacks of the modified status and of all types that do not just give a latest value, are delivered unchanged and first in, first out: nothing lost, doubled or reordered |
| QueueRuns.EditsAreThoseOfFifo | common/MessageQueue.hpp:133-244 | over any run, merging text input and text removal never changes what is done to a window, as a sequence of interactions, commands, insertions and removals of all clients or of one: always if one client's interactions and text are looked at, and else if no put moves text across something that counts |
| QueueRuns.PutKeepsEditsExactly | common/MessageQueue.hpp:133-244 | a put keeps that sequence if and only if nothing that counts lies behind the text found, or the text found is empty and next to an edit of its kind |
| QueueRuns.OwnTextOvertakes | common/MessageQueue.hpp:149-156 | of a single client only its commands other than keys, mouse and window keys can lie behind the text found |
| QueueText.RemoveInTurn | common/MessageQueue.hpp:225-237 | on any text and cursor a removal with summed counts does what the two removals do in turn |
| QueueText.PutKeepsWindowExactly | common/MessageQueue.hpp:133-244 | a put has the effect of appending on every window, whatever interactions, commands and the text of other clients do to it, if and only if it does not move text that is not empty across something that does something |
| QueueText.OwnTextMoves | common/MessageQueue.hpp:149-156 | of a single client that is so if and only if another command of the client lies behind the text found and the text is not empty |
| QueueText.OvertakenCommand | common/MessageQueue.hpp:149-157 | a run of three puts with a command of the client between two text inputs, and a window that ends with ab where first in, first out ends with b |
| QueueText.OvertakenClient | kit/Kit.cpp:1584-1607 | the same with a key that another client presses in the document, and with its text: one queue holds the messages of all sessions |
| QueueText.DocumentIsLawful | kit/ChildSession.cpp:1376-1401 | a text in which several clients edit, each at its own cursor, is a window that all this is about: two insertions of a client in a row are one, two removals are one, and empty ones do nothing |
| QueueText.WindowsEndUpAsWithFifo | common/MessageQueue.hpp:133-244 | over any run with natural removal counts every window, whatever is done to it, ends up as without any merging: always if only one client's interactions and text act on it, and else if no put moves text across something that does something |
| QueueCallbacks.LatestValuesAreThoseOfFifo | common/MessageQueue.cpp:320-422 | over any run, dropping obsolete callbacks never changes what a client ends up with that keeps the latest message of every slot, whatever its slots are, if callbacks with the same key go to the same one |
| QueueCallbacks.SessionsShowWhatFifoShows | common/MessageQueue.cpp:320-422 | so for every session, which shows what comes for all, for all but one and for its own view as one state |
| QueueCallbacks.KeysFollowKeys | common/MessageQueue.cpp:320-422 | and for a client that keeps the latest callback of every key |
| QueueCallbacks.AtMostOneCallbackAKey | common/MessageQueue.cpp:320-422 | over any run, at most one queued callback has a given key (target and type, view id, or command) |
| QueueCallbacks.NoObsoleteCallbackIsQueued | common/MessageQueue.cpp:320-422 | over any run no two queued callbacks give the same target the position of the same kind of cursor, what the same view shows, or the state of the same command other than the modified status |
| QueueCallbacks.SweepCovers | common/MessageQueue.cpp:249-298 | every point of the new rectangle and of the queued ones is covered by the grown rectangle or by an invalidation that stays queued |
| QueueCallbacks.MergedRectanglesAreSmall | common/MessageQueue.cpp:266-293 | a rectangle that was merged is at most 15360 by 7680; without a merge it is the one that came |
| QueueCallbacks.JudgeExactly | common/MessageQueue.cpp:249-298 | a queued invalidation is dropped if and only if all its points lie in the new rectangle, and merged if and only if else they have a point in common and the smallest rectangle around both is at most 15360 by 7680 |
| QueueCallbacks.JoinIsBoundingBox | common/MessageQueue.cpp:266-274 | the merged rectangle is the smallest one around both |
| QueueCallbacks.EmptyFormIsNeverMerged | common/MessageQueue.cpp:303-316 | an invalidation of everything takes no other one in, so that only messages with a rectangle in their text are rewritten |
| QueueCallbacks.SweepKeepsOthers | common/MessageQueue.cpp:216-301 | all messages but the invalidations of the same target and part stay, unchanged and in order |
| QueueCallbacks.NoInvalidatedPointIsLost | common/MessageQueue.cpp:205-317 | over any run, every point that some put invalidated is invalidated by what was delivered or is still queued |
| QueueFairness.BestIsTheEarliestOfHighestPriority | common/MessageQueue.cpp:493-524 | no leading tile has a higher priority than the one taken, and no earlier one has the same |
| QueueFairness.EarlyExitIsSound | common/MessageQueue.cpp:518-522 | a tile that meets the cursor of the latest view would win against all later ones too |
| QueueFairness.GetConservesTiles | common/MessageQueue.cpp:468-571 | a get gives out tiles of the queue and keeps the others, counted by descriptor |
| QueueFairness.TilesAreConserved | common/MessageQueue.cpp:23-571 | over any run, every tile put is queued, given out or superseded, as often as it was put; and what is superseded agrees, up to what counts of a tile message, with a tile put at the event that superseded it |
| QueueTiles.ReplacesExactly | common/MessageQueue.cpp:101-126 | a new tile supersedes a queued tile message if and only if that begins with the text before its first " ver", or without one with all but its last character, and goes on |
| QueueTiles.ReplacesLongerText | common/MessageQueue.cpp:109-120 | so it supersedes a tile about something else whose text only goes on where its own ends |
| QueueTiles.OneTileAPlace | common/MessageQueue.cpp:101-126 | over any run, at most one tile message with a given text before " ver" is queued, if no other tile that is put has a longer text beginning like that |
| QueueFairness.GetShrinks | common/MessageQueue.cpp:468-571 | every get on a queue that is not empty makes it shorter |
| QueueWaiting.NoStarvation | common/MessageQueue.cpp:448-571 | a message that is no tile, at index p, is given out unchanged by one of the next p + 1 gets, whatever is put or moved in between, unless a put merges or supersedes it before; that never happens to a message that is never merged |
| QueueWaiting.FollowMeans | common/MessageQueue.cpp:23-99 | a put moves no message away from the front, and takes one out only if it merges or supersedes it: same client and window, same key, same target and part, or same tile |
| QueueWaiting.FollowGetMeans | common/MessageQueue.cpp:468-571 | what vanishes in a get is given out by it; everything but plain tiles goes out at the front only, and a message that is no tile comes closer to the front with every get |
| QueueWaiting.TileComesOut | common/MessageQueue.cpp:493-526 | over any run, a plain tile in front of a message at index p that is no plain tile is given out by one of the next p gets, whatever is put and wherever cursors move, unless a put supersedes the tile, or merges or supersedes that message, before; the latter never happens to a message that is never merged |
| QueueWaiting.PreviewComesOut | common/MessageQueue.cpp:448-484 | over any run, a preview at index p with no other preview in front of it, or none behind a message in front of it that is no tile, is given out by one of the next p + 1 gets, unless a put takes the preview or that message before |
| QueueDelays.SureExactly | common/MessageQueue.cpp:493-526 | for a tile that the search for the best tile reaches there is a bound on the gets, over all runs whose puts take nothing out of the queue, if and only if the search stops before the end of the queue; and then the place where it stops is one |
| QueueDelays.TextCanWaitForEver | common/MessageQueue.hpp:97-106 | text into which new text is merged again and again never comes out, after any number of gets |
| QueueDelays.TileCanWaitForEver | common/MessageQueue.cpp:493-526 | a queue of plain tiles is unchanged by any number of rounds in which a tile that is preferred to all of them comes in and a get follows: none of them comes out |
| QueueDelays.TileBelowTheCursor | common/MessageQueue.cpp:433-446 | with a cursor at the top, the tile there is preferred to a tile ten rows below, is no version of it and cannot be combined with it |
| QueueDelays.RenewedCallbackIsNoStop | common/MessageQueue.cpp:493-526 | a callback behind the tile does not help if a new one supersedes it before every get: the tile is still there after any number of rounds |
| QueueDelays.PreviewCanWaitForEver | common/MessageQueue.cpp:448-466 | a preview behind another preview is moved to the end whenever a preview is given out, and never comes out itself, in any number of rounds, although other messages are queued too |
| QueueDelays.ThreePreviews | common/MessageQueue.cpp:448-466 | a tile and three previews for which this happens |
| PngCacheSpec.BalanceShrinks | common/RenderTiles.hpp:110-145 | for any iteration order: above the hard limit at least one entry goes, none used more than average goes, the others age by one use without underflow, and the size ends at or below the limit or only entries used more than average are left |
| PngCacheSpec.BalancedExactly | common/RenderTiles.hpp:113-145 | what balancing may come to, without the sweep: for some order of the entries, an unused one goes if and only if the bytes still held are above the soft limit, and a used one if and only if they are above the hard limit and it was not used more than average; what stays ages by one use |
| PngCacheSpec.BalanceDropsNoMore | common/RenderTiles.hpp:125-143 | with some dropped image the size would still be above the soft limit; and the size ends at or below it or nothing unused is left |
| PngCacheSpec.UnusedGoFirst | common/RenderTiles.hpp:125-143 | three unused images with sizes in bytes: two go and one stays |
| PngCacheSpec.UnusedStayAtTheSoftLimit | common/RenderTiles.hpp:125-143 | the same in an order in which 131072 bytes are left, which stay |
| PngCacheSpec.UsedGoAboveTheHardLimit | common/RenderTiles.hpp:125-143 | three used images: one goes, one stays for its size and one for its uses |
| PngCacheSpec.AverageIsReached | common/RenderTiles.hpp:116-123 | some entry has at most the average number of hits, so that a triggered balance evicts |
| PngCacheSpec.RoundsReachTheLimit | common/RenderTiles.hpp:110-145 | as many rounds as there are entries bring the size to the hard limit or below, whatever the iteration order is each time |
| PngCacheSpec.TrimBoundsTable | common/RenderTiles.hpp:147-159 | after balancing the table of ids has at most 4096 entries, at most 2049 if it was trimmed, and these are exactly those with the latest ids |
| PngCacheSpec.IdsAreNeverShared | common/RenderTiles.hpp:99-106 | over any history, even after half the table was dropped, the ids tell the hashes apart from each other and from tiles without a hash, if and only if the counter has not wrapped |
| PngCacheSpec.ShortRunsDoNotWrap | common/RenderTiles.hpp:99-106 | fewer than 2^32 - 1 lookups and balances cannot make the counter wrap |
| PngCacheSpec.WrapReusesIds | common/RenderTiles.hpp:99-106 | a history that wraps: after lookups of 2^32 hashes the last but one has the id of tiles without a hash and the last one that of the first |
| PngCacheSpec.WrapForgetsId | common/RenderTiles.hpp:188-202 | a wrap between two lookups of a hash changes its id to 2, so that the assertion of addToCache holds only if it was 2 before |
| PngCaches.PngCache.HashToWireId | common/RenderTiles.hpp:209-223 | the id and the tables after a lookup; everything is forgotten if the counter wraps |
| PngCaches.PngCache.CopyFromCache | common/RenderTiles.hpp:164-186 | a hit appends the stored image and counts one more use; a miss changes nothing but the number of tests |
| PngCaches.PngCache.AddToCache | common/RenderTiles.hpp:188-202 | stores the image with one use and keeps the size exact |
| PngCaches.PngCache.BalanceImages | common/RenderTiles.hpp:110-145 | the two loops over the hash table are the sweep, for the order in which it happens to be iterated |
| PngCaches.PngCache.TrimWireIds | common/RenderTiles.hpp:147-159 | the loop that erases leaves exactly the ids that are recent, and at most 4096 |
| PngCaches.PngCache.BalanceCache | common/RenderTiles.hpp:110-160 | both of these, and _cacheSize is still the sum of the sizes |
| ThreadPools.EachTaskRunsOnce | common/RenderTiles.hpp:286-312 | in every interleaving tasks start in the order of the pushes, once each; what has started is in flight or done; _working counts what is in flight |
| ThreadPools.NoLostWakeUp | common/RenderTiles.hpp:308-332 | a main thread that waits without having been notified has a worker that runs a task, the last one to finish notifies it, and then it finds nothing left to wait for |
| ThreadPoolRuns.RunReturnsIdle | common/RenderTiles.hpp:314-332 | a run that uses the threads returns only when nothing is queued or in flight and each push has been done once |
| ThreadPoolRuns.RunReturns | common/RenderTiles.hpp:314-343 | inside run some thread can always take a step that is not a spurious wake-up, and only a bounded number of such steps can be taken before it returns |
| ThreadPoolRuns.EarlyReturnExactly | common/RenderTiles.hpp:314-343 | a run that does not use the threads can return while a task is running, without spurious wake-ups, if and only if it is called while a worker runs a task, or with two tasks or more while a woken worker has not had the mutex yet |
| ThreadPoolRuns.SpuriousEarlyReturnExactly | common/RenderTiles.hpp:314-343 | with spurious wake-ups too, it can if and only if it is called while a worker runs a task, or with two tasks or more while there is a worker at all |
| ThreadPoolRuns.LateWorker | common/RenderTiles.hpp:314-343 | with two workers such a state is reached |
| ThreadPoolRuns.OneWorker | common/RenderTiles.hpp:314-343 | with one worker and two tasks a state is reached from which run can return early with spurious wake-ups, and cannot without |
| ThreadPoolRuns.DestructorEnds | common/RenderTiles.hpp:269-279 | the destructor never deadlocks and ends: until the workers are joined some thread can take a step, and at most two steps for each worker and two of the main thread can be taken, spurious wake-ups included |
| RenderSpec.RequestIsValid | common/RenderTiles.hpp:491-492 | if the counter does not wrap within a request, equal hashes get equal wire ids, and the ids tell the hashes apart if and only if none of them is the one that has the id 0 of an earlier wrap |
| RenderSpec.SlicesAreOwn | common/RenderTiles.hpp:619-633 | cutting the output by the sizes in the answers gives each answered tile its own image and uses up the whole output |
| RenderTiles.DuplicateExactly | common/RenderTiles.hpp:516-534 | the search through renderingIds sets a tile aside exactly if an earlier tile with the same wire id is being compressed, be it another hash or not |
| RenderTiles.ScanTile | common/RenderTiles.hpp:491-557 | each tile is answered at once, queued for compression or set aside as a duplicate, and what is answered so far stays faithful to the output |
| RenderTiles.RunTask | common/RenderTiles.hpp:536-556 | a task appends, caches and records its image together, or does nothing if the encoder fails |
| RenderTiles.RunPool | common/RenderTiles.hpp:567 | in whatever order the tasks run, output stays the concatenation of the images listed in renderedTiles |
| RenderTiles.AppendDuplicates | common/RenderTiles.hpp:578-591 | each duplicate gets the image of the tile that was compressed for it, and none if that tile has another hash |
| RenderTiles.DoRender | common/RenderTiles.hpp:390-635 | exactly the tiles that have a picture are answered, each once and with its own picture, in one message or one by one; afterwards the wire ids are those after looking up the hashes in turn, trimmed, and the images are those of the end of the request, balanced: all that were known, and the new ones, each with one use more for every tile with its hash that the client did not have |
| RenderTiles.EveryTileAnsweredOnce | common/RenderTiles.hpp:476-591 | with hashes that are not 0, ids that tell them apart and an encoder that does not fail, every requested tile is answered once, duplicates included |
| RenderTiles.UnansweredExactly | common/RenderTiles.hpp:476-591 | a tile stays unanswered if and only if it is not skipped, not cached, and either the encoder fails on the first tile with its wire id or that is another tile and this one has no hash or a different one |
| RenderTiles.UnansweredTiles | common/RenderTiles.hpp:476-591 | a request of four tiles to a new cache of which only the first is answered |
| RenderTiles.SharedIds | common/RenderTiles.hpp:491-534 | a request in the state that a history of 2^32 - 1 lookups reaches: a tile that was never sent is skipped, and another one is taken for a duplicate of a tile without a hash and not answered |
| RenderTiles.PicturesAreOwn | common/RenderTiles.hpp:505-591 | if hashes tell pixels apart, then from request to request the cache stays right, and each answered tile gets what compressing its own pixels gives, or nothing if the client has it |
| RenderRuns.RenderQueued | kit/Kit.cpp:1576-1603 | the loop that answers requests one after the other on a new cache: each finds the cache as the one before has left it, and is answered as above |
| RenderRuns.SkippedIsUnchanged | common/RenderTiles.hpp:491-503 | over any run of requests without a wrap, if a tile is skipped, every earlier answer that carried the id the client has was for the hash that the tile has now |
| RenderRuns.KeptPictureIsOwn | common/RenderTiles.hpp:491-503 | so, if hashes tell pixels apart, every image that an earlier answer gave under this id is what compressing the tile's present pixels gives |
| RenderRuns.UnchangedIsSkipped | common/RenderTiles.hpp:491-503 | as long as the table of ids was never trimmed, a tile is skipped if and only if its hash is that of the earlier answer whose id the client has |
| Levenshtein.GetLevenshteinDist | common/JsonUtil.hpp:41-72 | the filled table's last entry is the recursive distance |
| Levenshtein.DiagonalIsOptimal | common/JsonUtil.hpp:59-67 | taking only the diagonal when the characters are equal loses nothing against the other two neighbours |
| Levenshtein.DistIsShortest | common/JsonUtil.hpp:41-72 | the distance is the length of the shortest script of single-character insertions, deletions and substitutions, at any positions and in any order |
| Levenshtein.DistIsAMetric | common/JsonUtil.hpp:41-72 | zero exactly for equal strings, symmetric, triangle inequality |
| Clipboards.GetClipboard | kit/ChildSession.cpp:1192-1209 | writes the header and, for each entry, its MIME type, its size and its data |
| Clipboards.LengthRoundTrip | common/Util.hpp:1047-1052 | a length below 2^63, printed in hexadecimal, is read back by strtoll, a larger one as 2^63 - 1 |
| Clipboards.LengthsRead | common/Clipboard.hpp:36-39 | lengths in upper case, with space, sign and prefix in front, negative, and no number at all |
| Clipboards.WrittenExample | kit/ChildSession.cpp:1198-1207 | an entry byte by byte |
| Clipboards.InputStream.GetLine | common/Clipboard.hpp:34-35 | std::getline on a stream with eof and fail bits |
| Clipboards.ClipboardData.Read | common/Clipboard.hpp:29-51 | the loop ends on every input, and appends the entries, or throws, as the specification says |
| Clipboards.SetClipboard | kit/ChildSession.cpp:1223-1231 | skips the first line and reads the rest |
| Clipboards.ReadMimesAreLines | common/Clipboard.hpp:36-48 | whatever the input, every entry read has a non-empty MIME type on one line |
| Clipboards.RoundTrip | kit/ChildSession.cpp:1195-1231 | reading what was written gives the same entries, with any bytes as content, if and only if every MIME type is non-empty and without newline and no entry has a size without data |

## Left out

Of the delta codec:

- The row checksum is computed while pixels are copied but never stored, so rows are compared by their pixels.
- The decoder is the one in test/DeltaTests.cpp:64-123 without its assertion that a delta has at least 4 bytes, which an empty delta does not meet, and with a choice of whether source rows wrap.
- `char` is taken to be signed.

Of the hash:

- The memory a word is read from is taken as little-endian bytes; unaligned reads are allowed, as the source configures it.
- Hash64 and Hash32 are truncations of Hash128 and are not modelled.
- End's twelve additions are written as a loop over the array.

Of the message queue:

- `canceltiles` and `remove_if` are not modelled.
- TileQueues.TileQueue.Put: does not take canceltiles, as it is a substring search over whole payloads.
- A client's text messages that lack an id, a text or a count act on no window: they are rejected when they are handled.
- Text edits of one window do not act on another one; interactions and other commands are taken to act on every window.
- Messages are kept in parsed form: tokenizing, number parsing, JSON parsing and serializing again are left out, and so are messages that fail to parse.
- Of the text of a tile message only what duplicates are compared by is kept, with the source's rule that the length of the new message decides; only tile messages are taken to match it.
- The tilecombine message is given as its tiles; serializing them and the TileCombined that a get builds are left out.
- Rectangles and removal counts are unbounded integers: overflow of int is not modelled.
- QueueText.WindowsEndUpAsWithFifo: assumes that no put moves text across something that does something, unless only one client's interactions and text are looked at, because the code does not promise the order then (QueueText.PutKeepsWindowExactly), and that removal counts are not negative, because two removals of opposite sign do not add up on a text.
- Of the text of a window it is assumed, for every client, that two insertions or removals in a row are one and that empty ones do nothing (QueueText.Lawful); a text with a cursor for every client is like that (QueueText.DocumentIsLawful), and how a real document moves the cursors of others is not modelled further.
- QueueWaiting.PreviewComesOut: is no if-and-only-if: a preview behind another one with only plain tiles between them is moved to the end if these tiles are combined away before the other preview is given out, and comes out in its turn if they are not.
- QueueDelays.SureExactly: is about the tiles that the search reaches and about puts that take nothing out of the queue.  For a tile further back the condition is only sufficient (QueueWaiting.TileComesOut), because a get in front of it may combine it with the tile it takes or move previews behind it; and with puts that merge and supersede it depends on what they take, as QueueDelays.RenewedCallbackIsNoStop shows.

Of the cache, the pool and the renderer:

- PngCaches.PngCache.AddToCache: requires what the source asserts, that the hash has the id and is not cached yet.
- `_cacheSize`, hits and hit counts are unbounded; only the 32-bit id counter wraps.
- The assertions of ThreadPool on `_working` are not part of the steps: the steps exist whether or not they hold.
- Tasks are taken to end; that an exception in a task is caught makes it an ended task.
- RenderTiles.RunPool: takes from the thread pool that each task is run once before run returns; ThreadPoolRuns.EarlyReturnExactly says when the pool itself does not guarantee that.
- RenderRuns.RenderQueued: takes fewer than 2^32 - 1 tiles, for the same reason as DoRender.
- RenderTiles.DoRender: assumes that the wire-id counter does not wrap within the request; it may have wrapped before.  A wrap in between changes the ids of the hashes that were looked up before, which addToCache asserts not to happen (PngCacheSpec.WrapForgetsId).
- Painting, the geometry of the pixmap, blending of watermarks, PNG compression and the text of the messages are left out: a request comes with the hash of each tile and with what the encoder makes of it. The assertion that no compressed image is empty is left out with them.
- Logging, statistics, timing and dumpState are left out.

Of the small formats:

- The table entries are unbounded integers, and the strings are sequences of characters.
- Memory exhaustion for a huge announced length is not told apart from the exception for a truncated stream.
- findType, the clipboard cache with its expiry, and the hand-over to the document after reading are left out.

Not modelled at all: jail setup, processes, sockets, signals, seccomp, time formatting, URL
anonymization, host lists, and the long dispatch tables of the child session.
