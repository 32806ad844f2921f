/**
 * The handler table of a restore context: every operation reads the value's
 * wire form from the stream into the caller's variables, allocating the
 * blocks that buffers, strings and collection elements live in. No block
 * allocated by a failed operation survives it, except the elements of a
 * list restored without a cleanup callback.
 */
module Restore {
  import opened Wire
  import opened Io
  import opened Elements
  import opened Trees
  import opened Effects

  /** restore_u16, restore_u32 and restore_u64: w big-endian bytes; v stays as it was on failure. */
  method RestoreUnsigned(stream: Stream, heap: Heap, w: nat, v: nat) returns (ok: bool, v': nat)
    requires v < Pow256(w)
    modifies stream
    ensures v' < Pow256(w)
    ensures ScalarEffect(RestoreMode, w, old(Snapshot(stream, heap)), Snapshot(stream, heap), v, ok, v')
  {
    var data;
    ok, data := stream.ReadReliably(w);
    v' := if ok then DecodeBE(data) else v;
  }

  /** restore_bool: one byte, any byte but 0 reading as true. */
  method RestoreBool(stream: Stream, heap: Heap, b: bool) returns (ok: bool, b': bool)
    modifies stream
    ensures BoolEffect(RestoreMode, old(Snapshot(stream, heap)), Snapshot(stream, heap), b, ok, b')
  {
    var data;
    ok, data := stream.ReadReliably(1);
    b' := if ok then data[0] != 0 else b;
  }

  /** restore_bytes: exactly as many bytes as the buffer holds. */
  method RestoreBytes(stream: Stream, heap: Heap, buf: Bytes) returns (ok: bool, buf': Bytes)
    modifies stream
    ensures BytesEffect(RestoreMode, old(Snapshot(stream, heap)), Snapshot(stream, heap), buf, ok, buf')
  {
    var data;
    ok, data := stream.ReadReliably(|buf|);
    buf' := if ok then data else buf;
  }

  /**
   * restore_sized_buffer into a null pointer of size 0: a length of 0 keeps
   * them; otherwise a block of that length is allocated and filled, and
   * freed again when the stream runs short.
   */
  method RestoreSizedBuffer(stream: Stream, heap: Heap) returns (ok: bool, data: Option<Bytes>)
    modifies stream, heap
    ensures RestoredFrame(old(Snapshot(stream, heap)), Snapshot(stream, heap), false, ok, data)
  {
    data := None;
    var size32;
    ok, size32 := RestoreUnsigned(stream, heap, 4, 0);
    if !ok || size32 == 0 {
      return;
    }
    ok := heap.Malloc(size32);
    if !ok {
      return;
    }
    ghost var u := old(stream.unread);
    var block;
    ok, block := RestoreBytes(stream, heap, seq(size32, _ => 0));
    if ok {
      assert block == u[4..4 + size32];
      data := Some(block);
    } else {
      heap.Free(size32);
    }
  }

  /** restore_string: a sized buffer whose last byte must be NUL; one that is not is freed and fails. */
  method RestoreString(stream: Stream, heap: Heap) returns (ok: bool, str: Option<Bytes>)
    modifies stream, heap
    ensures RestoredFrame(old(Snapshot(stream, heap)), Snapshot(stream, heap), true, ok, str)
  {
    ok, str := RestoreSizedBuffer(stream, heap);
    if ok && str.Some? && str.value[|str.value| - 1] != 0 {
      heap.Free(|str.value|);
      ok, str := false, None;
    }
  }

  /**
   * Hands each element to the cleanup callback, in order, and frees its
   * block: the body of the clearing loops of restore_list and restore_tree.
   */
  method ReleaseAll<E>(heap: Heap, elementSize: nat, elems: seq<E>) returns (released: seq<E>)
    requires Blocks(elementSize, |elems|) <= heap.live
    modifies heap
    ensures released == elems
    ensures heap.live + Blocks(elementSize, |elems|) == old(heap.live)
  {
    released := [];
    var i := 0;
    while i < |elems|
      invariant 0 <= i <= |elems|
      invariant released == elems[..i]
      invariant heap.live + Blocks(elementSize, i) == old(heap.live)
    {
      released := released + [elems[i]];
      assert elementSize in heap.live by {
        assert old(heap.live)[elementSize] >= |elems|;
      }
      heap.Free(elementSize);
      i := i + 1;
    }
    assert elems[..i] == elems;
  }

  /**
   * One round of the loop of restore_list: a fresh zeroed block appended at
   * the tail of the list, then filled in by the handler. The element stays
   * in the list whether or not the handler succeeds.
   */
  method AppendElement<E>(stream: Stream, heap: Heap, elementSize: nat, restore: Bytes -> Restored<E>,
                          list: seq<E>, ghost p: Parse<E>, ghost s0: Bytes, ghost consumed: nat, ghost count: nat)
    returns (got: bool, ok: bool, list': seq<E>, ghost consumed': nat)
    requires |list| < count && Progress(restore, p, list, s0, consumed, stream.unread, count)
    modifies stream, heap
    ensures stream.written == old(stream.written)
    ensures heap.live == if got then old(heap.live) + multiset{elementSize} else old(heap.live)
    ensures !got ==> !ok && list' == list && Abandoned(p, count, list)
    ensures got ==> |list'| == |list| + 1
    ensures got && !ok ==> Abandoned(p, count, list')
    ensures ok ==> got && Progress(restore, p, list', s0, consumed', stream.unread, count)
  {
    list', consumed' := list, consumed;
    got := heap.Malloc(elementSize);
    if !got {
      ProgressPrefix(restore, p, list, s0, consumed, stream.unread, count);
      return got, false, list, consumed;
    }
    ghost var s := stream.unread;
    ParseAdvance(restore, p, list, s0, consumed, s, count);
    var e;
    ok, e := RestoreElement(stream, restore);
    list' := list + [e];
    if ok {
      consumed' := consumed + Call(restore, s).used;
    }
  }

  /**
   * The loop of restore_list: up to `count` rounds, stopping at the first
   * allocation or handler failure.
   */
  method RestoreElements<E>(stream: Stream, heap: Heap, elementSize: nat, restore: Bytes -> Restored<E>, count: nat)
    returns (ok: bool, list: seq<E>)
    modifies stream, heap
    ensures stream.written == old(stream.written)
    ensures heap.live == old(heap.live) + Blocks(elementSize, |list|)
    ensures var p := ParseElements(restore, old(stream.unread), count);
      && (ok ==> p.failed.None? && list == p.elems && |list| == count)
      && (ok ==> stream.unread == old(stream.unread)[p.used..])
      && (!ok ==> Abandoned(p, count, list))
  {
    ghost var p := ParseElements(restore, stream.unread, count);
    ghost var consumed: nat := 0;
    list := [];
    var i := 0;
    while i < count
      invariant i == |list|
      invariant stream.written == old(stream.written)
      invariant heap.live == old(heap.live) + Blocks(elementSize, |list|)
      invariant Progress(restore, p, list, old(stream.unread), consumed, stream.unread, count)
    {
      MoreBlocks(old(heap.live), heap.live, elementSize, |list|);
      var got;
      got, ok, list, consumed := AppendElement(stream, heap, elementSize, restore, list, p, old(stream.unread),
                                               consumed, count);
      if !ok {
        return;
      }
      i := i + 1;
    }
    ProgressDone(restore, p, list, old(stream.unread), consumed, stream.unread, count);
    ok := true;
  }

  /**
   * restore_list into an empty list: the count, then the elements in stream
   * order. On failure with a cleanup callback the list built so far is
   * cleaned up and freed; without one it stays as built.
   */
  method RestoreList<E>(stream: Stream, heap: Heap, elementSize: nat, h: ElementHandler<E>, hasCleanup: bool)
    returns (ok: bool, list: seq<E>, released: seq<E>)
    modifies stream, heap
    ensures RestoredList(old(Snapshot(stream, heap)), Snapshot(stream, heap), elementSize, h.restore,
                         hasCleanup, ok, list, released)
  {
    list, released := [], [];
    var count;
    ok, count := RestoreUnsigned(stream, heap, 4, 0);
    if ok {
      ok, list := RestoreElements(stream, heap, elementSize, h.restore, count);
    }
    if !ok && hasCleanup {
      ghost var live := heap.live;
      released := ReleaseAll(heap, elementSize, list);
      Cancel(heap.live, old(heap.live), Blocks(elementSize, |list|));
      list := [];
    }
  }

  /** A handler failing after the elements seen leaves them and its partial element built. */
  lemma HandlerFailureAbandoned<E>(rank: E -> int, p: Parse<E>, count: nat, seen: seq<E>, e: E)
    requires p.elems == seen && p.failed == Some(e) && Build(rank, [], seen).Some?
    ensures TreeAbandoned(rank, p, count, seen + [e])
  {
  }

  /** An element comparing equal to one built from seen leaves them and it built. */
  lemma DuplicateAbandoned<E>(rank: E -> int, p: Parse<E>, count: nat, seen: seq<E>, e: E)
    requires seen + [e] <= p.elems && Build(rank, [], seen).Some?
    requires InsertSorted(rank, Build(rank, [], seen).value, e).None?
    ensures TreeAbandoned(rank, p, count, seen + [e])
  {
    BuildSnoc(rank, [], seen, e);
    assert (seen + [e])[..|seen|] == seen;
  }

  /**
   * The handler filling the zeroed block of one element: either it is the
   * next element restored, or the handler failed on it and the restore of
   * the collection ends with the elements seen. Kept apart from
   * `FillAndInsert` so that each proof stays small.
   */
  method FillElement<E>(stream: Stream, restore: Bytes -> Restored<E>, ghost p: Parse<E>, ghost seen: seq<E>,
                        ghost s0: Bytes, ghost consumed: nat, ghost count: nat)
    returns (ok: bool, e: E, ghost consumed': nat)
    requires |seen| < count && Progress(restore, p, seen, s0, consumed, stream.unread, count)
    modifies stream
    ensures stream.written == old(stream.written)
    ensures e == ElemOf(Call(restore, old(stream.unread)))
    ensures ok ==> seen + [e] <= p.elems && Progress(restore, p, seen + [e], s0, consumed', stream.unread, count)
    ensures !ok ==> p.elems == seen && p.failed == Some(e)
  {
    ghost var s := stream.unread;
    ghost var r := Call(restore, s);
    ParseAdvance(restore, p, seen, s0, consumed, s, count);
    ok, e := RestoreElement(stream, restore);
    consumed' := consumed;
    if ok {
      consumed' := consumed + r.used;
    }
  }

  /**
   * The handler filling the zeroed block of one element, then the
   * insertion. When the handler fails or an element comparing equal is
   * present, the element is cleaned up and its block freed. `seen` is the
   * elements restored so far, from which the tree was built.
   */
  method FillAndInsert<E>(stream: Stream, heap: Heap, elementSize: nat, restore: Bytes -> Restored<E>, tree: Tree<E>,
                          ghost p: Parse<E>, ghost seen: seq<E>, ghost s0: Bytes, ghost consumed: nat,
                          ghost count: nat)
    returns (ok: bool, released: seq<E>, ghost seen': seq<E>, ghost consumed': nat)
    requires |seen| < count && Progress(restore, p, seen, s0, consumed, stream.unread, count)
    requires tree.Valid() && Build(tree.rank, [], seen) == Some(tree.elems)
    requires elementSize in heap.live
    modifies stream, heap, tree
    ensures stream.written == old(stream.written) && tree.Valid()
    ensures ok ==> && released == [] && |seen'| == |seen| + 1 && |tree.elems| == |old(tree.elems)| + 1
                   && heap.live == old(heap.live)
                   && Progress(restore, p, seen', s0, consumed', stream.unread, count)
                   && Build(tree.rank, [], seen') == Some(tree.elems)
    ensures !ok ==> && heap.live == old(heap.live) - multiset{elementSize} && tree.elems == old(tree.elems)
                    && released == [ElemOf(Call(restore, old(stream.unread)))]
                    && TreeAbandoned(tree.rank, p, count, seen + released)
  {
    released, seen', consumed' := [], seen, consumed;
    var e;
    ghost var c;
    ok, e, c := FillElement(stream, restore, p, seen, s0, consumed, count);
    if ok {
      ok := tree.Insert(e);
      if ok {
        BuildSnoc(tree.rank, [], seen, e);
        seen', consumed' := seen + [e], c;
        return;
      }
      DuplicateAbandoned(tree.rank, p, count, seen, e);
    } else {
      HandlerFailureAbandoned(tree.rank, p, count, seen, e);
    }
    released := [e];
    heap.Free(elementSize);
  }

  /** One round of the loop of restore_tree: a fresh zeroed block, filled in and inserted. */
  method InsertElement<E>(stream: Stream, heap: Heap, elementSize: nat, restore: Bytes -> Restored<E>, tree: Tree<E>,
                          ghost p: Parse<E>, ghost seen: seq<E>, ghost s0: Bytes, ghost consumed: nat,
                          ghost count: nat)
    returns (ok: bool, released: seq<E>, ghost seen': seq<E>, ghost consumed': nat)
    requires |seen| < count && Progress(restore, p, seen, s0, consumed, stream.unread, count)
    requires tree.Valid() && Build(tree.rank, [], seen) == Some(tree.elems)
    modifies stream, heap, tree
    ensures stream.written == old(stream.written) && tree.Valid()
    ensures ok ==> && released == [] && |seen'| == |seen| + 1 && |tree.elems| == |old(tree.elems)| + 1
                   && heap.live == old(heap.live) + multiset{elementSize}
                   && Progress(restore, p, seen', s0, consumed', stream.unread, count)
                   && Build(tree.rank, [], seen') == Some(tree.elems)
    ensures !ok ==> && heap.live == old(heap.live) && tree.elems == old(tree.elems)
                    && (released == [] || released == [ElemOf(Call(restore, old(stream.unread)))])
                    && TreeAbandoned(tree.rank, p, count, seen + released)
  {
    ok := heap.Malloc(elementSize);
    if !ok {
      released, seen', consumed' := [], seen, consumed;
      assert seen <= p.elems;
      assert seen + [] == seen;
      return;
    }
    ok, released, seen', consumed' := FillAndInsert(stream, heap, elementSize, restore, tree, p, seen, s0, consumed, count);
  }

  /**
   * The loop of restore_tree: up to `count` rounds, stopping at the first
   * failure. On failure `seen` is the elements the tree was built from.
   */
  method InsertElements<E>(stream: Stream, heap: Heap, elementSize: nat, restore: Bytes -> Restored<E>,
                           tree: Tree<E>, count: nat)
    returns (ok: bool, released: seq<E>, ghost seen: seq<E>)
    requires tree.Valid() && tree.elems == []
    modifies stream, heap, tree
    ensures stream.written == old(stream.written) && tree.Valid()
    ensures heap.live == old(heap.live) + Blocks(elementSize, |tree.elems|)
    ensures var p := ParseElements(restore, old(stream.unread), count);
      && (ok ==> && p.failed.None? && Build(tree.rank, [], p.elems) == Some(tree.elems)
                 && |tree.elems| == count && released == [] && stream.unread == old(stream.unread)[p.used..])
      && (!ok ==> && Build(tree.rank, [], seen) == Some(tree.elems) && |released| <= 1
                  && TreeAbandoned(tree.rank, p, count, seen + released))
  {
    ghost var p := ParseElements(restore, stream.unread, count);
    ghost var consumed: nat := 0;
    seen, released := [], [];
    var i := 0;
    while i < count
      invariant i == |seen| == |tree.elems| && released == []
      invariant stream.written == old(stream.written) && tree.Valid()
      invariant heap.live == old(heap.live) + Blocks(elementSize, |seen|)
      invariant Progress(restore, p, seen, old(stream.unread), consumed, stream.unread, count)
      invariant Build(tree.rank, [], seen) == Some(tree.elems)
    {
      MoreBlocks(old(heap.live), heap.live, elementSize, |seen|);
      ghost var seen';
      ok, released, seen', consumed := InsertElement(stream, heap, elementSize, restore, tree, p, seen,
                                                     old(stream.unread), consumed, count);
      if !ok {
        return;
      }
      seen := seen';
      i := i + 1;
    }
    ProgressDone(restore, p, seen, old(stream.unread), consumed, stream.unread, count);
    ok := true;
  }

  /** What a failed restore_tree built is a prefix of what it attempted. */
  lemma ReleasedPrefix<E>(rank: E -> int, p: Parse<E>, count: nat, built: seq<E>, released: seq<E>)
    requires TreeAbandoned(rank, p, count, built) && multiset(released) == multiset(built)
    ensures exists k :: && 0 <= k <= |Attempted(p)|
                        && TreeAbandoned(rank, p, count, Attempted(p)[..k])
                        && multiset(released) == multiset(Attempted(p)[..k])
  {
    assert built == Attempted(p)[..|built|];
  }

  /**
   * restore_tree into an empty tree: the count, then the elements inserted
   * in stream order. On any failure every element of the tree is cleaned up
   * and freed, leaving the tree empty.
   */
  method RestoreTree<E>(stream: Stream, heap: Heap, elementSize: nat, h: ElementHandler<E>, tree: Tree<E>)
    returns (ok: bool, released: seq<E>)
    requires tree.Valid() && tree.elems == []
    modifies stream, heap, tree
    ensures tree.Valid()
    ensures RestoredTree(old(Snapshot(stream, heap)), Snapshot(stream, heap), elementSize, h.restore,
                         tree.rank, ok, tree.elems, released)
  {
    released := [];
    ghost var built: seq<E> := [];
    var count;
    ok, count := RestoreUnsigned(stream, heap, 4, 0);
    if ok {
      ghost var seen;
      ok, released, seen := InsertElements(stream, heap, elementSize, h.restore, tree, count);
      built := seen + released;
      if ok {
        TreeRestored(old(Snapshot(stream, heap)), Snapshot(stream, heap), elementSize, h.restore, tree.rank,
                     tree.elems);
      }
    }
    if !ok {
      var cleaned := ClearTree(heap, elementSize, tree);
      Cancel(heap.live, old(heap.live), Blocks(elementSize, |cleaned|));
      assert multiset(released + cleaned) == multiset(built);
      released := released + cleaned;
      TreeFailed(old(Snapshot(stream, heap)), Snapshot(stream, heap), elementSize, h.restore, tree.rank,
                 built, released);
    }
  }

  /** A successful restore_tree, stated from the outcome of its loop. */
  lemma TreeRestored<E>(before: World, after: World, elementSize: nat, restore: Bytes -> Restored<E>,
                        rank: E -> int, elems': seq<E>)
    requires |before.unread| >= 4
    requires var count := DecodeBE(before.unread[..4]);
      var p := ParseElements(restore, before.unread[4..], count);
      && p.failed.None? && Build(rank, [], p.elems) == Some(elems')
      && after.written == before.written
      && after.unread == before.unread[4..][p.used..]
      && after.live == before.live + Blocks(elementSize, count)
    ensures RestoredTree(before, after, elementSize, restore, rank, true, elems', [])
  {
    var p := ParseElements(restore, before.unread[4..], DecodeBE(before.unread[..4]));
    assert before.unread[4..][p.used..] == before.unread[4 + p.used..];
  }

  /** A failed restore_tree, stated from what its rounds built and what cleanup was handed. */
  lemma TreeFailed<E>(before: World, after: World, elementSize: nat, restore: Bytes -> Restored<E>,
                      rank: E -> int, built: seq<E>, released: seq<E>)
    requires after.written == before.written && after.live == before.live
    requires |before.unread| < 4 ==> released == []
    requires |before.unread| >= 4 ==>
      var count := DecodeBE(before.unread[..4]);
      && TreeAbandoned(rank, ParseElements(restore, before.unread[4..], count), count, built)
      && multiset(released) == multiset(built)
    ensures RestoredTree(before, after, elementSize, restore, rank, false, [], released)
  {
    if |before.unread| >= 4 {
      var count := DecodeBE(before.unread[..4]);
      ReleasedPrefix(rank, ParseElements(restore, before.unread[4..], count), count, built, released);
    }
  }

  /** AVS_RBTREE_CLEAR with cleanup: every element handed to cleanup and freed, leaving the tree empty. */
  method ClearTree<E>(heap: Heap, elementSize: nat, tree: Tree<E>) returns (cleaned: seq<E>)
    requires Blocks(elementSize, |tree.elems|) <= heap.live
    modifies heap, tree
    ensures tree.Valid() && tree.elems == []
    ensures cleaned == old(tree.elems)
    ensures heap.live + Blocks(elementSize, |cleaned|) == old(heap.live)
  {
    cleaned := ReleaseAll(heap, elementSize, tree.elems);
    tree.Clear();
  }
}
