/**
 * The handler table of an ignore context: every operation reads past the
 * value's wire form and throws it away, leaving the caller's variables as
 * they were and allocating nothing. Lengths and counts are read as a
 * restore context reads them.
 */
module Ignore {
  import opened Wire
  import opened Io
  import opened Elements
  import opened Effects
  import opened Restore

  /** The size of the scratch buffer ignore_bytes reads through. */
  const IgnoreBufferSize: nat := 512

  /** ignore_u16, ignore_u32 and ignore_u64: w bytes read into a scratch variable. */
  method IgnoreUnsigned(stream: Stream, heap: Heap, w: nat) returns (ok: bool)
    modifies stream
    ensures Consumed(old(Snapshot(stream, heap)), Snapshot(stream, heap), w, ok)
  {
    var data;
    ok, data := stream.ReadReliably(w);
  }

  /** ignore_bool: one byte read into a scratch variable. */
  method IgnoreBool(stream: Stream, heap: Heap) returns (ok: bool)
    modifies stream
    ensures Consumed(old(Snapshot(stream, heap)), Snapshot(stream, heap), 1, ok)
  {
    var data;
    ok, data := stream.ReadReliably(1);
  }

  /**
   * ignore_bytes: size bytes read in chunks of at most IgnoreBufferSize,
   * stopping at the first short read. All at once or chunk by chunk, the
   * outcome is that of one reliable read of size bytes.
   */
  method IgnoreBytes(stream: Stream, heap: Heap, size: nat) returns (ok: bool)
    modifies stream
    ensures Consumed(old(Snapshot(stream, heap)), Snapshot(stream, heap), size, ok)
  {
    var left := size;
    while left > 0
      invariant 0 <= left <= size && size - left <= |old(stream.unread)|
      invariant stream.written == old(stream.written)
      invariant stream.unread == old(stream.unread)[size - left..]
    {
      var chunk := if left < IgnoreBufferSize then left else IgnoreBufferSize;
      var data;
      ok, data := stream.ReadReliably(chunk);
      if !ok {
        return;
      }
      assert old(stream.unread)[size - left..][chunk..] == old(stream.unread)[size - left + chunk..];
      left := left - chunk;
    }
    ok := true;
  }

  /** ignore_sized_buffer: a u32 length as restore reads it, then that many bytes ignored. */
  method IgnoreSizedBuffer(stream: Stream, heap: Heap) returns (ok: bool)
    modifies stream
    ensures SkippedFrame(old(Snapshot(stream, heap)), Snapshot(stream, heap), ok)
  {
    var size32;
    ok, size32 := RestoreUnsigned(stream, heap, 4, 0);
    if ok {
      ok := IgnoreBytes(stream, heap, size32);
    }
  }

  /** ignore_string: the same as ignore_sized_buffer. */
  method IgnoreString(stream: Stream, heap: Heap) returns (ok: bool)
    modifies stream
    ensures SkippedFrame(old(Snapshot(stream, heap)), Snapshot(stream, heap), ok)
  {
    ok := IgnoreSizedBuffer(stream, heap);
  }

  /** The loop of ignore_collection: count handler calls with no element, stopping at the first failure. */
  method SkipAll(stream: Stream, skip: Bytes -> Option<nat>, count: nat) returns (ok: bool)
    modifies stream
    ensures stream.written == old(stream.written)
    ensures var r := SkipElements(skip, old(stream.unread), count);
      && (ok <==> r.Some?)
      && (ok ==> stream.unread == old(stream.unread)[r.value..])
  {
    ghost var total := SkipElements(skip, stream.unread, count);
    ghost var consumed: nat := 0;
    var left := count;
    while left > 0
      invariant stream.written == old(stream.written)
      invariant Skipping(skip, total, old(stream.unread), consumed, stream.unread, left)
    {
      ghost var s := stream.unread;
      SkipAdvance(skip, total, old(stream.unread), consumed, s, left);
      ok := SkipElement(stream, skip);
      if !ok {
        return;
      }
      consumed := consumed + SkipElements(skip, s, 1).value;
      left := left - 1;
    }
    assert SkipElements(skip, stream.unread, 0) == Some(0);
    ok := true;
  }

  /**
   * ignore_collection, which ignore_list and ignore_tree both are: a u32
   * count as restore reads it, then the handler calls.
   */
  method IgnoreCollection(stream: Stream, heap: Heap, skip: Bytes -> Option<nat>) returns (ok: bool)
    modifies stream
    ensures SkippedCollection(old(Snapshot(stream, heap)), Snapshot(stream, heap), skip, ok)
  {
    var count;
    ok, count := RestoreUnsigned(stream, heap, 4, 0);
    if ok {
      ok := SkipAll(stream, skip, count);
    }
  }

  /** ignore_list: the list is left as it is. */
  method IgnoreList<E>(stream: Stream, heap: Heap, h: ElementHandler<E>) returns (ok: bool)
    modifies stream
    ensures SkippedCollection(old(Snapshot(stream, heap)), Snapshot(stream, heap), h.skip, ok)
  {
    ok := IgnoreCollection(stream, heap, h.skip);
  }

  /** ignore_tree: the tree is left as it is. */
  method IgnoreTree<E>(stream: Stream, heap: Heap, h: ElementHandler<E>) returns (ok: bool)
    modifies stream
    ensures SkippedCollection(old(Snapshot(stream, heap)), Snapshot(stream, heap), h.skip, ok)
  {
    ok := IgnoreCollection(stream, heap, h.skip);
  }
}
