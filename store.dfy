/**
 * The handler table of a store context: every operation writes the value's
 * wire form to the stream and changes nothing else. A failed write fails the
 * operation at once.
 */
module Store {
  import opened Wire
  import opened Io
  import opened Elements
  import opened Trees
  import opened Effects

  /** persist_u16, persist_u32 and persist_u64: v in w big-endian bytes. */
  method PersistUnsigned(stream: Stream, heap: Heap, w: nat, v: nat) returns (ok: bool)
    requires v < Pow256(w)
    modifies stream
    ensures Wrote(old(Snapshot(stream, heap)), Snapshot(stream, heap), EncodeBE(w, v), ok)
  {
    ok := stream.Write(EncodeBE(w, v));
  }

  /** persist_bool: one byte, 1 for true and 0 for false. */
  method PersistBool(stream: Stream, heap: Heap, b: bool) returns (ok: bool)
    modifies stream
    ensures Wrote(old(Snapshot(stream, heap)), Snapshot(stream, heap), [if b then 1 else 0], ok)
  {
    ok := stream.Write([if b then 1 else 0]);
  }

  /** persist_bytes: the buffer as it is. */
  method PersistBytes(stream: Stream, heap: Heap, buf: Bytes) returns (ok: bool)
    modifies stream
    ensures Wrote(old(Snapshot(stream, heap)), Snapshot(stream, heap), buf, ok)
  {
    ok := stream.Write(buf);
  }

  /**
   * persist_sized_buffer: the size cast to 32 bits, then, when that is not
   * 0, the whole buffer. A size that does not fit is only reported; the
   * truncated length is written all the same.
   */
  method PersistSizedBuffer(stream: Stream, heap: Heap, data: Option<Bytes>) returns (ok: bool)
    modifies stream
    ensures StoredBuffer(old(Snapshot(stream, heap)), Snapshot(stream, heap), data, ok)
  {
    var size32 := Size32(SizeOf(data));
    ok := PersistUnsigned(stream, heap, 4, size32);
    if ok && size32 > 0 {
      ok := PersistBytes(stream, heap, data.value);
    }
  }

  /** persist_string: the string with its NUL as a sized buffer; a null string as size 0. */
  method PersistString(stream: Stream, heap: Heap, str: Option<Bytes>) returns (ok: bool)
    requires str.Some? ==> IsCString(str.value)
    modifies stream
    ensures StoredBuffer(old(Snapshot(stream, heap)), Snapshot(stream, heap), CStringData(str), ok)
  {
    ok := PersistSizedBuffer(stream, heap, CStringData(str));
  }

  /**
   * The loop of persist_collection: the handler on each element in order,
   * stopping at the first failure, after the first k elements were stored
   * and the handler wrote whatever it did on the element that failed.
   */
  method StoreAll<E>(stream: Stream, store: E -> Option<Bytes>, elems: seq<E>) returns (ok: bool, ghost k: nat)
    modifies stream
    ensures stream.unread == old(stream.unread)
    ensures ok ==> && EncodeElements(store, elems).Some?
                   && stream.written == old(stream.written) + EncodeElements(store, elems).value
    ensures !ok ==> && k < |elems| && EncodeElements(store, elems[..k]).Some?
                    && old(stream.written) + EncodeElements(store, elems[..k]).value <= stream.written
  {
    var i := 0;
    k, ok := 0, true;
    while i < |elems|
      invariant 0 <= i <= |elems|
      invariant stream.unread == old(stream.unread)
      invariant EncodeElements(store, elems[..i]).Some?
      invariant stream.written == old(stream.written) + EncodeElements(store, elems[..i]).value
    {
      ok := StoreElement(stream, store, elems[i]);
      if !ok {
        k := i;
        return;
      }
      EncodeElementsSnoc(store, elems[..i], elems[i]);
      assert elems[..i + 1] == elems[..i] + [elems[i]];
      i := i + 1;
    }
    assert elems[..i] == elems;
  }

  /**
   * The body persist_list and persist_tree share: a count that does not fit
   * in 32 bits fails; otherwise the count, then the handler on each element
   * in order, stopping at the first failure.
   */
  method PersistCollection<E>(stream: Stream, heap: Heap, store: E -> Option<Bytes>, elems: seq<E>)
    returns (ok: bool)
    modifies stream
    ensures StoredCollection(old(Snapshot(stream, heap)), Snapshot(stream, heap), store, elems, ok)
  {
    if |elems| >= Pow256(4) {
      return false;
    }
    ok := PersistUnsigned(stream, heap, 4, |elems|);
    if ok {
      ghost var k;
      ok, k := StoreAll(stream, store, elems);
      if !ok {
        assert StoredPrefix(old(Snapshot(stream, heap)), Snapshot(stream, heap), store, elems, k);
      }
    }
  }

  /** persist_list: the list's elements in list order. */
  method PersistList<E>(stream: Stream, heap: Heap, h: ElementHandler<E>, list: seq<E>) returns (ok: bool)
    modifies stream
    ensures StoredCollection(old(Snapshot(stream, heap)), Snapshot(stream, heap), h.store, list, ok)
  {
    ok := PersistCollection(stream, heap, h.store, list);
  }

  /** persist_tree: the tree's elements in ascending order; the tree is left as it is. */
  method PersistTree<E>(stream: Stream, heap: Heap, h: ElementHandler<E>, tree: Tree<E>) returns (ok: bool)
    modifies stream
    ensures StoredCollection(old(Snapshot(stream, heap)), Snapshot(stream, heap), h.store, tree.elems, ok)
  {
    ok := PersistCollection(stream, heap, h.store, tree.elems);
  }
}
