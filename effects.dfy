/**
 * What each persistence operation does, in each of the three directions,
 * stated over a snapshot of the stream and the heap before the call and
 * one after it. The handlers of every direction and the public accessors
 * that dispatch to them promise these predicates; the lemmas in module
 * Properties relate them across directions.
 */
module Effects {
  import opened Wire
  import opened Io
  import opened Elements
  import opened Trees

  /** The handler table a context was created with. */
  datatype Mode = StoreMode | RestoreMode | IgnoreMode

  /** One all-or-nothing write; nothing is read or allocated. */
  ghost predicate Wrote(before: World, after: World, data: Bytes, ok: bool) {
    && after.unread == before.unread
    && after.live == before.live
    && after.written == (if ok then before.written + data else before.written)
  }

  /**
   * One reliable read of n bytes: it succeeds exactly when n bytes remain
   * and then consumes exactly those; nothing is written or allocated.
   */
  ghost predicate Consumed(before: World, after: World, n: nat, ok: bool) {
    && after.written == before.written
    && after.live == before.live
    && (ok <==> n <= |before.unread|)
    && (ok ==> after.unread == before.unread[n..])
  }

  /** u16, u32 and u64 of w bytes: v is the value passed in, v' the value after the call. */
  ghost predicate ScalarEffect(mode: Mode, w: nat, before: World, after: World, v: nat, ok: bool, v': nat)
    requires v < Pow256(w)
  {
    match mode
    case StoreMode => v' == v && Wrote(before, after, EncodeBE(w, v), ok)
    case RestoreMode =>
      && Consumed(before, after, w, ok)
      && v' == (if ok then DecodeBE(before.unread[..w]) else v)
    case IgnoreMode => Consumed(before, after, w, ok) && v' == v
  }

  /** bool: one byte, 1 for true; restore takes any non-zero byte as true. */
  ghost predicate BoolEffect(mode: Mode, before: World, after: World, b: bool, ok: bool, b': bool) {
    match mode
    case StoreMode => b' == b && Wrote(before, after, [if b then 1 else 0], ok)
    case RestoreMode =>
      && Consumed(before, after, 1, ok)
      && b' == (if ok then before.unread[0] != 0 else b)
    case IgnoreMode => Consumed(before, after, 1, ok) && b' == b
  }

  /** Raw bytes into or out of a caller buffer of fixed size. */
  ghost predicate BytesEffect(mode: Mode, before: World, after: World, buf: Bytes, ok: bool, buf': Bytes) {
    match mode
    case StoreMode => buf' == buf && Wrote(before, after, buf, ok)
    case RestoreMode =>
      && Consumed(before, after, |buf|, ok)
      && |buf'| == |buf|
      && (ok ==> buf' == before.unread[..|buf|])
    case IgnoreMode => Consumed(before, after, |buf|, ok) && buf' == buf
  }

  /** The size of the block a data pointer designates; a null pointer comes with size 0. */
  function SizeOf(data: Option<Bytes>): nat {
    if data.None? then 0 else |data.value|
  }

  /** A size as the 32-bit length field holds it: truncated, as the cast in the code does. */
  function Size32(size: nat): (r: nat)
    ensures r < Pow256(4)
    ensures size < Pow256(4) ==> r == size
  {
    size % Pow256(4)
  }

  /** The C string a string pointer designates, as the block of strlen+1 bytes that is stored. */
  function CStringData(str: Option<Bytes>): (r: Option<Bytes>)
    requires str.Some? ==> IsCString(str.value)
    ensures r.Some? ==> |r.value| > 0 && r.value[|r.value| - 1] == 0
    ensures r.Some? ==> forall i :: 0 <= i < |r.value| - 1 ==> r.value[i] != 0
  {
    if str.None? then None else Some(str.value[..Strlen(str.value) + 1])
  }

  /**
   * Storing a sized buffer writes the truncated 32-bit length, then, when
   * that is not 0, all of the buffer's bytes. A failure may come after the
   * length was written.
   */
  ghost predicate StoredBuffer(before: World, after: World, data: Option<Bytes>, ok: bool) {
    var header := EncodeBE(4, Size32(SizeOf(data)));
    && after.unread == before.unread
    && after.live == before.live
    && (ok ==> after.written == before.written + header
                                + (if Size32(SizeOf(data)) > 0 then data.value else []))
    && (!ok ==> after.written == before.written || after.written == before.written + header)
  }

  /**
   * Restoring a sized buffer (or, when isString, a string) into a null
   * pointer: a length of 0 leaves the pointer null; otherwise a block of
   * that length is allocated and filled from the stream. On any failure the
   * pointer is null and nothing stays allocated. A string whose last byte
   * is not NUL is a failure.
   */
  ghost predicate RestoredFrame(before: World, after: World, isString: bool, ok: bool, data': Option<Bytes>) {
    var u := before.unread;
    && after.written == before.written
    && (ok ==> FrameLength(u).Some?)
    && (FrameLength(u).None? ==> !ok)
    && (FrameLength(u).Some? ==>
         var n := FrameLength(u).value;
         var payload := u[4..4 + n];
         && (ok ==> && after.unread == u[4 + n..]
                    && data' == (if n == 0 then None else Some(payload))
                    && after.live == before.live + (if n == 0 then multiset{} else multiset{n}))
         && (n == 0 ==> ok)
         && (isString && n > 0 && payload[n - 1] != 0 ==> !ok))
    && (!ok ==> data' == None && after.live == before.live)
  }

  /** Skipping a u32 length and that many bytes, allocating nothing. */
  ghost predicate SkippedFrame(before: World, after: World, ok: bool) {
    var u := before.unread;
    && after.written == before.written
    && after.live == before.live
    && (ok <==> FrameLength(u).Some?)
    && (ok ==> after.unread == u[4 + FrameLength(u).value..])
  }

  /** A sized buffer, the data pointer and its size given together as an optional block. */
  ghost predicate SizedBufferEffect(mode: Mode, before: World, after: World, data: Option<Bytes>, ok: bool, data': Option<Bytes>) {
    match mode
    case StoreMode => data' == data && StoredBuffer(before, after, data, ok)
    case RestoreMode => RestoredFrame(before, after, false, ok, data')
    case IgnoreMode => data' == data && SkippedFrame(before, after, ok)
  }

  /** A NUL-terminated string, or a null pointer (None), stored as a sized buffer of strlen+1 bytes. */
  ghost predicate StringEffect(mode: Mode, before: World, after: World, str: Option<Bytes>, ok: bool, str': Option<Bytes>)
    requires str.Some? ==> IsCString(str.value)
  {
    match mode
    case StoreMode => str' == str && StoredBuffer(before, after, CStringData(str), ok)
    case RestoreMode => RestoredFrame(before, after, true, ok, str')
    case IgnoreMode => str' == str && SkippedFrame(before, after, ok)
  }

  /**
   * After a failed store of a collection: the count and the encodings of
   * the first k elements, followed by whatever the handler wrote on the
   * element it failed on.
   */
  ghost predicate StoredPrefix<E>(before: World, after: World, store: E -> Option<Bytes>, elems: seq<E>, k: nat)
    requires |elems| < Pow256(4) && k <= |elems|
  {
    && EncodeElements(store, elems[..k]).Some?
    && before.written + EncodeBE(4, |elems|) + EncodeElements(store, elems[..k]).value <= after.written
  }

  /**
   * Storing a collection: a count that does not fit in 32 bits fails before
   * anything is written; otherwise the count, then each element's encoding
   * in order. A failure stops at the element that failed and leaves the
   * count and the elements before it already written as they are.
   */
  ghost predicate StoredCollection<E>(before: World, after: World, store: E -> Option<Bytes>, elems: seq<E>, ok: bool) {
    && after.unread == before.unread
    && after.live == before.live
    && (|elems| >= Pow256(4) ==> !ok && after.written == before.written)
    && (ok ==> && |elems| < Pow256(4)
               && EncodeElements(store, elems).Some?
               && after.written == before.written + EncodeBE(4, |elems|) + EncodeElements(store, elems).value)
    && (!ok && |elems| < Pow256(4) ==>
          || after.written == before.written
          || exists k :: 0 <= k < |elems| && StoredPrefix(before, after, store, elems, k))
  }

  /** Skipping a collection: the count, then one element-less handler call per element. */
  ghost predicate SkippedCollection(before: World, after: World, skip: Bytes -> Option<nat>, ok: bool) {
    var u := before.unread;
    && after.written == before.written
    && after.live == before.live
    && (ok <==> |u| >= 4 && SkipElements(skip, u[4..], DecodeBE(u[..4])).Some?)
    && (ok ==> after.unread == u[4 + SkipElements(skip, u[4..], DecodeBE(u[..4])).value..])
  }

  /**
   * Restoring a list into an empty one: each element is appended at the
   * tail, so the list is in stream order. On failure with a cleanup
   * callback, every element built is cleaned up in order, freed, and the
   * list is empty; without one, the partial list stays allocated.
   */
  ghost predicate RestoredList<E>(before: World, after: World, elementSize: nat, restore: Bytes -> Restored<E>,
                                  hasCleanup: bool, ok: bool, list': seq<E>, released: seq<E>) {
    var u := before.unread;
    && after.written == before.written
    && (|u| < 4 ==> !ok && list' == [] && released == [] && after.live == before.live)
    && (|u| >= 4 ==>
         var count := DecodeBE(u[..4]);
         var p := ParseElements(restore, u[4..], count);
         && (ok ==> && p.failed.None?
                    && list' == p.elems
                    && released == []
                    && after.unread == u[4 + p.used..]
                    && after.live == before.live + Blocks(elementSize, count))
         && (p.failed.Some? ==> !ok)
         && (!ok && hasCleanup ==> list' == [] && after.live == before.live && Abandoned(p, count, released))
         && (!ok && !hasCleanup ==>
               && released == []
               && after.live == before.live + Blocks(elementSize, |list'|)
               && Abandoned(p, count, list')))
  }

  /** The elements a restore built: those parsed, and the partial one a failing handler left. */
  function Attempted<E>(p: Parse<E>): seq<E> {
    p.elems + (if p.failed.Some? then [p.failed.value] else [])
  }

  /**
   * The elements a failed tree restore built, each handed to cleanup once,
   * a prefix of those it attempted: the elements inserted before an allocation failure, or those followed
   * by the partly filled element a handler failed on, or those followed by
   * the element that compared equal to one of them.
   */
  ghost predicate TreeAbandoned<E>(rank: E -> int, p: Parse<E>, count: nat, built: seq<E>) {
    || (|built| < count && built <= p.elems && Build(rank, [], built).Some?)
    || (p.failed.Some? && built == p.elems + [p.failed.value] && Build(rank, [], p.elems).Some?)
    || (&& built != [] && built <= p.elems
        && Build(rank, [], built).None? && Build(rank, [], built[..|built| - 1]).Some?)
  }

  /**
   * Restoring a sorted collection into an empty one: each element is
   * inserted in order; a handler failure or an element comparing equal to
   * one present fails the whole restore, which cleans up and frees the
   * element in hand and every element inserted, leaving the tree empty.
   */
  ghost predicate RestoredTree<E>(before: World, after: World, elementSize: nat, restore: Bytes -> Restored<E>,
                                  rank: E -> int, ok: bool, elems': seq<E>, released: seq<E>) {
    var u := before.unread;
    && after.written == before.written
    && (|u| < 4 ==> !ok && released == [])
    && (|u| >= 4 ==>
         var count := DecodeBE(u[..4]);
         var p := ParseElements(restore, u[4..], count);
         && (ok ==> && p.failed.None?
                    && Build(rank, [], p.elems) == Some(elems')
                    && released == []
                    && after.unread == u[4 + p.used..]
                    && after.live == before.live + Blocks(elementSize, count))
         && (!ok ==> exists k :: && 0 <= k <= |Attempted(p)|
                                && TreeAbandoned(rank, p, count, Attempted(p)[..k])
                                && multiset(released) == multiset(Attempted(p)[..k])))
    && (!ok ==> elems' == [] && after.live == before.live)
  }

  /** An ordered list (AVS_LIST) of elements handled by h. */
  ghost predicate ListEffect<E>(mode: Mode, before: World, after: World, elementSize: nat, h: ElementHandler<E>,
                                hasCleanup: bool, list: seq<E>, ok: bool, list': seq<E>, released: seq<E>) {
    match mode
    case StoreMode => list' == list && released == [] && StoredCollection(before, after, h.store, list, ok)
    case RestoreMode => RestoredList(before, after, elementSize, h.restore, hasCleanup, ok, list', released)
    case IgnoreMode => list' == list && released == [] && SkippedCollection(before, after, h.skip, ok)
  }

  /** A sorted unique-key collection (AVS_RBTREE) of elements handled by h, in ascending order. */
  ghost predicate TreeEffect<E>(mode: Mode, before: World, after: World, elementSize: nat, h: ElementHandler<E>,
                                rank: E -> int, elems: seq<E>, ok: bool, elems': seq<E>, released: seq<E>) {
    match mode
    case StoreMode => elems' == elems && released == [] && StoredCollection(before, after, h.store, elems, ok)
    case RestoreMode => RestoredTree(before, after, elementSize, h.restore, rank, ok, elems', released)
    case IgnoreMode => elems' == elems && released == [] && SkippedCollection(before, after, h.skip, ok)
  }
}
