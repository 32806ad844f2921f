/**
 * How the three directions fit together. Each round trip takes the bytes a
 * successful store appended to one stream, followed by anything else, as
 * the unread input of a restore; each ignore lemma compares an ignore and
 * a restore that start from the same input.
 */
module Properties {
  import opened Wire
  import opened Io
  import opened Elements
  import opened Trees
  import opened Effects

  /** The bytes an operation appended to the stream. */
  ghost function Appended(before: World, after: World): Bytes {
    if |before.written| <= |after.written| then after.written[|before.written|..] else []
  }

  /** Restoring the encoding of a u16, u32 or u64 gives back the value and consumes exactly its bytes. */
  lemma ScalarRoundTrip(w: nat, v: nat, s1: World, s1': World, v1: nat,
                        s2: World, s2': World, x: nat, ok: bool, v2: nat, rest: Bytes)
    requires v < Pow256(w) && x < Pow256(w)
    requires ScalarEffect(StoreMode, w, s1, s1', v, true, v1)
    requires s2.unread == Appended(s1, s1') + rest
    requires ScalarEffect(RestoreMode, w, s2, s2', x, ok, v2)
    ensures ok && v2 == v && s2'.unread == rest && s2'.live == s2.live
  {
    assert Appended(s1, s1') == EncodeBE(w, v);
    assert s2.unread[..w] == EncodeBE(w, v);
    DecodeEncode(w, v);
  }

  /** The signed accessors store the two's complement bits, so a signed value comes back unchanged. */
  lemma SignedRoundTrip(w: nat, v: int, s1: World, s1': World, v1: int,
                        s2: World, s2': World, x: int, ok: bool, v2: int, rest: Bytes)
    requires w > 0 && -Half(w) <= v < Half(w) && -Half(w) <= v1 < Half(w)
    requires -Half(w) <= x < Half(w) && -Half(w) <= v2 < Half(w)
    requires ScalarEffect(StoreMode, w, s1, s1', Unsigned(w, v), true, Unsigned(w, v1))
    requires s2.unread == Appended(s1, s1') + rest
    requires ScalarEffect(RestoreMode, w, s2, s2', Unsigned(w, x), ok, Unsigned(w, v2))
    ensures ok && v2 == v && s2'.unread == rest
  {
    ScalarRoundTrip(w, Unsigned(w, v), s1, s1', Unsigned(w, v1), s2, s2', Unsigned(w, x), ok, Unsigned(w, v2), rest);
    SignedUnsigned(w, v, Unsigned(w, v2));
    SignedUnsigned(w, v2, Unsigned(w, v));
  }

  /** A bool comes back as it was stored. */
  lemma BoolRoundTrip(b: bool, s1: World, s1': World, b1: bool,
                      s2: World, s2': World, x: bool, ok: bool, b2: bool, rest: Bytes)
    requires BoolEffect(StoreMode, s1, s1', b, true, b1)
    requires s2.unread == Appended(s1, s1') + rest
    requires BoolEffect(RestoreMode, s2, s2', x, ok, b2)
    ensures ok && b2 == b && s2'.unread == rest
  {
    assert Appended(s1, s1') == [if b then 1 else 0];
  }

  /** Raw bytes come back into a buffer of the same size. */
  lemma BytesRoundTrip(buf: Bytes, s1: World, s1': World, buf1: Bytes,
                       s2: World, s2': World, x: Bytes, ok: bool, buf2: Bytes, rest: Bytes)
    requires |x| == |buf|
    requires BytesEffect(StoreMode, s1, s1', buf, true, buf1)
    requires s2.unread == Appended(s1, s1') + rest
    requires BytesEffect(RestoreMode, s2, s2', x, ok, buf2)
    ensures ok && buf2 == buf && s2'.unread == rest
  {
    assert Appended(s1, s1') == buf;
    assert s2.unread[..|buf|] == buf;
  }

  /**
   * The stored frame of a block shorter than 2^32 bytes restores the same
   * block: an empty block or a null pointer comes back as a null pointer
   * without allocating, any other block as an allocated copy, unless the
   * allocation fails, which leaves a null pointer and nothing allocated.
   * A string frame restores in the same way.
   */
  lemma FrameRoundTripOf(data: Option<Bytes>, s1: World, s1': World,
                         s2: World, s2': World, isString: bool, ok: bool, data2: Option<Bytes>, rest: Bytes)
    requires SizeOf(data) < Pow256(4)
    requires StoredBuffer(s1, s1', data, true)
    requires s2.unread == Appended(s1, s1') + rest
    requires RestoredFrame(s2, s2', isString, ok, data2)
    ensures SizeOf(data) == 0 ==> ok && data2 == None && s2'.unread == rest && s2'.live == s2.live
    ensures ok ==> && data2 == (if SizeOf(data) == 0 then None else data)
                   && s2'.unread == rest
                   && s2'.live == s2.live + (if SizeOf(data) == 0 then multiset{} else multiset{SizeOf(data)})
    ensures !ok ==> data2 == None && s2'.live == s2.live
  {
    var payload := if SizeOf(data) > 0 then data.value else [];
    assert |payload| == SizeOf(data);
    assert Appended(s1, s1') == EncodeFrame(payload);
    FrameRoundTrip(payload, rest);
  }

  /** A sized buffer shorter than 2^32 bytes round-trips; an empty one comes back as a null pointer. */
  lemma SizedBufferRoundTrip(data: Option<Bytes>, s1: World, s1': World, data1: Option<Bytes>,
                             s2: World, s2': World, ok: bool, data2: Option<Bytes>, rest: Bytes)
    requires SizeOf(data) < Pow256(4)
    requires SizedBufferEffect(StoreMode, s1, s1', data, true, data1)
    requires s2.unread == Appended(s1, s1') + rest
    requires SizedBufferEffect(RestoreMode, s2, s2', None, ok, data2)
    ensures SizeOf(data) == 0 ==> ok && data2 == None && s2'.unread == rest
    ensures ok ==> data2 == (if SizeOf(data) == 0 then None else data) && s2'.unread == rest
  {
    FrameRoundTripOf(data, s1, s1', s2, s2', false, ok, data2, rest);
  }

  /**
   * A string comes back as the block of its characters and terminating
   * NUL; a null string pointer comes back null.
   */
  lemma StringRoundTrip(str: Option<Bytes>, s1: World, s1': World, str1: Option<Bytes>,
                        s2: World, s2': World, ok: bool, str2: Option<Bytes>, rest: Bytes)
    requires str.Some? ==> IsCString(str.value) && Strlen(str.value) + 1 < Pow256(4)
    requires StringEffect(StoreMode, s1, s1', str, true, str1)
    requires s2.unread == Appended(s1, s1') + rest
    requires StringEffect(RestoreMode, s2, s2', None, ok, str2)
    ensures str.None? ==> ok && str2 == None && s2'.unread == rest
    ensures ok ==> str2 == CStringData(str) && s2'.unread == rest
  {
    FrameRoundTripOf(CStringData(str), s1, s1', s2, s2', true, ok, str2, rest);
  }

  /**
   * The length field holds the size cast to 32 bits, so a buffer of
   * exactly 2^32 bytes is stored as an empty one: the four zero bytes of
   * its length and nothing else.
   */
  lemma HugeBufferStoredEmpty(data: Bytes, before: World, after: World)
    requires |data| == Pow256(4)
    requires StoredBuffer(before, after, Some(data), true)
    ensures after.written == before.written + [0, 0, 0, 0]
  {
    assert Size32(|data|) == 0;
    assert EncodeBE(4, 0) == [0, 0, 0, 0];
  }

  /** An empty collection is stored as the four zero bytes of its count. */
  lemma EmptyCollectionStored<E>(store: E -> Option<Bytes>, before: World, after: World)
    requires StoredCollection(before, after, store, [], true)
    ensures after.written == before.written + [0, 0, 0, 0]
  {
    assert EncodeBE(4, 0) == [0, 0, 0, 0];
    assert EncodeBE(4, 0) + [] == EncodeBE(4, 0);
  }

  /** The count and element encodings of a stored collection, followed by rest, as restore reads them. */
  lemma ReadStoredCollection<E>(h: ElementHandler<E>, elems: seq<E>, s1: World, s1': World, u: Bytes, rest: Bytes)
    requires forall i :: 0 <= i < |elems| ==> RoundTrips(h, elems[i])
    requires StoredCollection(s1, s1', h.store, elems, true)
    requires u == Appended(s1, s1') + rest
    ensures |elems| < Pow256(4) && |u| >= 4 && DecodeBE(u[..4]) == |elems|
    ensures ParseElements(h.restore, u[4..], |elems|) == Parse(elems, |EncodeElements(h.store, elems).value|, None)
    ensures u[4 + |EncodeElements(h.store, elems).value|..] == rest
  {
    var enc := EncodeElements(h.store, elems).value;
    assert Appended(s1, s1') == EncodeBE(4, |elems|) + enc;
    assert u[..4] == EncodeBE(4, |elems|) && u[4..] == enc + rest;
    DecodeEncode(4, |elems|);
    ParseEncoded(h, elems, rest);
  }

  /**
   * A list stored with a handler that round-trips each element is restored
   * in the same order. The restore may still fail for want of memory; it
   * then leaves a proper prefix of the list, or, with a cleanup callback,
   * an empty list after cleaning up a proper prefix.
   */
  lemma ListRoundTrip<E>(h: ElementHandler<E>, list: seq<E>, s1: World, s1': World,
                         s2: World, s2': World, elementSize: nat, hasCleanup: bool,
                         ok: bool, list2: seq<E>, released: seq<E>, rest: Bytes)
    requires forall i :: 0 <= i < |list| ==> RoundTrips(h, list[i])
    requires StoredCollection(s1, s1', h.store, list, true)
    requires s2.unread == Appended(s1, s1') + rest
    requires RestoredList(s2, s2', elementSize, h.restore, hasCleanup, ok, list2, released)
    ensures ok ==> list2 == list && s2'.unread == rest && s2'.live == s2.live + Blocks(elementSize, |list|)
    ensures !ok && hasCleanup ==> list2 == [] && s2'.live == s2.live && |released| < |list| && released <= list
    ensures !ok && !hasCleanup ==> |list2| < |list| && list2 <= list
  {
    ReadStoredCollection(h, list, s1, s1', s2.unread, rest);
  }

  /**
   * The elements of a tree, stored in ascending order with a handler that
   * round-trips each of them, rebuild the same tree. A restore that fails
   * for want of memory leaves the tree empty, having cleaned up exactly
   * the elements it inserted: those of a proper prefix of the stored tree.
   */
  lemma TreeRoundTrip<E>(h: ElementHandler<E>, rank: E -> int, elems: seq<E>, s1: World, s1': World,
                         s2: World, s2': World, elementSize: nat,
                         ok: bool, elems2: seq<E>, released: seq<E>, rest: Bytes)
    requires StrictlySorted(rank, elems)
    requires forall i :: 0 <= i < |elems| ==> RoundTrips(h, elems[i])
    requires StoredCollection(s1, s1', h.store, elems, true)
    requires s2.unread == Appended(s1, s1') + rest
    requires RestoredTree(s2, s2', elementSize, h.restore, rank, ok, elems2, released)
    ensures ok ==> elems2 == elems && s2'.unread == rest && s2'.live == s2.live + Blocks(elementSize, |elems|)
    ensures !ok ==> && elems2 == [] && s2'.live == s2.live
                    && exists k :: 0 <= k < |elems| && multiset(released) == multiset(elems[..k])
  {
    ReadStoredCollection(h, elems, s1, s1', s2.unread, rest);
    if ok {
      assert [] + elems == elems;
      BuildAscending(rank, [], elems);
    } else {
      var p := ParseElements(h.restore, s2.unread[4..], |elems|);
      assert Attempted(p) == p.elems == elems;
      var k :| && 0 <= k <= |Attempted(p)|
               && TreeAbandoned(rank, p, |elems|, Attempted(p)[..k])
               && multiset(released) == multiset(Attempted(p)[..k]);
      AbandonedDistinct(rank, p, |elems|, elems[..k]);
    }
  }

  /**
   * A tree restore fails when a handler fails, and when two of the
   * elements restored compare equal.
   */
  lemma TreeRestoreRejects<E>(before: World, after: World, elementSize: nat, restore: Bytes -> Restored<E>,
                              rank: E -> int, ok: bool, elems': seq<E>, released: seq<E>, i: nat, j: nat)
    requires |before.unread| >= 4
    requires RestoredTree(before, after, elementSize, restore, rank, ok, elems', released)
    requires var p := ParseElements(restore, before.unread[4..], DecodeBE(before.unread[..4]));
      || p.failed.Some?
      || (i < j < |p.elems| && rank(p.elems[i]) == rank(p.elems[j]))
    ensures !ok
  {
    var p := ParseElements(restore, before.unread[4..], DecodeBE(before.unread[..4]));
    if p.failed.None? {
      BuildRejectsDuplicates(rank, [], p.elems, i, j);
    }
  }

  /**
   * The converse: when every handler call succeeds and no two elements
   * restored compare equal, the only way a tree restore can fail is for
   * want of memory, after inserting (and then cleaning up) a proper
   * prefix of the elements.
   */
  lemma TreeRestoreDistinct<E>(before: World, after: World, elementSize: nat, restore: Bytes -> Restored<E>,
                               rank: E -> int, ok: bool, elems': seq<E>, released: seq<E>)
    requires |before.unread| >= 4
    requires RestoredTree(before, after, elementSize, restore, rank, ok, elems', released)
    requires var p := ParseElements(restore, before.unread[4..], DecodeBE(before.unread[..4]));
      && p.failed.None?
      && forall i, j :: 0 <= i < j < |p.elems| ==> rank(p.elems[i]) != rank(p.elems[j])
    ensures var count := DecodeBE(before.unread[..4]);
            var p := ParseElements(restore, before.unread[4..], count);
      !ok ==> exists k :: 0 <= k < count && k <= |p.elems| && multiset(released) == multiset(p.elems[..k])
  {
    var count := DecodeBE(before.unread[..4]);
    var p := ParseElements(restore, before.unread[4..], count);
    if !ok {
      var k :| && 0 <= k <= |Attempted(p)|
               && TreeAbandoned(rank, p, count, Attempted(p)[..k])
               && multiset(released) == multiset(Attempted(p)[..k]);
      assert Attempted(p) == p.elems;
      AbandonedDistinct(rank, p, count, p.elems[..k]);
      assert 0 <= k < count && k <= |p.elems| && multiset(released) == multiset(p.elems[..k]);
    }
  }

  /** Without a handler failure or a duplicate, what a failed tree restore built is a proper prefix. */
  lemma AbandonedDistinct<E>(rank: E -> int, p: Parse<E>, count: nat, built: seq<E>)
    requires TreeAbandoned(rank, p, count, built)
    requires p.failed.None? && forall i, j :: 0 <= i < j < |p.elems| ==> rank(p.elems[i]) != rank(p.elems[j])
    ensures |built| < count && built <= p.elems
  {
    assert built <= p.elems;
    assert forall i, j :: 0 <= i < j < |built| ==> built[i] == p.elems[i] && built[j] == p.elems[j];
    BuildDistinct(rank, [], built);
  }

  /**
   * Ignoring a sized buffer or a string reads the same bytes as restoring
   * it, and succeeds whenever the restore does.
   */
  lemma IgnoreFrameMatchesRestore(before: World, a1: World, ok1: bool,
                                  a2: World, isString: bool, ok2: bool, data2: Option<Bytes>)
    requires SkippedFrame(before, a1, ok1)
    requires RestoredFrame(before, a2, isString, ok2, data2)
    ensures ok2 ==> ok1 && a1.unread == a2.unread
    ensures ok1 <==> FrameLength(before.unread).Some?
  {
  }

  /**
   * With a handler whose skipping agrees with its restoring, ignoring a
   * list succeeds exactly when every element handler call of a restore
   * succeeds, and reads the same bytes as a successful restore.
   */
  lemma IgnoreListMatchesRestore<E>(h: ElementHandler<E>, before: World, a1: World, ok1: bool,
                                    a2: World, elementSize: nat, hasCleanup: bool,
                                    ok2: bool, list2: seq<E>, released: seq<E>)
    requires forall s :: SkipsAsRestores(h, s)
    requires SkippedCollection(before, a1, h.skip, ok1)
    requires RestoredList(before, a2, elementSize, h.restore, hasCleanup, ok2, list2, released)
    ensures ok1 <==> |before.unread| >= 4
                     && ParseElements(h.restore, before.unread[4..], DecodeBE(before.unread[..4])).failed.None?
    ensures ok2 ==> ok1 && a1.unread == a2.unread
  {
    if |before.unread| >= 4 {
      SkipMatchesParse(h, before.unread[4..], DecodeBE(before.unread[..4]));
    }
  }

  /** The same for a tree: the ignore reads what a successful restore reads. */
  lemma IgnoreTreeMatchesRestore<E>(h: ElementHandler<E>, before: World, a1: World, ok1: bool,
                                    a2: World, elementSize: nat, rank: E -> int,
                                    ok2: bool, elems2: seq<E>, released: seq<E>)
    requires forall s :: SkipsAsRestores(h, s)
    requires SkippedCollection(before, a1, h.skip, ok1)
    requires RestoredTree(before, a2, elementSize, h.restore, rank, ok2, elems2, released)
    ensures ok1 <==> |before.unread| >= 4
                     && ParseElements(h.restore, before.unread[4..], DecodeBE(before.unread[..4])).failed.None?
    ensures ok2 ==> ok1 && a1.unread == a2.unread
  {
    if |before.unread| >= 4 {
      SkipMatchesParse(h, before.unread[4..], DecodeBE(before.unread[..4]));
    }
  }
}
