/**
 * Collection elements and the caller-supplied element handler. The same
 * handler is passed to a collection operation in every direction; the model
 * gives its three behaviours as pure functions of what it is shown:
 *  - in a store context it is given an element and writes its encoding, or
 *    fails, possibly after writing part of what it meant to write;
 *  - in a restore context it is given a zeroed element and the unread stream,
 *    and either fills the element in from a prefix of the stream or fails
 *    after filling it in partly;
 *  - in an ignore context it is given no element and skips a prefix of the
 *    stream, or fails.
 */
module Elements {
  import opened Wire
  import opened Io

  datatype Restored<E> = Restored(elem: E, used: nat) | Failed(partial: E)

  datatype ElementHandler<!E> = ElementHandler(
    store: E -> Option<Bytes>,
    restore: Bytes -> Restored<E>,
    skip: Bytes -> Option<nat>)

  /**
   * The handler's restore behaviour on the bytes s. A named function rather
   * than a bare application, so that quantifiers over handler calls (such as
   * the one in RoundTrips) have a term to trigger on.
   */
  function Call<E>(restore: Bytes -> Restored<E>, s: Bytes): Restored<E> {
    restore(s)
  }

  /**
   * The outcome of restoring up to `count` elements one after the other:
   * the elements restored, the bytes they used, and, when one failed, the
   * partly filled element it left behind.
   */
  datatype Parse<E> = Parse(elems: seq<E>, used: nat, failed: Option<E>)

  /**
   * Restores `count` elements from the front of s, stopping at the first
   * handler failure. A handler that claims more bytes than remain fails,
   * as its short read would.
   */
  function ParseElements<E>(restore: Bytes -> Restored<E>, s: Bytes, count: nat): (p: Parse<E>)
    ensures p.used <= |s|
    decreases count
  {
    if count == 0 then Parse([], 0, None)
    else match Call(restore, s)
      case Failed(partial) => Parse([], 0, Some(partial))
      case Restored(e, n) =>
        if n > |s| then Parse([], 0, Some(e))
        else
          var rest := ParseElements(restore, s[n..], count - 1);
          Parse([e] + rest.elems, n + rest.used, rest.failed)
  }

  /** Restoring stops short of `count` elements exactly when a handler fails. */
  lemma {:induction false} ParseCount<E>(restore: Bytes -> Restored<E>, s: Bytes, count: nat)
    ensures var p := ParseElements(restore, s, count);
      |p.elems| <= count && (p.failed.None? <==> |p.elems| == count)
    decreases count
  {
    if count > 0 {
      match Call(restore, s)
      case Failed(_) =>
      case Restored(e, n) =>
        if n <= |s| {
          ParseCount(restore, s[n..], count - 1);
        }
    }
  }

  /** The concatenated encodings of the elements, when the handler encodes every one. */
  function EncodeElements<E>(store: E -> Option<Bytes>, elems: seq<E>): (r: Option<Bytes>)
    ensures r.Some? <==> forall i :: 0 <= i < |elems| ==> store(elems[i]).Some?
  {
    if elems == [] then Some([])
    else match (store(elems[0]), EncodeElements(store, elems[1..]))
      case (Some(b), Some(bs)) => Some(b + bs)
      case _ => None
  }

  /** The bytes skipped by `count` handler calls with no element, unless one fails. */
  function SkipElements(skip: Bytes -> Option<nat>, s: Bytes, count: nat): (r: Option<nat>)
    ensures r.Some? ==> r.value <= |s|
    decreases count
  {
    if count == 0 then Some(0)
    else match skip(s)
      case None => None
      case Some(n) =>
        if n > |s| then None
        else match SkipElements(skip, s[n..], count - 1)
          case None => None
          case Some(m) => Some(n + m)
  }

  /** n more bytes in front of a skip that succeeded. */
  function Shift(n: nat, r: Option<nat>): Option<nat> {
    if r.None? then None else Some(n + r.value)
  }

  /**
   * The bookkeeping of a loop that skips elements one at a time: total,
   * the outcome of skipping all of them from s0, is the `consumed` bytes
   * skipped so far followed by the outcome of skipping the `left` others
   * from s, where the stream now stands.
   */
  ghost predicate Skipping(skip: Bytes -> Option<nat>, total: Option<nat>, s0: Bytes, consumed: nat, s: Bytes,
                           left: nat) {
    consumed <= |s0| && s == s0[consumed..] && total == Shift(consumed, SkipElements(skip, s, left))
  }

  /** Skipping one more element keeps the bookkeeping; when it fails, skipping them all fails. */
  lemma SkipAdvance(skip: Bytes -> Option<nat>, total: Option<nat>, s0: Bytes, consumed: nat, s: Bytes, left: nat)
    requires left > 0 && Skipping(skip, total, s0, consumed, s, left)
    ensures var r := SkipElements(skip, s, 1);
      && (r.Some? ==> Skipping(skip, total, s0, consumed + r.value, s[r.value..], left - 1))
      && (r.None? ==> total.None?)
  {
    match skip(s)
    case None =>
    case Some(n) =>
      if n <= |s| {
        assert SkipElements(skip, s[n..], 0) == Some(0);
        assert s[n..] == s0[consumed + n..];
      }
  }

  /** The element a handler call leaves behind, filled in or partly filled in. */
  function ElemOf<E>(r: Restored<E>): E {
    match r
    case Restored(e, _) => e
    case Failed(e) => e
  }

  /** A handler call that restores an element from bytes that are all there. */
  predicate Fits<E>(r: Restored<E>, s: Bytes) {
    r.Restored? && r.used <= |s|
  }

  /**
   * The bookkeeping of a loop that restores elements one at a time: p, the
   * outcome of restoring all of them, is the elements restored so far
   * (using the first `consumed` bytes of s0) followed by the outcome of
   * restoring the `remaining` others from s, where the stream now stands.
   */
  ghost predicate Tracks<E>(restore: Bytes -> Restored<E>, p: Parse<E>, done: seq<E>, s0: Bytes, consumed: nat,
                            s: Bytes, remaining: nat) {
    var q := ParseElements(restore, s, remaining);
    && consumed <= |s0| && s == s0[consumed..]
    && p == Parse(done + q.elems, consumed + q.used, q.failed)
  }

  /** Tracks, counted from the total: the elements still to restore are those not yet done. */
  ghost predicate Progress<E>(restore: Bytes -> Restored<E>, p: Parse<E>, done: seq<E>, s0: Bytes, consumed: nat,
                              s: Bytes, count: nat) {
    |done| <= count && Tracks(restore, p, done, s0, consumed, s, count - |done|)
  }

  /**
   * The elements built before a restore failed: a prefix of the parsed
   * elements, cut short by an allocation failure, or all of them followed by
   * the element the handler failed on.
   */
  ghost predicate Abandoned<E>(p: Parse<E>, count: nat, built: seq<E>) {
    || (|built| < count && built <= p.elems)
    || (p.failed.Some? && built == p.elems + [p.failed.value])
  }

  /**
   * Restoring one more element keeps the bookkeeping; when the handler
   * fails on it, the elements built with it are those a failed restore
   * leaves.
   */
  lemma {:induction false} ParseAdvance<E>(restore: Bytes -> Restored<E>, p: Parse<E>, done: seq<E>, s0: Bytes,
                                          consumed: nat, s: Bytes, count: nat)
    requires |done| < count && Progress(restore, p, done, s0, consumed, s, count)
    ensures var r := Call(restore, s);
      && (Fits(r, s) ==> Progress(restore, p, done + [r.elem], s0, consumed + r.used, s[r.used..], count))
      && (!Fits(r, s) ==> p.elems == done && p.failed == Some(ElemOf(r)) && Abandoned(p, count, done + [ElemOf(r)]))
  {
    var r := Call(restore, s);
    var remaining := count - |done|;
    if Fits(r, s) {
      var q := ParseElements(restore, s[r.used..], remaining - 1);
      assert done + ([r.elem] + q.elems) == (done + [r.elem]) + q.elems;
      assert s[r.used..] == s0[consumed + r.used..];
      assert count - |done + [r.elem]| == remaining - 1;
    } else {
      assert done + [] == done;
    }
  }

  /** When every element is done, the elements restored are all of them. */
  lemma ProgressDone<E>(restore: Bytes -> Restored<E>, p: Parse<E>, done: seq<E>, s0: Bytes,
                        consumed: nat, s: Bytes, count: nat)
    requires |done| == count && Progress(restore, p, done, s0, consumed, s, count)
    ensures p == Parse(done, consumed, None) && consumed <= |s0| && s == s0[consumed..]
  {
    assert done + [] == done;
  }

  /** An allocation failure leaves a proper prefix of the elements. */
  lemma ProgressPrefix<E>(restore: Bytes -> Restored<E>, p: Parse<E>, done: seq<E>, s0: Bytes,
                          consumed: nat, s: Bytes, count: nat)
    requires |done| < count && Progress(restore, p, done, s0, consumed, s, count)
    ensures Abandoned(p, count, done)
  {
    assert done <= p.elems;
  }

  /** Encoding one more element appends its encoding. */
  lemma {:induction false} EncodeElementsSnoc<E>(store: E -> Option<Bytes>, elems: seq<E>, e: E)
    requires EncodeElements(store, elems).Some? && store(e).Some?
    ensures EncodeElements(store, elems + [e])
         == Some(EncodeElements(store, elems).value + store(e).value)
  {
    if elems == [] {
      assert elems + [e] == [e] && [e][1..] == [];
      assert EncodeElements(store, [e]) == Some(store(e).value + []);
      assert store(e).value + [] == store(e).value;
      assert EncodeElements(store, elems).value == [];
      assert [] + store(e).value == store(e).value;
    } else {
      assert (elems + [e])[1..] == elems[1..] + [e];
      assert (elems + [e])[0] == elems[0];
      EncodeElementsSnoc(store, elems[1..], e);
      var b := store(elems[0]).value;
      assert EncodeElements(store, elems).value == b + EncodeElements(store, elems[1..]).value;
      assert b + (EncodeElements(store, elems[1..]).value + store(e).value)
          == (b + EncodeElements(store, elems[1..]).value) + store(e).value;
    }
  }

  /** The handler restores e from its own encoding, whatever follows it. */
  ghost predicate RoundTrips<E>(h: ElementHandler<E>, e: E) {
    && h.store(e).Some?
    && forall rest :: Call(h.restore, h.store(e).value + rest) == Restored(e, |h.store(e).value|)
  }

  /** The handler skips exactly the bytes it would restore from, and fails where restore fails. */
  ghost predicate SkipsAsRestores<E>(h: ElementHandler<E>, s: Bytes) {
    match Call(h.restore, s)
    case Restored(_, n) => h.skip(s) == Some(n)
    case Failed(_) => h.skip(s).None?
  }

  /**
   * Restoring the encodings of a sequence of elements, with a handler that
   * round-trips each of them, gives back the same elements in the same
   * order and uses exactly the encoded bytes.
   */
  lemma {:induction false} ParseEncoded<E>(h: ElementHandler<E>, elems: seq<E>, rest: Bytes)
    requires forall i :: 0 <= i < |elems| ==> RoundTrips(h, elems[i])
    ensures EncodeElements(h.store, elems).Some?
    ensures ParseElements(h.restore, EncodeElements(h.store, elems).value + rest, |elems|)
         == Parse(elems, |EncodeElements(h.store, elems).value|, None)
  {
    if elems != [] {
      var e := elems[0];
      assert RoundTrips(h, e);
      var b := h.store(e).value;
      ParseEncoded(h, elems[1..], rest);
      var bs := EncodeElements(h.store, elems[1..]).value;
      var s := b + bs + rest;
      assert s == b + (bs + rest);
      assert Call(h.restore, s) == Restored(e, |b|);
      assert s[|b|..] == bs + rest;
      assert [e] + elems[1..] == elems;
    }
  }

  /**
   * Ignore mode advances over a collection exactly as far as restore mode
   * does, and fails exactly when restore's handler fails, provided the
   * element handler skips as it restores.
   */
  lemma {:induction false} SkipMatchesParse<E>(h: ElementHandler<E>, s: Bytes, count: nat)
    requires forall t :: SkipsAsRestores(h, t)
    ensures var p := ParseElements(h.restore, s, count);
      SkipElements(h.skip, s, count) == if p.failed.None? then Some(p.used) else None
    decreases count
  {
    if count > 0 {
      assert SkipsAsRestores(h, s);
      match Call(h.restore, s)
      case Failed(_) =>
      case Restored(_, n) =>
        if n <= |s| {
          SkipMatchesParse(h, s[n..], count - 1);
        }
    }
  }

  // The engine's side of one handler call.

  /** The handler called on one element in a store context. */
  method StoreElement<E>(stream: Stream, store: E -> Option<Bytes>, e: E) returns (ok: bool)
    modifies stream
    ensures stream.unread == old(stream.unread)
    ensures ok ==> store(e).Some? && stream.written == old(stream.written) + store(e).value
    ensures !ok ==> old(stream.written) <= stream.written
  {
    match store(e)
    case None =>
      // whatever the handler wrote before it failed
      var partial: Bytes := *;
      var _ := stream.Write(partial);
      ok := false;
    case Some(b) =>
      ok := stream.Write(b);
  }

  /** The handler called on a fresh zeroed element in a restore context. */
  method RestoreElement<E>(stream: Stream, restore: Bytes -> Restored<E>) returns (ok: bool, e: E)
    modifies stream
    ensures stream.written == old(stream.written)
    ensures var r := Call(restore, old(stream.unread));
      && e == ElemOf(r)
      && (ok <==> Fits(r, old(stream.unread)))
      && (ok ==> stream.unread == old(stream.unread)[r.used..])
  {
    match Call(restore, stream.unread)
    case Failed(partial) =>
      ok, e := false, partial;
    case Restored(x, n) =>
      e := x;
      var data;
      ok, data := stream.ReadReliably(n);
  }

  /** The handler called with no element in an ignore context. */
  method SkipElement(stream: Stream, skip: Bytes -> Option<nat>) returns (ok: bool)
    modifies stream
    ensures stream.written == old(stream.written)
    ensures var r := SkipElements(skip, old(stream.unread), 1);
      && (ok <==> r.Some?)
      && (ok ==> stream.unread == old(stream.unread)[r.value..])
  {
    match skip(stream.unread)
    case None =>
      ok := false;
    case Some(n) =>
      ghost var s := stream.unread;
      assert n <= |s| ==> SkipElements(skip, s[n..], 0) == Some(0);
      var data;
      ok, data := stream.ReadReliably(n);
  }
}
