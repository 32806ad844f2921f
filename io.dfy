/**
 * The two collaborators of the persistence engine: the byte stream it is
 * bound to and the allocator that restore draws its results from.
 */
module Io {
  import opened Wire

  /**
   * A snapshot of everything a persistence operation can change: the bytes
   * written to the stream so far, the bytes still to be read from it, and the
   * sizes of the memory blocks currently allocated.
   */
  datatype World = World(written: Bytes, unread: Bytes, live: multiset<nat>)

  /** The world as a stream and the allocator show it now. */
  function Snapshot(stream: Stream, heap: Heap): World
    reads stream, heap
  {
    World(stream.written, stream.unread, heap.live)
  }

  /**
   * The stream a context is bound to. Writes are all or nothing and may fail
   * for reasons outside the model; a reliable read of n bytes either delivers
   * exactly n bytes or fails, and a failed read has run the stream dry.
   */
  class Stream {
    var written: Bytes
    var unread: Bytes

    constructor (input: Bytes)
      ensures written == [] && unread == input
    {
      written := [];
      unread := input;
    }

    /** avs_stream_write */
    method Write(data: Bytes) returns (ok: bool)
      modifies this
      ensures unread == old(unread)
      ensures written == if ok then old(written) + data else old(written)
    {
      ok := *;
      if ok {
        written := written + data;
      }
    }

    /** avs_stream_read_reliably */
    method ReadReliably(n: nat) returns (ok: bool, data: Bytes)
      modifies this
      ensures written == old(written)
      ensures ok <==> n <= |old(unread)|
      ensures ok ==> data == old(unread)[..n] && unread == old(unread)[n..]
      ensures !ok ==> unread == []
    {
      ok := n <= |unread|;
      if ok {
        data, unread := unread[..n], unread[n..];
      } else {
        data, unread := unread, [];
      }
    }
  }

  /** The allocator: the sizes of the blocks currently allocated. Any allocation may fail. */
  class Heap {
    var live: multiset<nat>

    constructor ()
      ensures live == multiset{}
    {
      live := multiset{};
    }

    /** malloc */
    method Malloc(size: nat) returns (ok: bool)
      modifies this
      ensures live == if ok then old(live) + multiset{size} else old(live)
    {
      ok := *;
      if ok {
        live := live + multiset{size};
      }
    }

    /** free */
    method Free(size: nat)
      requires size in live
      modifies this
      ensures live == old(live) - multiset{size}
    {
      live := live - multiset{size};
    }
  }

  /** n blocks of the given size. */
  function Blocks(size: nat, n: nat): (r: multiset<nat>)
    ensures |r| == n && r[size] == n
  {
    if n == 0 then multiset{} else Blocks(size, n - 1) + multiset{size}
  }

  /** One more block of the same size. */
  lemma MoreBlocks(base: multiset<nat>, live: multiset<nat>, size: nat, n: nat)
    requires live == base + Blocks(size, n)
    ensures live + multiset{size} == base + Blocks(size, n + 1)
  {
  }

  /** Freeing what was allocated gives the heap back as it was. */
  lemma Cancel(a: multiset<nat>, b: multiset<nat>, c: multiset<nat>)
    requires a + c == b + c
    ensures a == b
  {
    forall x
      ensures a[x] == b[x]
    {
      assert (a + c)[x] == (b + c)[x];
    }
  }
}
