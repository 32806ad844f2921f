/**
 * The persistence context and its public accessors. A context is bound to
 * one stream when it is created and carries the handler table of one
 * direction; every accessor fails on a null context and otherwise hands
 * the call to that table.
 */
module Persistence {
  import opened Wire
  import opened Io
  import opened Elements
  import opened Trees
  import opened Effects
  import opened Store
  import opened Restore
  import opened Ignore

  /** avs_persistence_direction_t. */
  datatype Direction = Storing | Restoring | Unknown

  /**
   * The direction each handler table is initialised with: the ignore table
   * reports Restoring, since it reads the stream as a restore context does.
   */
  function InitialDirection(mode: Mode): (d: Direction)
    ensures d != Unknown
    ensures d == Storing <==> mode == StoreMode
  {
    match mode
    case StoreMode => Storing
    case RestoreMode => Restoring
    case IgnoreMode => Restoring
  }

  /** The size of the block a context occupies: a direction and twelve pointers on a 64-bit target. */
  const ContextSize: nat := 104

  /** avs_persistence_context_t: the direction, the handler table of one mode and the bound stream. */
  class Context {
    const direction: Direction
    const mode: Mode
    const stream: Stream
    const heap: Heap

    ghost predicate Valid() {
      direction == InitialDirection(mode)
    }

    constructor (mode: Mode, stream: Stream, heap: Heap)
      ensures Valid() && this.mode == mode && this.stream == stream && this.heap == heap
    {
      this.direction := InitialDirection(mode);
      this.mode := mode;
      this.stream := stream;
      this.heap := heap;
    }
  }

  /** What an accessor may change: the context's stream and allocator; nothing for a null context. */
  function Footprint(ctx: Context?): set<object> {
    if ctx == null then {} else {ctx.stream, ctx.heap}
  }

  /** A context that is null or was made by one of the constructors below. */
  ghost predicate Usable(ctx: Context?) {
    ctx != null ==> ctx.Valid()
  }

  /**
   * The body the three constructors share: no context for a null stream;
   * otherwise a zeroed block, which may not be available, initialised with
   * the table of the given mode.
   */
  method ContextNew(mode: Mode, stream: Stream?, heap: Heap) returns (ctx: Context?)
    modifies heap
    ensures stream == null ==> ctx == null
    ensures ctx != null ==> && fresh(ctx) && ctx.Valid()
                            && ctx.mode == mode && ctx.stream == stream && ctx.heap == heap
    ensures heap.live == if ctx == null then old(heap.live) else old(heap.live) + multiset{ContextSize}
  {
    if stream == null {
      return null;
    }
    var got := heap.Malloc(ContextSize);
    if !got {
      return null;
    }
    ctx := new Context(mode, stream, heap);
  }

  /** avs_persistence_store_context_new. */
  method StoreContextNew(stream: Stream?, heap: Heap) returns (ctx: Context?)
    modifies heap
    ensures stream == null ==> ctx == null
    ensures ctx != null ==> && fresh(ctx) && ctx.Valid()
                            && ctx.mode == StoreMode && ctx.stream == stream && ctx.heap == heap
    ensures heap.live == if ctx == null then old(heap.live) else old(heap.live) + multiset{ContextSize}
  {
    ctx := ContextNew(StoreMode, stream, heap);
  }

  /** avs_persistence_restore_context_new. */
  method RestoreContextNew(stream: Stream?, heap: Heap) returns (ctx: Context?)
    modifies heap
    ensures stream == null ==> ctx == null
    ensures ctx != null ==> && fresh(ctx) && ctx.Valid()
                            && ctx.mode == RestoreMode && ctx.stream == stream && ctx.heap == heap
    ensures heap.live == if ctx == null then old(heap.live) else old(heap.live) + multiset{ContextSize}
  {
    ctx := ContextNew(RestoreMode, stream, heap);
  }

  /** avs_persistence_ignore_context_new. */
  method IgnoreContextNew(stream: Stream?, heap: Heap) returns (ctx: Context?)
    modifies heap
    ensures stream == null ==> ctx == null
    ensures ctx != null ==> && fresh(ctx) && ctx.Valid()
                            && ctx.mode == IgnoreMode && ctx.stream == stream && ctx.heap == heap
    ensures heap.live == if ctx == null then old(heap.live) else old(heap.live) + multiset{ContextSize}
  {
    ctx := ContextNew(IgnoreMode, stream, heap);
  }

  /** avs_persistence_context_delete: frees the context's block; a null context is left alone. */
  method ContextDelete(ctx: Context?, heap: Heap)
    requires ctx != null ==> ContextSize in heap.live
    modifies heap
    ensures heap.live == if ctx == null then old(heap.live) else old(heap.live) - multiset{ContextSize}
  {
    if ctx != null {
      heap.Free(ContextSize);
    }
  }

  /** avs_persistence_direction: Unknown for a null context, and the table's direction otherwise. */
  function DirectionOf(ctx: Context?): (d: Direction)
    requires Usable(ctx)
    ensures d == Unknown <==> ctx == null
    ensures ctx != null ==> (d == Storing <==> ctx.mode == StoreMode)
  {
    if ctx == null then Unknown else ctx.direction
  }

  /**
   * handle_u16, handle_u32 and handle_u64 of the context's table, for w of
   * 2, 4 and 8; handle_float and handle_double act alike on bit patterns.
   */
  method Scalar(ctx: Context, w: nat, v: nat) returns (ok: bool, v': nat)
    requires v < Pow256(w)
    modifies ctx.stream, ctx.heap
    ensures v' < Pow256(w)
    ensures ScalarEffect(ctx.mode, w, old(Snapshot(ctx.stream, ctx.heap)), Snapshot(ctx.stream, ctx.heap), v, ok, v')
  {
    match ctx.mode
    case StoreMode =>
      ok := PersistUnsigned(ctx.stream, ctx.heap, w, v);
      v' := v;
    case RestoreMode =>
      ok, v' := RestoreUnsigned(ctx.stream, ctx.heap, w, v);
    case IgnoreMode =>
      ok := IgnoreUnsigned(ctx.stream, ctx.heap, w);
      v' := v;
  }

  /** avs_persistence_u16. */
  method ContextU16(ctx: Context?, v: u16) returns (ok: bool, v': u16)
    modifies Footprint(ctx)
    ensures ctx == null ==> !ok && v' == v
    ensures ctx != null ==> && v < Pow256(2)
                            && ScalarEffect(ctx.mode, 2, old(Snapshot(ctx.stream, ctx.heap)),
                                            Snapshot(ctx.stream, ctx.heap), v, ok, v')
  {
    Pow256Widths();
    if ctx == null {
      return false, v;
    }
    var r;
    ok, r := Scalar(ctx, 2, v);
    v' := r;
  }

  /** avs_persistence_u32. */
  method ContextU32(ctx: Context?, v: u32) returns (ok: bool, v': u32)
    modifies Footprint(ctx)
    ensures ctx == null ==> !ok && v' == v
    ensures ctx != null ==> && v < Pow256(4)
                            && ScalarEffect(ctx.mode, 4, old(Snapshot(ctx.stream, ctx.heap)),
                                            Snapshot(ctx.stream, ctx.heap), v, ok, v')
  {
    Pow256Widths();
    if ctx == null {
      return false, v;
    }
    var r;
    ok, r := Scalar(ctx, 4, v);
    v' := r;
  }

  /** avs_persistence_u64. */
  method ContextU64(ctx: Context?, v: u64) returns (ok: bool, v': u64)
    modifies Footprint(ctx)
    ensures ctx == null ==> !ok && v' == v
    ensures ctx != null ==> && v < Pow256(8)
                            && ScalarEffect(ctx.mode, 8, old(Snapshot(ctx.stream, ctx.heap)),
                                            Snapshot(ctx.stream, ctx.heap), v, ok, v')
  {
    Pow256Widths();
    if ctx == null {
      return false, v;
    }
    var r;
    ok, r := Scalar(ctx, 8, v);
    v' := r;
  }

  /** avs_persistence_i16: the u16 operation on the same bits. */
  method ContextI16(ctx: Context?, v: i16) returns (ok: bool, v': i16)
    modifies Footprint(ctx)
    ensures ctx == null ==> !ok && v' == v
    ensures ctx != null ==> && -Half(2) <= v < Half(2) && -Half(2) <= v' < Half(2)
                            && ScalarEffect(ctx.mode, 2, old(Snapshot(ctx.stream, ctx.heap)),
                                            Snapshot(ctx.stream, ctx.heap), Unsigned(2, v), ok, Unsigned(2, v'))
  {
    Pow256Widths();
    var u;
    ok, u := ContextU16(ctx, Unsigned(2, v));
    v' := Signed(2, u);
    SignedUnsigned(2, v, u);
  }

  /** avs_persistence_i32: the u32 operation on the same bits. */
  method ContextI32(ctx: Context?, v: i32) returns (ok: bool, v': i32)
    modifies Footprint(ctx)
    ensures ctx == null ==> !ok && v' == v
    ensures ctx != null ==> && -Half(4) <= v < Half(4) && -Half(4) <= v' < Half(4)
                            && ScalarEffect(ctx.mode, 4, old(Snapshot(ctx.stream, ctx.heap)),
                                            Snapshot(ctx.stream, ctx.heap), Unsigned(4, v), ok, Unsigned(4, v'))
  {
    Pow256Widths();
    var u;
    ok, u := ContextU32(ctx, Unsigned(4, v));
    v' := Signed(4, u);
    SignedUnsigned(4, v, u);
  }

  /** avs_persistence_i64: the u64 operation on the same bits. */
  method ContextI64(ctx: Context?, v: i64) returns (ok: bool, v': i64)
    modifies Footprint(ctx)
    ensures ctx == null ==> !ok && v' == v
    ensures ctx != null ==> && -Half(8) <= v < Half(8) && -Half(8) <= v' < Half(8)
                            && ScalarEffect(ctx.mode, 8, old(Snapshot(ctx.stream, ctx.heap)),
                                            Snapshot(ctx.stream, ctx.heap), Unsigned(8, v), ok, Unsigned(8, v'))
  {
    Pow256Widths();
    var u;
    ok, u := ContextU64(ctx, Unsigned(8, v));
    v' := Signed(8, u);
    SignedUnsigned(8, v, u);
  }

  /**
   * avs_persistence_float: handle_float of the context's table. A float is
   * modelled by its IEEE 754 bit pattern, which travels as a big-endian
   * 32-bit field.
   */
  method ContextFloat(ctx: Context?, bits: u32) returns (ok: bool, bits': u32)
    modifies Footprint(ctx)
    ensures ctx == null ==> !ok && bits' == bits
    ensures ctx != null ==> && bits < Pow256(4)
                            && ScalarEffect(ctx.mode, 4, old(Snapshot(ctx.stream, ctx.heap)),
                                            Snapshot(ctx.stream, ctx.heap), bits, ok, bits')
  {
    Pow256Widths();
    if ctx == null {
      return false, bits;
    }
    var r;
    ok, r := Scalar(ctx, 4, bits);
    bits' := r;
  }

  /** avs_persistence_double: handle_double of the context's table, on the 64-bit IEEE 754 bit pattern. */
  method ContextDouble(ctx: Context?, bits: u64) returns (ok: bool, bits': u64)
    modifies Footprint(ctx)
    ensures ctx == null ==> !ok && bits' == bits
    ensures ctx != null ==> && bits < Pow256(8)
                            && ScalarEffect(ctx.mode, 8, old(Snapshot(ctx.stream, ctx.heap)),
                                            Snapshot(ctx.stream, ctx.heap), bits, ok, bits')
  {
    Pow256Widths();
    if ctx == null {
      return false, bits;
    }
    var r;
    ok, r := Scalar(ctx, 8, bits);
    bits' := r;
  }

  /** avs_persistence_bytes: handle_bytes of the context's table. */
  method ContextBytes(ctx: Context?, buf: Bytes) returns (ok: bool, buf': Bytes)
    modifies Footprint(ctx)
    ensures ctx == null ==> !ok && buf' == buf
    ensures ctx != null ==> BytesEffect(ctx.mode, old(Snapshot(ctx.stream, ctx.heap)),
                                        Snapshot(ctx.stream, ctx.heap), buf, ok, buf')
  {
    if ctx == null {
      return false, buf;
    }
    match ctx.mode
    case StoreMode =>
      ok := PersistBytes(ctx.stream, ctx.heap, buf);
      buf' := buf;
    case RestoreMode =>
      ok, buf' := RestoreBytes(ctx.stream, ctx.heap, buf);
    case IgnoreMode =>
      ok := IgnoreBytes(ctx.stream, ctx.heap, |buf|);
      buf' := buf;
  }

  /** avs_persistence_u8: the bytes operation on a buffer of one byte. */
  method ContextU8(ctx: Context?, v: u8) returns (ok: bool, v': u8)
    modifies Footprint(ctx)
    ensures ctx == null ==> !ok && v' == v
    ensures ctx != null ==> BytesEffect(ctx.mode, old(Snapshot(ctx.stream, ctx.heap)),
                                        Snapshot(ctx.stream, ctx.heap), [v], ok, [v'])
  {
    var buf;
    ok, buf := ContextBytes(ctx, [v]);
    assert |buf| == 1;
    v' := buf[0];
    assert buf == [v'];
  }

  /** avs_persistence_i8: the bytes operation on the byte with the same bits. */
  method ContextI8(ctx: Context?, v: i8) returns (ok: bool, v': i8)
    modifies Footprint(ctx)
    ensures ctx == null ==> !ok && v' == v
    ensures ctx != null ==> && -Half(1) <= v < Half(1) && -Half(1) <= v' < Half(1)
                            && BytesEffect(ctx.mode, old(Snapshot(ctx.stream, ctx.heap)),
                                           Snapshot(ctx.stream, ctx.heap), [Unsigned(1, v)], ok, [Unsigned(1, v')])
  {
    Pow256Widths();
    var u;
    ok, u := ContextU8(ctx, Unsigned(1, v));
    v' := Signed(1, u);
    SignedUnsigned(1, v, u);
  }

  /** avs_persistence_bool: handle_bool of the context's table. */
  method ContextBool(ctx: Context?, b: bool) returns (ok: bool, b': bool)
    modifies Footprint(ctx)
    ensures ctx == null ==> !ok && b' == b
    ensures ctx != null ==> BoolEffect(ctx.mode, old(Snapshot(ctx.stream, ctx.heap)),
                                       Snapshot(ctx.stream, ctx.heap), b, ok, b')
  {
    if ctx == null {
      return false, b;
    }
    match ctx.mode
    case StoreMode =>
      ok := PersistBool(ctx.stream, ctx.heap, b);
      b' := b;
    case RestoreMode =>
      ok, b' := RestoreBool(ctx.stream, ctx.heap, b);
    case IgnoreMode =>
      ok := IgnoreBool(ctx.stream, ctx.heap);
      b' := b;
  }

  /**
   * avs_persistence_sized_buffer: handle_sized_buffer of the context's
   * table. A restore context expects a null pointer of size 0.
   */
  method ContextSizedBuffer(ctx: Context?, data: Option<Bytes>) returns (ok: bool, data': Option<Bytes>)
    requires ctx != null && ctx.mode == RestoreMode ==> data == None
    modifies Footprint(ctx)
    ensures ctx == null ==> !ok && data' == data
    ensures ctx != null ==> SizedBufferEffect(ctx.mode, old(Snapshot(ctx.stream, ctx.heap)),
                                              Snapshot(ctx.stream, ctx.heap), data, ok, data')
  {
    if ctx == null {
      return false, data;
    }
    match ctx.mode
    case StoreMode =>
      ok := PersistSizedBuffer(ctx.stream, ctx.heap, data);
      data' := data;
    case RestoreMode =>
      ok, data' := RestoreSizedBuffer(ctx.stream, ctx.heap);
    case IgnoreMode =>
      ok := IgnoreSizedBuffer(ctx.stream, ctx.heap);
      data' := data;
  }

  /**
   * avs_persistence_string: handle_string of the context's table. A
   * restore context expects a null pointer.
   */
  method ContextString(ctx: Context?, str: Option<Bytes>) returns (ok: bool, str': Option<Bytes>)
    requires str.Some? ==> IsCString(str.value)
    requires ctx != null && ctx.mode == RestoreMode ==> str == None
    modifies Footprint(ctx)
    ensures ctx == null ==> !ok && str' == str
    ensures ctx != null ==> StringEffect(ctx.mode, old(Snapshot(ctx.stream, ctx.heap)),
                                         Snapshot(ctx.stream, ctx.heap), str, ok, str')
  {
    if ctx == null {
      return false, str;
    }
    match ctx.mode
    case StoreMode =>
      ok := PersistString(ctx.stream, ctx.heap, str);
      str' := str;
    case RestoreMode =>
      ok, str' := RestoreString(ctx.stream, ctx.heap);
    case IgnoreMode =>
      ok := IgnoreString(ctx.stream, ctx.heap);
      str' := str;
  }

  /**
   * avs_persistence_list: handle_list of the context's table. A restore
   * context expects an empty list; `released` is the elements handed to
   * the cleanup callback, in order.
   */
  method ContextList<E>(ctx: Context?, list: seq<E>, elementSize: nat, h: ElementHandler<E>, hasCleanup: bool)
    returns (ok: bool, list': seq<E>, released: seq<E>)
    requires ctx != null && ctx.mode == RestoreMode ==> list == []
    modifies Footprint(ctx)
    ensures ctx == null ==> !ok && list' == list && released == []
    ensures ctx != null ==> ListEffect(ctx.mode, old(Snapshot(ctx.stream, ctx.heap)), Snapshot(ctx.stream, ctx.heap),
                                       elementSize, h, hasCleanup, list, ok, list', released)
  {
    if ctx == null {
      return false, list, [];
    }
    match ctx.mode
    case StoreMode =>
      ok := PersistList(ctx.stream, ctx.heap, h, list);
      list', released := list, [];
    case RestoreMode =>
      ok, list', released := RestoreList(ctx.stream, ctx.heap, elementSize, h, hasCleanup);
    case IgnoreMode =>
      ok := IgnoreList(ctx.stream, ctx.heap, h);
      list', released := list, [];
  }

  /**
   * avs_persistence_tree: handle_tree of the context's table. A restore
   * context expects an empty tree and a cleanup callback; `released` is
   * the elements handed to it.
   */
  method ContextTree<E>(ctx: Context?, tree: Tree<E>, elementSize: nat, h: ElementHandler<E>)
    returns (ok: bool, released: seq<E>)
    requires tree.Valid()
    requires ctx != null && ctx.mode == RestoreMode ==> tree.elems == []
    modifies Footprint(ctx), tree
    ensures tree.Valid()
    ensures ctx == null ==> !ok && tree.elems == old(tree.elems) && released == []
    ensures ctx != null ==> TreeEffect(ctx.mode, old(Snapshot(ctx.stream, ctx.heap)), Snapshot(ctx.stream, ctx.heap),
                                       elementSize, h, tree.rank, old(tree.elems), ok, tree.elems, released)
  {
    if ctx == null {
      return false, [];
    }
    match ctx.mode
    case StoreMode =>
      ok := PersistTree(ctx.stream, ctx.heap, h, tree);
      released := [];
    case RestoreMode =>
      ok, released := RestoreTree(ctx.stream, ctx.heap, elementSize, h, tree);
    case IgnoreMode =>
      ok := IgnoreTree(ctx.stream, ctx.heap, h);
      released := [];
  }
}
