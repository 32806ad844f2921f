# avs_commons persistence and log levels in Dafny

This project models two pieces of avs_commons.

**The persistence engine.** A context is bound to one stream and one of three handler tables:
- store writes each field;
- restore reads each field back, allocating what it needs;
- ignore reads past each field without allocating.

The caller then issues a fixed sequence of typed accessors (u8…u64, i8…i64, bool, bytes, float, double, sized buffer, string, list, tree). Each accessor fails on a null context and otherwise dispatches to the context's table. Integers travel big-endian. Sized buffers and strings are a 32-bit length followed by the payload. Collections are a 32-bit count followed by one handler call per element. Restore rolls back on failure: it frees what it allocated and hands the elements built so far to the cleanup callback.

Three behaviours of the code are worth knowing:
- A sized buffer whose size does not fit in 32 bits is only logged. Its truncated length is written, then, unless that length is 0, the whole buffer (`Properties.HugeBufferStoredEmpty` states the consequence for a buffer of exactly 2^32 bytes).
- A list restored without a cleanup callback keeps its partial elements after a failure, and they stay in the caller's hands.
- The ignore handlers never call cleanup.

**The log level table.** It holds a default level and a list of per-module levels, kept strictly ascending by `strcmp` on module names. `level_for` looks a module up and can insert a new entry. Level setting, reset and the should-log check are built on it.

## How the model is laid out

- `wire.dfy` (module `Wire`): byte values, big-endian encoding and decoding, two's complement, the length-prefixed frame, and `strlen`.
- `io.dfy` (`Io`): the stream and the allocator.
  - The stream is a class with the bytes written so far and the bytes still unread. A write may fail and is then all or nothing. A reliable read of n bytes succeeds exactly when n bytes remain; a failed one leaves nothing to read.
  - The allocator is a class holding the multiset of live block sizes. An allocation may fail.
  - A `World` is a snapshot of all three.
- `elements.dfy` (`Elements`): the caller's element handler, as three pure functions, one per direction. It also defines what restoring, storing and skipping a run of elements yields, plus the loop bookkeeping lemmas.
- `trees.dfy` (`Trees`): the sorted unique-key collection (AVS_RBTREE).
  - The comparator is a rank function, and the tree a class holding its elements in ascending order.
  - `InsertSorted` and `Build` are the specification of insertion.
- `effects.dfy` (`Effects`): for each operation and each direction, a predicate that relates the world before and after a call. It is stated once here and promised by both the handler and the public accessor.
- `store.dfy`, `restore.dfy`, `ignore.dfy`: the three handler tables, as imperative methods with loops where the source loops.
- `persistence.dfy` (`Persistence`): the context class, the three constructors, delete, direction, and every public accessor.
- `properties.dfy` (`Properties`): how the directions fit together. This covers round trips from store to restore, ignore reading what restore reads, tree duplicates being rejected, and the cast of a size to 32 bits.
- `log.dfy` (`Log`): `strcmp`, the level table, and the class `LogState` with `level_for`, set level, reset, should-log and `level_as_string`.

## Model

| member | source | states |
|---|---|---|
| Wire.DecodeEncode | persistence/src/persistence.c:94-110 | decoding the big-endian bytes of a value below 256^n gives the value back |
| Wire.EncodeDecode | persistence/src/persistence.c:223-251 | any n bytes read are the encoding of the value they decode to |
| Wire.EncodeInjective | persistence/src/persistence.c:94-110 | distinct values of one width are written as distinct bytes |
| Wire.DeadBeef | persistence/src/persistence.c:100-104 | the u32 0xDEADBEEF is written as DE AD BE EF, most significant byte first |
| Wire.Unsigned | persistence/src/persistence.c:631-650 | a signed value's two's complement bits lie below 256^w, and are below half of that exactly for non-negative values |
| Wire.Signed | persistence/src/persistence.c:631-650 | the bits read as a signed value lie in the signed range, non-negative exactly when the bits are below half the range |
| Wire.SignedUnsigned | persistence/src/persistence.c:631-650 | the signed/unsigned reinterpretation is a bijection in both directions |
| Wire.FrameRoundTrip | persistence/src/persistence.c:126-138 | a length-prefixed payload followed by anything parses back as its length, then the payload, then the rest |
| Wire.Strlen | persistence/src/persistence.c:140-144 | the length of a C string is the index of its first NUL |
| Effects.Size32 | persistence/src/persistence.c:129 | the 32-bit length field is below 2^32 and equals the size when the size fits |
| Effects.CStringData | persistence/src/persistence.c:140-144 | a string is stored as strlen+1 bytes ending in its only NUL; a null pointer as no block |
| Elements.ParseCount | persistence/src/persistence.c:327-339 | restoring a run of elements stops short of the count exactly when a handler fails |
| Elements.ParseEncoded | persistence/src/persistence.c:156-164 | restoring the stored encodings of elements, with a handler that round-trips each, gives the same elements in order and uses exactly the encoded bytes |
| Elements.SkipMatchesParse | persistence/src/persistence.c:471-481 | with a handler whose skip agrees with its restore, skipping count elements succeeds exactly when restoring them does, over the same bytes |
| Elements.StoreElement | persistence/src/persistence.c:161-165 | the handler appends an element's encoding, or fails having appended only bytes of its own (possibly none) |
| Elements.RestoreElement | persistence/src/persistence.c:336-338 | the handler fills a fresh element from the front of the stream, or fails; a claim beyond the remaining bytes fails |
| Elements.SkipElement | persistence/src/persistence.c:476-478 | the handler called with no element skips the bytes it names, or fails |
| Trees.InsertSorted | persistence/src/persistence.c:370-372 | insertion fails exactly when an element comparing equal is present; otherwise the result is strictly ascending and holds the old elements plus the new one |
| Trees.Build | persistence/src/persistence.c:357-380 | inserting elements one after the other yields, when it succeeds, a strictly ascending permutation of them and of what was there (that distinct elements always succeed is Trees.BuildDistinct) |
| Trees.BuildSnoc | persistence/src/persistence.c:359-372 | one more restored element is inserted into the tree the earlier elements built |
| Trees.BuildAscending | persistence/src/persistence.c:170-192 | the elements of a tree, stored in ascending order and inserted back in that order, rebuild the same tree |
| Trees.BuildRejectsDuplicates | persistence/src/persistence.c:370-372 | two elements that compare equal make the rebuild fail |
| Trees.BuildDistinct | persistence/src/persistence.c:357-380 | elements of pairwise distinct rank, none equal to one already present, always build, in whatever order they arrive |
| Trees.Tree.Insert | persistence/src/persistence.c:370-372 | AVS_RBTREE_INSERT keeps the tree ascending, reports whether the element went in, and leaves the tree unchanged when it did not |
| Trees.Tree.Clear | persistence/src/persistence.c:381-385 | clearing leaves an empty tree |
| Store.PersistUnsigned | persistence/src/persistence.c:94-110 | u16, u32 and u64 are written as their w big-endian bytes, all or nothing, reading and allocating nothing |
| Store.PersistBool | persistence/src/persistence.c:83-86 | a bool is written as one byte, 1 for true and 0 for false |
| Store.PersistBytes | persistence/src/persistence.c:88-92 | the buffer's bytes are written as they are |
| Store.PersistSizedBuffer | persistence/src/persistence.c:126-138 | the size cast to 32 bits is written, then the whole buffer when that cast is not 0; a failure may follow the length |
| Store.PersistString | persistence/src/persistence.c:140-144 | a string is written as the sized buffer of strlen+1 bytes, a null string as length 0 |
| Store.StoreAll | persistence/src/persistence.c:157-165 | the handler runs on each element in order; on success the stream gained all encodings, on failure those of the first k elements for some k below the count, followed by whatever the failing call wrote |
| Store.PersistCollection | persistence/src/persistence.c:146-168 | a count of 2^32 or more fails with nothing written; otherwise the count, then the element encodings; a failure leaves the count and the encodings before the failing element written |
| Store.PersistList | persistence/src/persistence.c:146-168 | a list is stored as a collection in list order |
| Store.PersistTree | persistence/src/persistence.c:170-192 | a tree is stored as a collection in ascending order and left unchanged |
| Restore.RestoreUnsigned | persistence/src/persistence.c:223-251 | u16, u32 and u64 succeed exactly when w bytes remain, consume them and decode them big-endian; on failure the value is unchanged |
| Restore.RestoreBool | persistence/src/persistence.c:212-215 | one byte is read, and any non-zero byte is true |
| Restore.RestoreBytes | persistence/src/persistence.c:217-221 | exactly the buffer's size is read into it |
| Restore.RestoreSizedBuffer | persistence/src/persistence.c:275-299 | length 0 succeeds with a null pointer; otherwise a block of that length is allocated and filled; any failure leaves a null pointer and nothing allocated |
| Restore.RestoreString | persistence/src/persistence.c:301-315 | as a sized buffer, and a non-empty payload whose last byte is not NUL fails, freeing the block |
| Restore.ReleaseAll | persistence/src/persistence.c:340-346 | every element is handed to cleanup in order and its block freed |
| Restore.AppendElement | persistence/src/persistence.c:327-338 | one round of the list loop: a zeroed element is allocated and appended at the tail, then filled by the handler |
| Restore.RestoreElements | persistence/src/persistence.c:325-339 | the list loop yields the parsed elements in stream order with one block each; a failure leaves the elements built so far |
| Restore.RestoreList | persistence/src/persistence.c:317-348 | after the count, the list holds the elements in stream order; with a cleanup callback a failure cleans up every element built and empties the list; without one the partial list stays |
| Restore.FillAndInsert | persistence/src/persistence.c:367-379 | a filled element is inserted; on a handler failure or a duplicate exactly that element is handed to cleanup and its block freed, the tree left as it was |
| Restore.FillElement | persistence/src/persistence.c:369 | the handler fills the round's element from the front of the stream; on success the element is the next one restored and the stream advanced past it, on failure the elements seen are all the parse produced and this element is the failed one |
| Restore.InsertElement | persistence/src/persistence.c:359-379 | one round of the tree loop: a fresh block, filled and inserted; on failure the round's block is freed and its element, if one was allocated, is handed to cleanup |
| Restore.InsertElements | persistence/src/persistence.c:357-380 | the tree loop: on success the tree is built from all parsed elements; on failure from the elements before an allocation failure, a handler failure or a duplicate, with the element in hand, if any, handed to cleanup |
| Restore.RestoreTree | persistence/src/persistence.c:350-387 | after the count, the tree holds the parsed elements in ascending order; any failure leaves the tree empty, frees every block and hands cleanup exactly the elements built: those inserted plus the element in hand |
| Restore.ClearTree | persistence/src/persistence.c:381-385 | every element is handed to cleanup in tree order and its block freed; the tree is left empty |
| Ignore.IgnoreUnsigned | persistence/src/persistence.c:434-453 | the ignored u16, u32 and u64 consume the same w bytes restore does |
| Ignore.IgnoreBool | persistence/src/persistence.c:407-412 | the ignored bool consumes one byte |
| Ignore.IgnoreBytes | persistence/src/persistence.c:416-432 | exactly the given size is consumed, failing exactly when fewer bytes remain, and nothing is written or allocated |
| Ignore.IgnoreSizedBuffer | persistence/src/persistence.c:483-494 | the length, then that many bytes, are skipped without allocating |
| Ignore.IgnoreString | persistence/src/persistence.c:496-500 | a string is skipped as a sized buffer |
| Ignore.SkipAll | persistence/src/persistence.c:476-478 | the handler is called count times with no element, stopping at the first failure |
| Ignore.IgnoreCollection | persistence/src/persistence.c:471-481 | the count, then one element-less handler call per element |
| Ignore.IgnoreList | persistence/src/persistence.c:502-510 | a list is skipped as a collection; list, element size and cleanup are not used |
| Ignore.IgnoreTree | persistence/src/persistence.c:512-520 | a tree is skipped as a collection and left as it is |
| Persistence.InitialDirection | persistence/src/persistence.c:522-536 | every table has a known direction, Storing exactly for the store table, so the ignore table reports Restoring |
| Persistence.ContextNew | persistence/src/persistence.c:538-549 | a null stream gives no context; otherwise a context block is allocated, and on success it holds the table and the stream |
| Persistence.StoreContextNew | persistence/src/persistence.c:538-549 | a new context with the store table, bound to the stream |
| Persistence.RestoreContextNew | persistence/src/persistence.c:551-562 | a new context with the restore table, bound to the stream |
| Persistence.IgnoreContextNew | persistence/src/persistence.c:564-575 | a new context with the ignore table, bound to the stream |
| Persistence.ContextDelete | persistence/src/persistence.c:577-579 | the context's block is freed; a null context frees nothing |
| Persistence.DirectionOf | persistence/src/persistence.c:581-587 | Unknown exactly for a null context; Storing exactly for a store context |
| Persistence.Scalar | persistence/src/persistence.c:194-208 | the context's handle_u16/u32/u64 act as the table of its mode promises |
| Persistence.ContextU8 | persistence/src/persistence.c:589-596 | the bytes operation on one byte; a null context fails touching nothing |
| Persistence.ContextU16 | persistence/src/persistence.c:598-604 | the u16 operation of the context's mode; a null context fails touching nothing |
| Persistence.ContextU32 | persistence/src/persistence.c:606-612 | the u32 operation of the context's mode; a null context fails |
| Persistence.ContextU64 | persistence/src/persistence.c:614-620 | the u64 operation of the context's mode; a null context fails |
| Persistence.ContextI8 | persistence/src/persistence.c:622-629 | the bytes operation on the byte with the same bits |
| Persistence.ContextI16 | persistence/src/persistence.c:631-636 | the u16 operation on the same bits |
| Persistence.ContextI32 | persistence/src/persistence.c:638-643 | the u32 operation on the same bits |
| Persistence.ContextI64 | persistence/src/persistence.c:645-650 | the u64 operation on the same bits |
| Persistence.ContextBool | persistence/src/persistence.c:652-657 | the bool operation of the context's mode; a null context fails |
| Persistence.ContextBytes | persistence/src/persistence.c:659-666 | the bytes operation of the context's mode; a null context fails |
| Persistence.ContextFloat | persistence/src/persistence.c:668-674 | a float's 32-bit pattern is handled as a big-endian 4-byte field |
| Persistence.ContextDouble | persistence/src/persistence.c:676-682 | a double's 64-bit pattern is handled as a big-endian 8-byte field |
| Persistence.ContextSizedBuffer | persistence/src/persistence.c:684-691 | the sized-buffer operation of the context's mode; a null context fails |
| Persistence.ContextString | persistence/src/persistence.c:693-699 | the string operation of the context's mode; a null context fails |
| Persistence.ContextList | persistence/src/persistence.c:701-713 | the list operation of the context's mode; a null context fails |
| Persistence.ContextTree | persistence/src/persistence.c:715-727 | the tree operation of the context's mode; a null context fails |
| Properties.ScalarRoundTrip | persistence/src/persistence.c:223-251 | restoring what a u16/u32/u64 store wrote succeeds, gives the value back and consumes exactly its bytes |
| Properties.SignedRoundTrip | persistence/src/persistence.c:631-650 | a signed value stored and restored through the unsigned operation comes back unchanged |
| Properties.BoolRoundTrip | persistence/src/persistence.c:212-215 | a stored bool restores to the same bool |
| Properties.BytesRoundTrip | persistence/src/persistence.c:217-221 | stored bytes restore into a buffer of the same size unchanged |
| Properties.FrameRoundTripOf | persistence/src/persistence.c:275-299 | a stored block below 2^32 bytes restores as the same block, an empty or null one as a null pointer without allocating; a failed restore leaves null and nothing allocated |
| Properties.SizedBufferRoundTrip | persistence/src/persistence.c:275-299 | a sized buffer round-trips, and an empty one comes back as a null pointer |
| Properties.StringRoundTrip | persistence/src/persistence.c:301-315 | a string restores as its characters and NUL, and a null string as null |
| Properties.HugeBufferStoredEmpty | persistence/src/persistence.c:126-138 | a buffer of exactly 2^32 bytes is stored as the four zero bytes of an empty one |
| Properties.EmptyCollectionStored | persistence/src/persistence.c:146-168 | an empty collection is stored as four zero bytes |
| Properties.ListRoundTrip | persistence/src/persistence.c:317-348 | a stored list restores in the same order; a failure for want of memory leaves a proper prefix, or an empty list after cleaning up a proper prefix |
| Properties.TreeRoundTrip | persistence/src/persistence.c:350-387 | a stored tree restores as the same tree; a failure leaves it empty after cleaning up exactly the elements of a proper prefix of the stored tree |
| Properties.TreeRestoreRejects | persistence/src/persistence.c:367-379 | a handler failure, or two restored elements that compare equal, fail the tree restore |
| Properties.TreeRestoreDistinct | persistence/src/persistence.c:357-385 | when every handler call succeeds and no two restored elements compare equal, a failed tree restore can only have run out of memory, after inserting and cleaning up a proper prefix of the elements |
| Properties.IgnoreFrameMatchesRestore | persistence/src/persistence.c:483-500 | ignoring a buffer or string succeeds whenever restoring it does and stops at the same byte |
| Properties.IgnoreListMatchesRestore | persistence/src/persistence.c:502-510 | ignoring a list succeeds exactly when every element handler call of a restore would, and stops where a successful restore stops |
| Properties.IgnoreTreeMatchesRestore | persistence/src/persistence.c:512-520 | the same for a tree |
| Log.StrCmpEqual | log/src/log.c:127-133 | two module names compare equal exactly when they are the same name |
| Log.StrCmpFlip | log/src/log.c:127-131 | swapping the names flips the sign of strcmp |
| Log.StrCmpLess | log/src/log.c:127-131 | comparing less is transitive |
| Log.PositionSplits | log/src/log.c:125-132 | the walk passes exactly the entries comparing less than the module and stops at the first that does not |
| Log.LookupHas | log/src/log.c:125-134 | in an ascending table the walk finds a module's level exactly when the table holds that entry |
| Log.AssignAscending | log/src/log.c:135-146 | inserting a new entry where the walk stopped, or updating the entry found, keeps the names strictly ascending and unique |
| Log.AssignLookup | log/src/log.c:151-164 | setting a module's level changes the level held for that module and for no other |
| Log.AssignKeeps | log/src/log.c:135-146 | the entries of all other modules are kept, whether the module's entry was found or inserted |
| Log.SetLevelEffect | log/src/log.c:151-164 | after setting a module's level, that module logs from that level on and every other module keeps the level that applied to it |
| Log.SetDefaultEffect | log/src/log.c:122-149 | the default applies exactly to the modules without an entry of their own |
| Log.LevelAsString | log/src/log.c:198-213 | the name is "WTF" exactly for a level outside TRACE…ERROR |
| Log.LevelNamesDistinct | log/src/log.c:198-213 | the five named levels have distinct names |
| Log.LogState.constructor | log/src/log.c:46-56 | the initial state has default level INFO and no module entries |
| Log.LogState.Search | log/src/log.c:125-132 | the loop stops where the walk stops, and its comparison is 0 exactly when that entry is the module |
| Log.LogState.LevelFor | log/src/log.c:122-149 | a null module, or a missing module without create, gets the default's slot; a present module its own; with create a missing module gets a new entry holding the current default level, inserted in order, unless allocation fails |
| Log.LogState.SetLevelUnlocked | log/src/log.c:151-164 | -1, with nothing changed, exactly when a new entry cannot be allocated; otherwise the default (null module) or only that module's entry takes the level |
| Log.LogState.SetLevel | log/src/log.c:166-173 | -1 when the lock cannot be taken; otherwise the unlocked setter |
| Log.LogState.Reset | log/src/log.c:175-183 | the module entries are dropped and the default level is INFO again |
| Log.LogState.ShouldLog | log/src/log.c:185-196 | QUIET and above always log, as does everything when the lock fails; otherwise a level logs when it reaches the level that applies to the module |

## Left out

- The stream and the allocator are not part of this model. They are abstract classes: a write or an allocation may fail for reasons outside the model, and a reliable read fails exactly when too few bytes remain; a failed read leaves nothing to read. Stream and transport errors are a single failure.
- Error codes: every operation reports success or failure. The distinct codes (the stream's own, -1, and the invalid-string case) are not distinguished.
- The element handler and cleanup callbacks are caller code. The handler is modelled as three pure functions of what it is shown. The user pointer, and any state the callbacks keep, are not modelled. Cleanup is modelled as the sequence of elements handed to it.
- Elements.StoreElement: the bytes a store handler writes before it fails are left unconstrained, since they depend on the caller's code. `Store.StoreAll` and a failed collection store therefore promise only that the count and the earlier encodings come first.
- Restore.RestoreTree: the contract states which elements are cleaned up, as a multiset, and not in what order. The definition of `AVS_RBTREE_CLEAR` is not part of this model; `Restore.ClearTree` takes it to visit the elements in tree order.
- Element blocks carry no contents. Restore allocates one block of the element size per element, as `AVS_LIST_NEW_BUFFER` and `AVS_RBTREE_ELEM_NEW_BUFFER` do. Their list and tree headers are not counted.
- The tree's comparator is an integer rank. Two elements compare equal exactly when their ranks are equal. The red-black balancing is not modelled; the tree is the ascending sequence of its elements.
- Persistence.ContextFloat: a float or double is modelled by its IEEE 754 bit pattern. `avs_htonf`/`avs_ntohf` and `avs_htond`/`avs_ntohd` are not part of this model.
- Persistence.ContextNew: the size of the context block is taken as 104 bytes, a direction and twelve pointers on a 64-bit target.
- Restore.RestoreUnsigned: `restore_u16` also accepts a null output pointer. The model's accessors always pass a value, so that case does not arise.
- Log levels are taken as TRACE=0, DEBUG=1, INFO=2, WARNING=3, ERROR=4 and QUIET=5. The header that declares them is not part of this model.
- Log.LogState.SetLevelUnlocked: the error message logged when an entry cannot be allocated is not modelled.
- The log mutex, its one-time initialisation and the atexit hook are reduced to whether the lock is taken. The log handler callback, `avs_log_set_handler` and the handler reset in `avs_log_reset` are not modelled, and neither is the formatting of log lines.
- Module entries are not tracked by the allocator. The new entry of `level_for` may fail to allocate, which is a parameter. Freeing the entries on reset is not modelled.
