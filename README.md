# Heap linker of the XS linker (`xs/tools/xslSlot.c`)

The XS linker runs a JavaScript program at build time, then writes the resulting
slot heap out as a static C array (`gxHeap`) that the device firmware uses
directly. This project models the part of the linker that prepares that heap
and numbers its slots, and the part of the writer that must reproduce the same
numbering. It also models the host-table decoder and the lookups the writer
uses to turn run-time pointers into names.

The arena of slots is a Dafny `array<Slot>`. A slot pointer is a handle into it
(`Ref = Null | Ptr(at)`). A heap segment is a pair `Segment(heap, limit)`: its
header slot is `heap` and its slots are `heap+1 .. limit-1`, as in the C code.
Each pass of `fxPrepareHeap` works in place, so it is an imperative method on
the arena. Each method is proved equal to a fold over the visit order, and the
properties of the pass are proved about that fold:

- **Home de-duplication** (module `Homes`, method `MergeHomes`). A slot whose
  `next` is a lone HOME record equal to the single HOME record remembered last
  is redirected to that remembered record.
- **Marking the free list** (module `Reachability`, method `MarkFreeList`).
  The collector's free list is an input.
- **Projection** (modules `Prepare`, `Projection`, `ProjectionLoop`).
  - Every live slot takes the next index.
  - An array with element storage also takes a chunk-header index and one index
    per element, and its elements are sealed.
  - Certain instances are prepared by `fxPrepareInstance`.
  - BigInt words are counted.
  - Each segment gets a projection (its index table), and the projections are
    prepended to a list.
- **Alias ids** (modules `Aliases`, `AliasLoop`). The global object is
  unfrozen. Then a freeze pass gives every mutable instance the next alias id,
  and a closure pass makes function-backed captured variables read-only or
  gives the variable an alias id.
- **Writer** (modules `Writer`, `WriterLoop`, `WriterOrder`, `WriterWords`).
  `fxPrintHeap` and `fxPrintSlot` produce a sequence of abstract records (the
  index, the resolved `next`, the id, the flags and the payload), not C text.
  The proofs cover where each record lands and where each BigInt's words go.
- **The whole preparation** (module `PrepareHeap`). The passes run one after
  the other, and the numbering the projection loop builds still holds for the
  arena that the writer prints.
- **Host tables** (modules `Hosts`, `HostsLoop`, `Scripts`).
  `fxLinkerScriptCallback` decodes the packed host table of the first script
  whose path matches. It produces builder records, callback-name records and
  host placeholders, with consecutive fake callbacks.
- **Resolvers** (module `Resolve`): `fxGetBuilderName`, `fxGetCallbackName`,
  `fxGetCodeName`, the type-table lookups, `fxPrintAddress` and `fxPrintID`.
  A miss is an explicit "not found" constructor instead of the `"OOPS"` string.
- **Function lengths** (module `Functions`): `fxNewFunctionLength`.

## Model

| member | source | states |
|---|---|---|
| Resolve.BuilderName | xs/tools/xslSlot.c:64-97 | Registered builders are searched before script builders, each in order, and the first match wins. A miss gives `NoBuilder` exactly when no global and no script builder has the address. |
| Resolve.CallbackNameOf | xs/tools/xslSlot.c:99-129 | A null callback gives NULL. A callback the linker knows gives its name if its flag is set and the dead-strip name otherwise. Any other callback is the name of the first matching script record, or `NoCallback` exactly when no script holds it. |
| Resolve.CodeName | xs/tools/xslSlot.c:131-150 | `gxNoCode` resolves to itself. Any other pointer resolves to its offset in the first script whose half-open code range `[codeBuffer, codeBuffer+codeSize)` holds it. `NoCodeFound` means no script holds it. |
| Resolve.TableIndex | xs/tools/xslSlot.c:153-176 | The dispatch and atomics lookups return the first position holding the entry, and "not found" exactly when the table lacks it. |
| Resolve.AddressMeaning | xs/tools/xslSlot.c:491-507 | NULL prints NULL. A pointer prints `indexes[slot - heap]` of the first projection in list order whose segment strictly contains it (`heap < slot < limit`), and "OOPS" exactly when none does. |
| Resolve.AddressIsFirst | xs/tools/xslSlot.c:496-498 | A slot held by exactly one projection resolves to that projection's entry for it. |
| Resolve.AddressOfSlot | xs/tools/xslSlot.c:491-507 | A pointer to a live slot of segment k prints the index the projection loop gave that slot. |
| Resolve.AddressOfHeader | xs/tools/xslSlot.c:497-503 | The strict lower bound makes a pointer to a segment header fall through to "OOPS". |
| Resolve.HoldsOnlyOwn | xs/tools/xslSlot.c:360-368 | The projection of segment k holds exactly the slots strictly inside that segment. |
| Resolve.ProjectionListOk | xs/tools/xslSlot.c:362-368 | Every projection built covers a non-empty range and has one entry per position. |
| Resolve.PrintID | xs/tools/xslSlot.c:574-592 | XS_NO_ID, negative key ids and non-negative ids are told apart exactly, and every id except XS_NO_ID keeps its value. |
| Hosts.Decode2Encode2 | xs/tools/xslSlot.c:193 | The 2-byte decoder inverts the 2-byte encoder, for either byte order. |
| Hosts.Encode2Decode2 | xs/tools/xslSlot.c:193 | The 2-byte encoder inverts the decoder on every pair of bytes. |
| Hosts.Signed | xs/tools/xslSlot.c:202 | The `txS1` length byte is negative exactly when its top bit is set, and agrees with the byte modulo 256. |
| Hosts.NulFromFirst | xs/tools/xslSlot.c:220 | The name scan finds the first NUL at or after the cursor, and finds none exactly when none follows. |
| Hosts.DecodeHosts | xs/tools/xslSlot.c:193-221 | A decoded table has as many entries as its count announces, none for a count that is not positive. Exactly a buffer too short to hold the count fails with `ShortCount`. |
| Hosts.DecodeEncodeHosts | xs/tools/xslSlot.c:193-221 | Decoding inverts encoding, whatever bytes follow the table. |
| Hosts.NoEntries | xs/tools/xslSlot.c:193-197 | A count that is not positive yields no entries, whatever follows it. |
| Hosts.RegisterAt | xs/tools/xslSlot.c:197-219 | Entry i gets fake callback `fake + i` in both its builder and its callback-name record, with its length, id and name. A negative length gives a host object, and any other length a host function on builder i. |
| Hosts.HostTable | xs/tools/xslSlot.c:193-197 | The table fails exactly when decoding fails. The recorded count is the 2-byte value at the head of the buffer. |
| Hosts.HostTableRecords | xs/tools/xslSlot.c:194-219 | A decoded table has one builder, one callback name and one placeholder per entry. Entry i's fake callback is `fake + i`, so the callbacks are distinct and consecutive. A negative length gives a host object on that callback, and any other length a host function on builder i. |
| Hosts.HostTableEncoded | xs/tools/xslSlot.c:193-221 | The records of an encoded table carry each entry's length, id and name, in order. |
| HostsLoop.ScanName | xs/tools/xslSlot.c:220 | The `strlen` loop stops at the first NUL. |
| HostsLoop.ReadEntry | xs/tools/xslSlot.c:202-220 | Reading an entry at the cursor agrees with the entry decoder. |
| HostsLoop.LoadHosts | xs/tools/xslSlot.c:190-221 | The cursor loop produces exactly the table the decoder specifies. |
| Scripts.Matching | xs/tools/xslSlot.c:188-189 | Returns the first script whose path matches, or none exactly when no path matches. |
| Scripts.ScriptCallback | xs/tools/xslSlot.c:178-230 | Only the first matching script is decoded. It keeps the builders, the callback names and the count. The result holds the placeholders, and the fake counter moves past one callback per entry. With no match or no buffer the result is empty and nothing changes. |
| Scripts.DecodedCallbackNamed | xs/tools/xslSlot.c:99-129 | Once a script holds a decoded table, entry i's fake callback resolves to that entry's name. |
| Functions.WithLength | xs/tools/xslSlot.c:236-242 | The new slot becomes the `length` property after `property`, with DONT_ENUM, DONT_SET and the integer length. No other slot changes. |
| Functions.NewFunctionLength | xs/tools/xslSlot.c:232-243 | When stripping, nothing changes and `property` is returned. Otherwise the length slot is linked in and returned. |
| Functions.LengthAppended | xs/tools/xslSlot.c:236-242 | Appending the length after the last property extends the property list by exactly that slot. |
| Slots.Seal | xs/tools/xslSlot.c:318-320 | A sealed property is DONT_DELETE, and DONT_SET unless it is an accessor. Only those flags are added. |
| Homes.HomeStep | xs/tools/xslSlot.c:341-347 | `next` is redirected exactly when it is a lone HOME record equal to the remembered one, and the remembered one stays. A lone HOME record that differs becomes the remembered one and nothing is redirected. Any other `next` changes nothing. |
| Homes.HomeFoldRemembers | xs/tools/xslSlot.c:336-351 | For any arena and any distinct visit order: the remembered record is the last lone HOME record met that differed from the one before it. A visited slot is redirected to the record remembered before it exactly when its `next` is a lone HOME record equal to that one, and is otherwise unchanged. Unvisited slots are unchanged. |
| Homes.HomeFoldRedirects | xs/tools/xslSlot.c:336-351 | Every change the pass makes is a redirection of `next` to an equal lone HOME record. |
| Homes.RedirectedChainEnds | xs/tools/xslSlot.c:341-347 | A `next` chain that ended before the pass still ends after it. |
| Homes.HomeFoldWf | xs/tools/xslSlot.c:336-351 | The pass keeps the heap well formed. |
| Homes.MergeHomes | xs/tools/xslSlot.c:336-351 | The nested segment and slot loops compute the fold of the step over the visit order. |
| Homes.OnlyAdjacentDuplicatesMerge | xs/tools/xslSlot.c:341-347 | Two adjacent equal HOME records are merged. A third equal record separated from them by a different one is not. |
| Reachability.MarkFreeList | xs/tools/xslSlot.c:354-358 | Walking the free list marks exactly the slots on it. |
| Reachability.MarkAllWf | xs/tools/xslSlot.c:354-358 | Marking keeps the heap well formed, and every free slot ends marked. |
| Prepare.PrepareInstance | xs/tools/xslSlot.c:312-325 | Nothing changes unless stripping. When stripping, each property becomes exactly its sealed form, and the instance gains exactly DONT_PATCH. Every other slot is unchanged, and kinds, ids and links never change. |
| Slots.WalkAcyclic | xs/tools/xslSlot.c:316-322 | In a well-formed heap an instance is never among its own properties, so the property walk ends and never reaches the instance itself. |
| Prepare.GrowsKeepsSealed | xs/tools/xslSlot.c:386-413 | A prepared instance stays prepared when later steps only add flags. |
| Prepare.PrepareInstanceM | xs/tools/xslSlot.c:312-325 | The property walk computes exactly that arena. |
| Prepare.InstanceShape | xs/tools/xslSlot.c:386-412 | An instance is treated as a function exactly when its first property is a callback or code record. An instance with no property is plain. It is prepared exactly when its first property is no function and is an array (except on Array.prototype), a module or export record, or the internal environment behaviour. A plain instance's first property is no module or export record, and is an array only for Array.prototype. |
| Prepare.FirstPrototype | xs/tools/xslSlot.c:396-403 | The search finds the first `prototype` reference among the remaining properties, or none exactly when there is none. |
| Prepare.FindPrototype | xs/tools/xslSlot.c:396-403 | The loop returns that search's target. |
| Prepare.ConstructorPrototypeGrows | xs/tools/xslSlot.c:396-403 | Adding flags to the heap does not change which object a constructor's `prototype` property names. |
| Prepare.PrepareFunction | xs/tools/xslSlot.c:392-404 | Without stripping nothing changes. When stripping, the function instance is DONT_PATCH and every property is sealed. For a constructor, the object named by its first `prototype` reference is prepared the same way. Without such a reference, or for a non-constructor, only the instance itself is prepared. Only flags are added. |
| Prepare.PrepareShape | xs/tools/xslSlot.c:386-413 | Without stripping, and for a plain instance, nothing changes. When stripping, every instance that is not plain ends DONT_PATCH with every property non-deletable and, unless an accessor, read-only. For a prepared instance, no slot other than the instance and its properties changes. Only flags are added. |
| Projection.Width | xs/tools/xslSlot.c:369-385 | A slot takes no index exactly when it is marked. It takes more than one only as an array with storage of n elements, which takes n+2. |
| Projection.SealArraySeals | xs/tools/xslSlot.c:373-384 | The array and every element are DONT_DELETE, every non-accessor element is DONT_SET, the array is DONT_SET, and only flags are added. |
| Projection.ProjectStep | xs/tools/xslSlot.c:369-416 | One slot only adds flags, and moves the index and BigInt total past what the slot takes. |
| Projection.ProjectFoldCounts | xs/tools/xslSlot.c:360-421 | The loop only adds flags, and takes the indexes and BigInt words of the slots it visits. |
| Projection.ProjectFoldSealsArray | xs/tools/xslSlot.c:373-384 | Every live array the loop visits ends sealed, with its elements. |
| Projection.SegmentIndexes | xs/tools/xslSlot.c:364-372 | The header and every free slot record 0. Every live slot records the running index. |
| Projection.SegmentIndexesBetween | xs/tools/xslSlot.c:369-385 | Between two live slots the index advances by exactly what the slots in between take: no gaps, strictly increasing. |
| Projection.SegmentIndexesFirstLive | xs/tools/xslSlot.c:331-372 | The first live slot takes the starting index 1 plus what the earlier segments took. |
| Projection.SegmentIndexesPosition | xs/tools/xslSlot.c:360-421 | The index of a live slot is 1 plus what every slot visited before it takes, in heap-then-position order. |
| Projection.ProjectionList | xs/tools/xslSlot.c:364-368 | Projections are prepended, so segment k sits at position `n-1-k` and the last segment comes first. |
| ProjectionLoop.SealElements | xs/tools/xslSlot.c:375-383 | The element loop seals each element and takes one index per element. |
| ProjectionLoop.ProjectLive | xs/tools/xslSlot.c:369-416 | The body for a live slot computes the step of the fold. |
| ProjectionLoop.FillSegment | xs/tools/xslSlot.c:369-420 | The slot loop fills the cleared table with exactly the segment's index table. |
| ProjectionLoop.Project | xs/tools/xslSlot.c:360-422 | The loop and the final increment return `2 + Span` of the visit order. The BigInt total grows by the visited BigInt words, and the projection list is the one specified. |
| Projection.GrowsSameMarks | xs/tools/xslSlot.c:370-420 | The projection loop changes no link, no kind and no MARK flag. |
| Projection.MarksSpan | xs/tools/xslSlot.c:370-420 | Two arenas that agree on links, kinds and MARK flags give every visit order the same index span. |
| Projection.MarksProjectionList | xs/tools/xslSlot.c:360-422 | Two arenas that agree on links, kinds and MARK flags give the same projection list, so the list depends only on those. |
| Aliases.Unfreeze | xs/tools/xslSlot.c:424-426 | The global object loses DONT_PATCH and nothing else. |
| Aliases.FreezeStep | xs/tools/xslSlot.c:430-451 | A live instance that is not frozen takes the next alias id. Only ids change. |
| Aliases.FreezeFoldIds | xs/tools/xslSlot.c:428-456 | The j-th mutable instance visited takes id `count + j`. |
| Aliases.FreezeFoldFrozen | xs/tools/xslSlot.c:446-449 | Every frozen live instance visited ends with XS_NO_ID. |
| Aliases.FreezeFoldGiven | xs/tools/xslSlot.c:428-456 | The counter grows by the number of mutable instances visited, and they are listed in visit order. |
| Aliases.ClosureStep | xs/tools/xslSlot.c:464-478 | Only live closures change anything, and the arena keeps its shape. A live closure changes at most itself and its variable. A variable that is DONT_SET or references a function gains exactly DONT_SET and DONT_DELETE and takes no id. Any other variable takes the next alias id when it has none, and the closure slot loses DONT_SET. |
| Aliases.ClosureStepCovers | xs/tools/xslSlot.c:464-478 | After a closure's step its captured variable cannot be deleted or has an alias id. A function-backed variable becomes DONT_SET and DONT_DELETE and keeps its id. |
| Aliases.ClosureFoldHanded | xs/tools/xslSlot.c:458-484 | The closure pass gives ids only to slots that had none, consecutively from the counter, and changes no other id. |
| Aliases.ClosureFoldKeeps | xs/tools/xslSlot.c:458-484 | The closure pass keeps every alias id, every DONT_DELETE and every mark. |
| Aliases.ClosureFoldCovers | xs/tools/xslSlot.c:458-484 | After the pass, every live closure's captured variable cannot be deleted or has an alias id. |
| Aliases.ClosureFoldSettles | xs/tools/xslSlot.c:458-484 | After the pass, for every visited live closure whose variable is not itself a closure, that variable is DONT_SET and DONT_DELETE, or it has an alias id and the closure slot is not DONT_SET. |
| Aliases.AliasingIds | xs/tools/xslSlot.c:424-486 | `aliasCount` is the number of ids handed out, and `given[j]` has id j, so no two slots share one. The mutable instances come first, in heap order. A live global instance always gets an alias id. |
| Aliases.AliasingMarks | xs/tools/xslSlot.c:424-486 | The unfreeze, freeze and closure passes change no link, no kind and no MARK flag. |
| Aliases.JoinIds | xs/tools/xslSlot.c:451-474 | The two passes share one counter, so their ids together are distinct and consecutive. |
| AliasLoop.IsFrozen | xs/tools/xslSlot.c:433-445 | The property walk decides exactly `Frozen`. |
| AliasLoop.FreezeHeaps | xs/tools/xslSlot.c:428-456 | The freeze loop computes the freeze fold over the visit order. |
| AliasLoop.ClosureHeaps | xs/tools/xslSlot.c:458-484 | The closure loop computes the closure fold over the visit order. |
| AliasLoop.Alias | xs/tools/xslSlot.c:424-486 | Unfreezing and both loops leave the arena and `aliasCount` as `Aliasing` specifies. |
| Writer.PrintSlot | xs/tools/xslSlot.c:612-695 | Each slot adds one record at the current index, from that slot, after the earlier records. |
| Writer.PrintSlotRecord | xs/tools/xslSlot.c:612-695 | The record's `next` is raw exactly for a debug slot, and otherwise it is the resolved address. The id is printed by `fxPrintID`. The flags gain MARK, lose DEBUG, and gain DONT_MARSHALL for an instance, with the rest kept. References, closures and instances point at their resolved targets. A BigInt takes the running total as its offset, and its words are appended there. |
| Writer.PrintArray | xs/tools/xslSlot.c:541-559 | An array at index i is printed with its resolved `next`, its printed id and its flags plus MARK, and with storage at `gxHeap[i+2]`. A chunk header at i+1 holds the element count. It takes n+2 records. |
| Writer.PrintElementsOrder | xs/tools/xslSlot.c:552-559 | The element loop prints element j of the storage as the j-th appended record. Its index is the running index plus j, its link is the raw `next` because the element is flagged DEBUG first, and its id is the element's printed id. |
| Writer.PrintArrayElements | xs/tools/xslSlot.c:541-559 | For an array with storage at index i, record i+2+j is printed from element j of the storage, with a raw link and the element's id. |
| Writer.PrintRun | xs/tools/xslSlot.c:537-566 | The slot loop advances the index by exactly what the projection gave those slots. |
| Writer.PrintHeapIn | xs/tools/xslSlot.c:529-571 | The generated heap starts with the header pointing at `gxHeap[count]`, ends with the closing record, and every index is its position. |
| WriterLoop.PrintElementsLoop | xs/tools/xslSlot.c:552-559 | The element loop appends exactly the element records specified. |
| WriterLoop.PrintSegmentLoop | xs/tools/xslSlot.c:535-566 | The slot loop of a segment appends exactly the records of `PrintRun`. |
| WriterLoop.PrintHeap | xs/tools/xslSlot.c:524-572 | The writer's loops produce exactly the heap `PrintHeapIn` specifies for the order walked. |
| WriterOrder.HeapNumbered | xs/tools/xslSlot.c:360-422 | Walked in numbering order, each segment is numbered from one past what the earlier segments took. |
| WriterOrder.SegmentsAgree | xs/tools/xslSlot.c:534-568 | When every segment is printed from the index its projection starts at, every slot record sits where pointers to it lead. |
| WriterOrder.PrintedHeapAgrees | xs/tools/xslSlot.c:524-572 | Walked in numbering order, the heap holds exactly `count` records, and every slot record sits at the index `fxPrintAddress` prints for that slot. |
| WriterOrder.LastSegmentFirst | xs/tools/xslSlot.c:527-534 | As written, the first record after the header is printed from the first slot of the segment numbered last. That slot's pointer prints an index past all earlier segments. |
| WriterOrder.PrintOrderMismatch | xs/tools/xslSlot.c:527-534 | With two segments, record 1 of the heap as written comes from slot 3, but pointers to slot 3 print an index other than 1. |
| WriterOrder.SingleSegmentSame | xs/tools/xslSlot.c:527-534 | With a single segment, the order as written and the corrected order print the same heap. |
| WriterWords.SlotPlaced | xs/tools/xslSlot.c:667-677 | A BigInt record's offset is the running total. Its words are copied there, and the total moves past them. |
| WriterWords.HeapPlaced | xs/tools/xslSlot.c:524-572 | In any segment order, the BigInt total ends at the start plus the words copied. Every BigInt record points at its own words. |
| WriterWords.PrintedHeapPlaced | xs/tools/xslSlot.c:667-677 | Both the heap as written and the corrected heap place every BigInt's words. |
| PrepareHeap.PrepareHeapM | xs/tools/xslSlot.c:327-488 | `fxPrepareHeap` runs the home pass, the free-list marking, the projection loop and the alias passes on one arena, in that order. Its arena, count, projection list, BigInt total and `aliasCount` are those of the passes composed. |
| PrepareHeap.PreparedProjections | xs/tools/xslSlot.c:360-486 | The projection list built by the projection loop is the list of the arena left after the alias passes. The count returned is 2 plus the span of that arena's live slots. |
| PrepareHeap.PreparedHeapPrints | xs/tools/xslSlot.c:327-572 | Printed in numbering order (the corrected walk of the finding below) with the count and projection list `fxPrepareHeap` returns, the heap of the arena it leaves has every slot record where `fxPrintAddress` sends pointers to that slot. |

## Left out

- Text output:
  - the C initializer text that `fprintf` and `fxWriteCString` produce is not modelled;
  - the writer produces abstract records instead;
  - `fxPrintNumber` (floating-point classification) is not modelled;
  - the flag bit values come from a header that is not part of this model, so flags are a set.
- `xsCollectGarbage` and how the free list is built: the free list is the arena's `next` chain from a given handle.
- Allocation:
  - `fxNewSlot`, `fxNewLinkerChunk` and `fxNewLinkerChunkClear` become a new handle or a fresh sequence given by the caller;
  - the size of `gxBigIntData` is not modelled, and the words copied form a growing sequence.
- Interpreter machinery:
  - `fxNewArrayInstance`, `fxArrayCache*`, `mxPush`, `mxPullSlot` and `fxNewHostObject` in the decoder are not modelled;
  - the decoder's result is the sequence of host placeholders.
- Other functions not in this model: `fxNextHostFunctionProperty`, `fxNewFunctionName`, `fxBuildHost*`, `fxPrintBuilders`, `fxPrintStack` and `fxPrintTable`.
- `mxDecode2` is defined in a header that is not part of this model. Its byte order is a parameter (`ByteOrder`).
- `fxGetKeyName` and `fxIsCIdentifier`: `PrintID` keeps only the three branches of `fxPrintID`.
- `fxGetIndexSize` is taken to be the array's element count.
- The debug flag that `fxPrintHeap` sets on each array element and `fxPrintSlot` clears again: `Writer.Debugged` models only its effect, a raw `next`.
- Kinds whose payload no pass inspects are grouped under `Other` and copied into the record as they are.
- The global object's handle and Array.prototype are inputs. The realm lookups that find them are not modelled.
- Hosts.DecodeHosts: the C loop never checks the buffer length and reads past the end of a malformed table. The model instead returns a decode error, and `ScriptCallback` then changes nothing. This behaviour is added by the model, not guaranteed by the code.
- Writer.PrintSlot: only reference, closure and instance payloads have their pointers resolved, and BigInt words placed. Every other kind is kept as `Copied(kind)`, with its raw arena handles. So the model does not resolve, through `fxPrintAddress`, the pointers that `fxPrintSlot` prints for copied kinds: code and code-x closures (lines 708-720), the module realm (742-750), the proxy handler and target (751-759), the accessor getter and setter (778-789), the entry slot (790-799), the home object and module (800-807), the export closure and module (808-815) and the list ends (823-830). It also does not turn callback, host-destructor and code addresses into names through `fxGetCallbackName` and `fxGetCodeName` (lines 704-741). Those resolvers are modelled on their own in `Resolve`, but no contract ties them to a copied payload.
- Prepare.PrepareFunction: the contract states that the instance and its `prototype` object end prepared. Exact slot contents are stated only for `PrepareInstance`.
- Homes.OnlyAdjacentDuplicatesMerge: it is one concrete arena. The general statement for every arena is `HomeFoldRemembers`.
- Aliases.AliasingIds: `aliasCount` is a `txID`, a fixed-width signed type defined in headers not part of this model. The model's counter is an unbounded `nat`, so distinct ids are proved only while the C counter does not wrap.
- The stripping switch: `fxPrepareInstance` reads `linker->stripping` (line 315), and `fxPrepareHeap` tests its own `stripping` parameter (line 394). The model uses one flag, `Context.stripping`, for both.
- Resolve.CallbackNameOf: a negative decoded count is stored as `hostsCount`, so the `while (count)` loop of `fxGetCallbackName` would run past `callbackNames`. The model holds no records for such a script and gives `NoCallback`.

## Findings

| source | as written | input that shows it | evidently intended | confidence | as-written member | corrected member |
|---|---|---|---|---|---|---|
| xs/tools/xslSlot.c:527-534 | `fxPrepareHeap` (lines 365-368) prepends each segment's projection to the list and numbers segments in `firstHeap` order. `fxPrintHeap` walks the list from its head, so it prints the segment numbered last first. | Two segments, `[0, 2)` and `[2, 4)`, with slots 1 and 3 live: record 1 is printed from slot 3, but pointers to slot 3 print `gxHeap[1 + width of slot 1]` | The writer walks the segments in the order the projection loop numbered them, so each record sits where pointers to it lead | not executed | WriterOrder.PrintOrderMismatch | WriterOrder.PrintedHeapAgrees |
