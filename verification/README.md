# JyNI native core: a verified model

JyNI lets native CPython extensions run on Jython. Its C library mirrors Python objects between a native heap with
reference counts and the Java heap, keeps the two sides in step through handles, weak references and header flags, and
guards native code with one lock. This project models the parts of that library whose correctness is not visible in
any single function and proves what they are for. Where the code does not do what it is for, the model follows the
code, a concrete input shows the failure, and the exact condition under which the code does meet its purpose is proved.

`dafny verify dfyconfig.toml` checks everything.

| files | what they model |
|---|---|
| `PtrHash`, `PtrResize`, `PtrRuns`, `PtrWitness`, `PtrTable` | the open-addressing pointer table of `JyHash.c` |
| `JavaGraph`, `Conversion*`, `NativeHeap` | conversion of cyclic Java object graphs to native ones |
| `NativeToJava` | conversion in the other direction: termination, each object once |
| `Mirror`, `MirrorRuns`, `MirrorReach`, `MirrorWitness`, `MirrorHeap` | headers, handles and weak references under garbage collection and native reference counting |
| `EntryLock`, `EntryProgress` | the lock protocol of the ENTER/LEAVE and RE_ENTER/RE_LEAVE macros, any number of threads |
| `Attributes`, `AttributeRuns`, `AttributeList` | the attribute list and what it owns |
| `PyLongs`, `PyLongToBytes`, `PyLongAsBytes`, `PyLongFromBytes`, `PyLongTransport` | Python longs as two's-complement byte strings |
| `SlotBitmap` | the method-slot bitmap of a type |
| `Delegation` | which objects and types are delegated to Jython |
| `GcRing`, `GcRuns`, `GcPerform` | the ring of tracked objects |
| `Basics`, `Arithmetic` | facts about sequences, powers and division that several of these share |

Code that changes state in place is modelled twice: as functions on values, about which the theorems are proved, and as
classes or array methods with the loops of the source (`PtrTable`, `NativeHeap`, `MirrorHeap`, `AttributeList`,
`PyLongTransport`, `GcRing`), each method proved to do what its function says.

## What the proofs found

Places where the code departs from its purpose; each has its exact condition in the table below.

- Pointer table. `insert0` returns an `int`, so the sentinel `~tableCapacity` is recognised as "abort" only while the
  capacity is below 2^31. The restart after an abort sets the index to the last slot but the loop then decrements it,
  so the former last slot is skipped and its address forgotten; `tableSize` keeps counting what abandoned attempts
  inserted. An insertion can be refused although the table was just enlarged, exactly if all probes are taken again;
  the answer is then a negative number, not 0 or 1.
- Constants. Constructors share one object for the empty tuple, for each small int and each one-letter string; Jython
  does so, too. Two Java constants of one value then have one native object, which leads to the last of them: a round
  trip turns one into the other, and of ints and strings only the first has a handle. If the first was one of Jython's
  preallocated objects, a later conversion may return a dead reference.
- Shared objects that are freed. Clean-up clears the handle of the one Java object in the header. If native code shares
  one mortal object between two Java ones -- `PyWeakref_NewRef` gives two Java weak references to one referent the same
  native one -- the handle of the first is left behind when the native object is freed, and the next conversion of that
  Java object reads the header of freed memory and hands it out. No finalizer is involved.
- Conversion to native. Constructors such as `PyMethod_New` take references of their own to arguments that are new
  references already: one reference leaks for each slot. An object that registers only after its items (a bound
  method, an instance) is made twice when the conversion comes to it before any other object of a cycle through it is
  registered, even when the cycle passes through a list; coming from the list, it is made once.
- Conversion to Java. Not only tuples but also cells, methods, classes and instances convert what they refer to before
  they are registered themselves, so a cycle of those alone does not terminate, whether it has tuples or not.
- Headers. A header cleaned up after its Java counterpart was collected keeps no flag: a truncated object is not
  delegated any more once its counterpart is replaced. `JyNI_clearPyCPeer` deletes the weak reference of an object
  that may live on and still be flagged as initialised; if it gives up the object's last reference, it reads the
  header after the object is freed.
- Lock. A plain ENTER_JyNI, or the bare lock, waits for ever in a thread that is in an unreleased call-out. An inner
  entry after a released call-out can start with a pending error.
- Attributes. Clearing one name never removes the first attribute; it releases the value of the attribute in front of
  each removed one, which stays bound, and never the removed attribute's own value.
- Longs. `_PyLong_AsByteArray` stores -1 in zero bytes with success; no caller here passes zero.

## Model

| member | source | states |
|---|---|---|
| PtrHash.SearchPosMeaning | JyNI-C/src/JyHash.c:139-157 | in a well-placed table the search answers the pointer's own slot exactly if it is stored; otherwise a free slot on its own probe path, or the exhausted sentinel, never confused |
| PtrHash.SearchInsertPosMeaning | JyNI-C/src/JyHash.c:185-212 | the insertion search agrees with the plain one on stored pointers, else names a free or tombstone slot of the pointer's path; the sentinel exactly if all 41 probes hold other pointers |
| PtrHash.InsertsAtFirstGap | JyNI-C/src/JyHash.c:185-212 | an address that is not stored goes to the first slot of its path that holds no address, tombstone or free |
| PtrHash.FirstDummyMeaning | JyNI-C/src/JyHash.c:192-205 | the slot remembered while probing is the first tombstone passed, or -1 if none was |
| PtrHash.PlaceKeepsPlaced | JyNI-C/src/JyHash.c:281-282 | storing a pointer on its own path adds exactly it and keeps every other pointer findable |
| PtrHash.RemoveKeepsPlaced | JyNI-C/src/JyHash.c:302-305 | overwriting with a tombstone removes exactly that pointer and keeps every other one findable |
| PtrHash.ShiftedIsProduct | JyNI-C/src/JyHash.c:115-119 | the k-th probe is the pointer times 2^k modulo the word size, modulo the capacity |
| PtrResize.AbortMeaning | JyNI-C/src/JyHash.c:224-227 | an exhausted search is seen as an abort exactly while the capacity fits the int that is returned |
| PtrResize.Grow | JyNI-C/src/JyHash.c:253-257 | after an abort the capacity is the largest odd number not above 1.10 times the former one |
| PtrResize.Insert0Effect | JyNI-C/src/JyHash.c:220-232 | re-insertion adds exactly the pointer, or finds all its probes taken and changes nothing |
| PtrResize.RoundProgress | JyNI-C/src/JyHash.c:248-261 | every abort raises the capacity, which bounds the retries |
| PtrResize.NoAbortAboveAddresses | JyNI-C/src/JyHash.c:244-262 | once the capacity exceeds every stored pointer the first probe is injective and no attempt is aborted |
| PtrResize.AbortNeedsHighAddress | JyNI-C/src/JyHash.c:244-262 | an aborted resize implies a stored pointer not below the requested capacity |
| PtrResize.CapacityBound | JyNI-C/src/JyHash.c:244-262 | the retries end at the requested capacity or at 1.10 times a bound on the pointers |
| PtrResize.LoopOutcome | JyNI-C/src/JyHash.c:244-262 | what the loop leaves stored, from any of its states, with and without aborts and beyond 2^31 |
| PtrResize.LoopDrift | JyNI-C/src/JyHash.c:242-262 | tableSize is exact without an abort and, as written, too high by exactly what the abandoned attempts stored |
| PtrResize.ResizeEffect | JyNI-C/src/JyHash.c:234-264 | without an abort exactly the live set, no tombstone, exact size; with one, as written, the live set without the former last slot, tableSize too high by what the abandoned attempts stored; with the restart repaired, the live set and an exact size always |
| PtrRuns.ReusesDummy | JyNI-C/src/JyHash.c:202-206 | the tombstone counter goes down exactly if the slot handed out is a tombstone |
| PtrRuns.CollisionsCounted | JyNI-C/src/JyHash.c:162-212 | both insertion searches add the number of probes that found something else, at most 40 |
| PtrRuns.ReturnCode | JyNI-C/src/JyHash.c:220-232 | the truncated sentinel of an odd capacity is never 1, is 0 for one capacity in 2^32, and is negative below 2^31 |
| PtrRuns.InsertEffect | JyNI-C/src/JyHash.c:266-285 | 1 exactly if the pointer is absent and not refused, and it is stored afterwards exactly if it was or the answer is 1; 0 means it was stored; the other pointers stay but for the one an aborted rebuild loses; the invariant is kept |
| PtrRuns.InsertRefusedIff | JyNI-C/src/JyHash.c:271-280 | an absent pointer is refused exactly if all its 41 probes are taken in the table and again in the rebuilt one |
| PtrRuns.InsertKeepsOthersIff | JyNI-C/src/JyHash.c:266-285 | an insertion keeps all other pointers exactly if it does not come to an aborted rebuild of a table whose last slot is in use |
| PtrRuns.DeleteEffect | JyNI-C/src/JyHash.c:299-308 | deletion removes exactly the pointer, answers whether it was there, keeps the counters exact |
| PtrRuns.CleanEffect | JyNI-C/src/JyHash.c:287-290 | cleaning leaves no tombstone, stores nothing new, and keeps set and capacity exactly unless it is aborted |
| PtrRuns.AnyRunKeepsInvariant | JyNI-C/src/JyHash.c:139-308 | over every run, aborts or not, each live pointer sits in one slot on its path behind no free slot, the tombstone counter is exact, tableSize never too low |
| PtrRuns.RunRefinesSet | JyNI-C/src/JyHash.c:266-308 | over every run without an aborted rebuild the table is a finite set, answer by answer, and tableSize its size |
| PtrRuns.InitIsEmptySet | JyNI-C/src/JyHash.c:123-127 | the initial table is the empty set and satisfies the invariant |
| PtrWitness.FourInserted | JyNI-C/src/JyHash.c:266-285 | four insertions into the initial table reach the table of the next witness |
| PtrWitness.FourReached | JyNI-C/src/JyHash.c:266-285 | a run of four insertions from the initial table, with no aborted rebuild, leads to that table |
| PtrWitness.InsertForgetsAddress | JyNI-C/src/JyHash.c:253-259 | a reachable table in which inserting 32608 makes it forget 3056 |
| PtrWitness.InsertRefusedAfterResize | JyNI-C/src/JyHash.c:271-280 | a reachable table that is enlarged for 2075703 and still refuses it, by the condition above, answering -2038 |
| PtrTables.PtrTable.constructor | JyNI-C/src/JyHash.c:123-127 | a valid table standing for the empty set |
| PtrTables.PtrTable.GetPos | JyNI-C/src/JyHash.c:139-157 | the probing loop computes the search the lemmas are about |
| PtrTables.PtrTable.GetPosForInsert0 | JyNI-C/src/JyHash.c:162-183 | the same search, counting collisions exactly |
| PtrTables.PtrTable.GetPosForInsert | JyNI-C/src/JyHash.c:185-212 | the insertion search with its two counters |
| PtrTables.PtrTable.InsertFresh | JyNI-C/src/JyHash.c:220-232 | the new table, size and int answer of a re-insertion |
| PtrTables.PtrTable.TreatSlot | JyNI-C/src/JyHash.c:244-262 | one round of the resize loop, restart included |
| PtrTables.PtrTable.ResizeTable | JyNI-C/src/JyHash.c:234-264 | the loop that reassigns its index and its table leaves exactly the table of the resize theorems |
| PtrTables.PtrTable.Insert | JyNI-C/src/JyHash.c:266-285 | updates the table in place to the one the run theorems are about, and answers as they say |
| PtrTables.PtrTable.Clean | JyNI-C/src/JyHash.c:287-290 | a resize to the same capacity |
| PtrTables.PtrTable.Contains | JyNI-C/src/JyHash.c:292-297 | 1 exactly for members |
| PtrTables.PtrTable.Delete | JyNI-C/src/JyHash.c:299-308 | removes exactly the pointer in place and answers membership |
| JavaGraph.LateRankFalls | JyNI-C/src/JySync.c:544-577 | along the references of objects that register last a rank falls, if those objects form no cycle |
| JavaGraph.NoLateOnCycleStronger | JyNI-C/src/JySync.c:544-577 | no such object on any cycle implies no cycle of such objects |
| Conversion.Convert | JyNI-C/src/JyNI.c:1564-1711 | conversion of any finite graph terminates if every cycle passes through an object that registers first or converts nothing; handles are only added |
| Conversion.ConvertKeeps | JyNI-C/src/JyNI.c:1564-1711 | the heap stays valid, everything that existed is unchanged, every handle kept |
| ConversionEnds.EndsIff | JyNI-C/src/JySync.c:544-577 | on any graph, followed to any depth: the conversion ends exactly if it reaches no cycle of late objects without handles |
| ConversionEnds.WalkIsConvert | JyNI-C/src/JyNI.c:1564-1711 | where it ends it has registered exactly what the conversion registers |
| ConversionCounts.CountsConserved | JyNI-C/src/JySync.c:58-81 | after any conversion the references of every object, old and new, are those of its slots, the result, the caches, the weak-reference backends, and one more for each slot of an object whose constructor borrowed it |
| ConversionBackends.NewCount | JyNI-C/src/JyAlloc.c:174-185 | a new object has a reference for its weak-reference backend exactly if the Java object it was made for has one, besides slots, borrowed slots and the result |
| ConversionBackends.OldCount | JyNI-C/src/JyAlloc.c:174-185 | an object that existed before and is not shared gets no reference for a backend |
| ConversionBackends.SharedCount | JyNI-C/src/JyAlloc.c:174-185 | a shared object gets one for each Java constant with a backend that is given a handle, and one each time such a constant that gets none is asked for |
| ConversionLeaks.LeakOf | JyNI-C/src/JySync.c:544-577 | of each object, old or new, as many references leak as new slots of borrowing objects hold it |
| ConversionLeaks.NoLeakIff | JyNI-C/src/JySync.c:544-577 | decided before the call: all counts change as expected exactly if no object with a borrowing constructor, without a handle and with an item that is not null, is reached through objects without handles |
| ConversionLeaks.LeakWitness | JyNI-C/src/JySync.c:570-577 | a bound method of an object: one slot holds the object, its count is two |
| ConversionReach.HandlesExactly | JyNI-C/src/JyNI.c:1564-1711 | a conversion gives handles to exactly those objects that can be reached through objects without handles, small ints and one-letter strings apart |
| ConversionConstants.CachedHandles | JyNI-C/src/JyAlloc.c:187-203 | of the small ints or one-letter strings of one value that a conversion reaches, exactly one gets a handle if the shared object is not flagged as having one before the call, and none otherwise; none that is not reached |
| ConversionConstants.LeafHandledIff | JyNI-C/src/JyAlloc.c:187-203 | each of them gets a handle exactly if the shared object is not flagged when a conversion comes to it; if not then, never in a later one |
| ConversionReach.ReenteredIff | JyNI-C/src/JySync.c:544-577 | at any point of a conversion, the items of a late object register it exactly if it can be reached again from them |
| ConversionOnce.ConvertMadeOnce | JyNI-C/src/JyAlloc.c:187-221 | decided before the call: every new object is the one its handle leads to exactly if the conversion enters no late object that leads back to itself through objects without handles at that time |
| ConversionOnce.GuardedSingle | JyNI-C/src/JySync.c:399-423 | that is so, in whatever order items come, if each cycle of a late object meets a registered-first object on every way to it |
| ConversionTheorems.ConversionMirrors | JyNI-C/src/JySync.c:399-423 | after any conversion every native object holds counterparts of its Java object's items, and the result stands for what was converted |
| ConversionTheorems.SlotsStand | JyNI-C/src/JySync.c:399-423 | tuples, lists, cells, functions and late objects have a slot for each reference, which holds its counterpart; all others have none |
| ConversionTheorems.SameUnfolding | JyNI-C/src/JySync.c:58-81 | every walk through the Java graph leads to the counterpart of where it leads in the native graph, cycles included |
| ConversionTheorems.SharingPreserved | JyNI-C/src/JySync.c:58-81 | two walks meet in the native graph exactly if they meet in the Java graph or lead to constants (empty tuples, small ints, one-letter strings) of one value |
| ConversionTheorems.ConstantTakenAgain | JyNI-C/src/Objects/stringobject.c:119-127 | of two constants of one value the second is given the native object of the first, and no handle unless it is an empty tuple |
| ConversionTheorems.OneEachIff | JyNI-C/src/JyAlloc.c:187-221 | the conversion keeps one native object for each Java object exactly under that condition |
| ConversionTheorems.CreatedOnce | JyNI-C/src/JyAlloc.c:187-221 | then there is exactly one new native object for every Java object reached through objects without handles, none for others |
| ConversionTheorems.GuardedKeepsOneEach | JyNI-C/src/JySync.c:399-423 | the order-free condition suffices |
| ConversionTheorems.NoLateOnCycleKeepsOneEach | JyNI-C/src/JySync.c:544-577 | so does having no late object on a cycle, wherever the conversion starts |
| ConversionTheorems.StartKeepsOneEach | JyNI-C/src/JySync.c:58-81 | and starting at a registered-first object that every cycle of a late object passes through |
| ConversionTheorems.LateMadeTwiceIff | JyNI-C/src/JyAlloc.c:205-236 | at any point of a conversion, a late object is made a second time exactly if it is reached again from its own items through objects without handles |
| ConversionTheorems.MadeTwiceWitness | JyNI-C/src/JySync.c:570-577 | a bound method in a list that the method refers to: every cycle passes through a list, the method is made twice |
| ConversionTheorems.MadeOnceWitness | JyNI-C/src/JySync.c:399-423 | the same graph converted from the list on: each object once |
| NativeHeaps.NativeHeap.FromJython | JyNI-C/src/JyNI.c:1564-1711 | the recursive conversion in place computes the conversion of the theorems |
| NativeHeaps.NativeHeap.InitPyObject | JyNI-C/src/JyAlloc.c:205-239 | the order of allocation, registration, conversion of items and weak-reference backend for each kind of object |
| NativeHeaps.NativeHeap.PyTupleNew | JyNI-C/src/Objects/tupleobject.c:84-156 | the empty tuple is one shared object, others are new |
| NativeHeaps.NativeHeap.SharedObject | JyNI-C/src/Objects/intobject.c:134-147 | small ints and one-letter strings: one object of each value, kept for ever |
| NativeHeaps.NativeHeap.InitCached | JyNI-C/src/JyAlloc.c:187-203 | a shared object that is flagged as having a handle is not registered again |
| NativeHeaps.NativeHeap.InitTuple | JyNI-C/src/JySync.c:58-81 | registers the tuple, then fills it item by item |
| NativeHeaps.NativeHeap.InitList | JyNI-C/src/JySync.c:399-423 | takes the items' handles before the list's own is registered, then fills it from them or by conversion |
| NativeHeaps.NativeHeap.InitEarly | JyNI-C/src/JyAlloc.c:205-221 | cells and functions are registered, then their fields converted |
| NativeHeaps.NativeHeap.InitLate | JyNI-C/src/JySync.c:544-577 | converts all arguments, then creates and registers the object |
| NativeToJava.TerminatesIff | JyNI-C/src/JySync.c:83-114 | conversion to Java terminates exactly if the object is in no set of unmirrored eager objects each referring into the set |
| NativeToJava.TerminatesRanked | JyNI-C/src/JySync.c:367-394 | cycles through lists and truncated objects do no harm: without a cycle of unmirrored eager objects it terminates |
| NativeToJava.TrapNeedsOther | JyNI-C/src/JySync.c:83-114 | if the tuples alone form no cycle, whatever does not terminate comes to a cell, class, instance, method, property or the like that does not |
| NativeToJava.TuplesSuffice | JyNI-C/src/JySync.c:83-114 | so acyclic tuples suffice where only tuples are left to convert |
| NativeToJava.SelfHeldWitness | JyNI-C/src/JySync.c:1015-1021 | an object that holds itself is converted exactly if it is a list or truncated; a cell or any other eager object is not, without a tuple in the graph |
| NativeToJava.ConvertsNeeded | JyNI-C/src/JySync.c:83-114 | a conversion that ends creates exactly the counterparts of unmirrored objects reached through unmirrored eager ones; what an eager object refers to has its counterpart before the object itself |
| NativeToJava.ConvertsOnce | JyNI-C/src/JyAlloc.c:482-503 | a conversion that ends creates each counterpart once and none that exists |
| Mirror.UnionKeptIff | JyNI-C/src/JyNI.c:1823-1880 | every step keeps the header field a tagged union and reads it as what it is, also when conversions re-enter half-built objects, but for a peer finalized while its object has another owner |
| Mirror.FinalizerBreaksUnion | JyNI-C/src/JyNI.c:137-153 | the finalizer of a peer whose object lives on leaves a deleted weak reference, read by the next conversion |
| Mirror.FinalizerUnion | JyNI-C/src/JyNI.c:144-149 | a finalizer keeps the union exactly if the peer was the last owner, and then reads the header of the object it has freed |
| MirrorRuns.GoodIffBenign | JyNI-C/src/JyNI.c:1564-1711 | a step keeps the mirror relation exactly if it does not register over a handle set meanwhile, give a second counterpart, hand out once more an object that has a live counterpart (or, unless it is a tuple, the handle flag of a former one), or finalize a peer whose object has another owner |
| MirrorRuns.AlwaysGoodIffBenign | JyNI-C/src/JyNI.c:1766-1922 | so over whole runs, for any interleaving of conversions, collection and reference counting |
| MirrorRuns.InitKeepsIff | JyNI-C/src/JyAlloc.c:187-203 | INIT_JY of any finished object keeps the relation exactly if the two are counterparts already, or neither has one and the handle flag is not set |
| MirrorRuns.UncheckedLives | JyNI-C/src/JyNI.c:1824-1834 | in a good state the untested return of an eternal counterpart never gives a dead reference |
| MirrorRuns.UnionAlwaysIff | JyNI-C/include/JyAlloc.h:35-45 | no state of a run has a header field of the wrong kind, or read as such, exactly if no peer is finalized whose object has another owner |
| MirrorRuns.ReadsRightIff | JyNI-C/src/JyNI.c:137-153 | and every header read is that of an existing object, too, exactly if no peer is finalized at all and no object is converted to native through a handle that a freed object left behind |
| Mirror.StaleIff | JyNI-C/src/JyNI.c:1629-1643 | a step reads the header of a freed object exactly if a finalizer freed it itself or a conversion to native follows a handle to an object that is gone |
| Mirror.FinalizerRemoves | JyNI-C/src/JyNI.c:137-153 | a finalized peer is gone with its handle, whether or not its object still exists |
| Mirror.FaultIff | JyNI-C/src/JyNI.c:1823-1880 | a step reads a header field as the wrong kind exactly in the cases listed by the field's kind, the flags and the count |
| Mirror.CountsFollow | JyNI-C/src/JyNI.c:2326-2345 | each step adds or takes exactly the references of its kind; an object is freed exactly by giving up its last one and made with one |
| MirrorRuns.CountsBalance | JyNI-C/src/JyNI.c:137-153 | over any run an object exists exactly as long as references given and given up do not balance, and its count is the balance |
| MirrorRuns.ReleaseLeavesIff | JyNI-C/src/JyNI.c:2326-2345 | giving up a reference leaves a Java object's handle behind exactly if it frees the object the handle leads to and the header does not lead back to that Java object |
| MirrorRuns.StepLeavesIff | JyNI-C/src/JyNI.c:2326-2345 | no other step of the machine leaves a handle behind, but for a finalizer that gives up a last reference, under the same condition |
| MirrorRuns.BenignReadsRight | JyNI-C/src/JyNI.c:1629-1643 | runs that keep the mirror relation and finalize no peer read no header of a freed object, and none wrongly |
| MirrorReach.ReachableSteady | JyNI-C/src/JyNI.c:1564-1922 | what conversions under way and peers rely on, and what headers, flags and counts say of each other, holds after every run, benign or not |
| MirrorReach.GuardsHold | JyNI-C/src/JyNI.c:1766-1922 | so the objects of pending conversions and of peers always exist, and handles belong to live Java objects |
| MirrorReach.NeverDeadIff | JyNI-C/src/JyNI.c:1826-1834 | over any run, no untested return ever has a dead reference to give, exactly if nothing that an eternal header leads to is collected |
| MirrorRuns.PartialBijection | JyNI-C/src/JyAlloc.c:187-203 | handles and headers lead to each other both ways; each object has at most one counterpart |
| MirrorRuns.ToJavaGood | JyNI-C/src/JyNI.c:1823-1880 | what conversion to Java returns is alive, the counterpart, and leads back; the relation is kept exactly if no constructor returned an object that has a native counterpart already |
| MirrorRuns.ToJavaCounts | JyNI-C/src/JyNI.c:1823-1922 | conversion to Java changes no count, but that a new peer owns a reference to its object |
| MirrorRuns.NativeJavaNative | JyNI-C/src/JyNI.c:1629-1646 | native to Java and back: the same pointer with one new reference |
| MirrorRuns.JavaNativeJava | JyNI-C/src/JyNI.c:1823-1865 | Java to native and back in a good state: the same live object, exactly unless the native one is half-built |
| MirrorRuns.JavaNativeJavaIff | JyNI-C/src/JyNI.c:1823-1865 | in any state in which the handle leads to an object: the same Java object exactly if the header leads to it, or leads to none and the constructor returns it |
| MirrorRuns.DeadReplaced | JyNI-C/src/JyNI.c:2326-2345 | a dead counterpart is replaced by a new one, and only the two flags set anew remain |
| MirrorRuns.LateReentered | JyNI-C/src/JyAlloc.c:187-203 | two pending conversions of one late object: both native objects lead to it, it leads to the second |
| MirrorRuns.HalfBuiltConverted | JyNI-C/src/JyNI.c:1866-1880 | converting a half-built object to Java leaves a Java object without a handle |
| MirrorRuns.SharedJavaObject | JyNI-C/src/JySync.c:83-88 | a constructor returns a Java object that another native object is mirrored by: both lead to it, it leads to the newer one |
| MirrorWitness.DeletedReferenceRead | JyNI-C/src/JyNI.c:137-153 | a run from the start in which a deleted weak reference is read |
| MirrorWitness.FreedHeaderRead | JyNI-C/src/JyNI.c:144-149 | a run from the start in which the header of a freed object is read |
| MirrorWitness.LeftHandleRead | JyNI-C/src/JyNI.c:1629-1643 | a run from the start, without a finalizer, in which a handle is left behind by a freed shared object and then converted |
| MirrorWitness.TuplesMeet | JyNI-C/src/JySync.c:58-81 | a run from the start with two empty Java tuples: to native and back, the first becomes the second |
| MirrorWitness.IntsMeet | JyNI-C/src/Objects/intobject.c:134-147 | a run with two Java ints of one value: the native int leads to the second, which has no handle |
| MirrorWitness.LettersMeet | JyNI-C/src/JySync.c:169-178 | a run with two native strings of one letter: to Java and back, the first becomes the second |
| MirrorWitness.DeadReferenceReturned | JyNI-C/src/JyNI.c:1826-1834 | a run after which a conversion to Java returns a dead reference without a test |
| MirrorWitness.LateReenteredReached | JyNI-C/src/JyAlloc.c:187-203 | a run from the start to a late object with two native objects |
| MirrorWitness.HalfBuiltReached | JyNI-C/src/JyNI.c:1866-1880 | a run from the start to a Java object without a handle |
| MirrorWitness.DeadReached | JyNI-C/src/JyNI.c:1838-1861 | a run from the start to a truncated object whose counterpart was collected |
| MirrorHeaps.MirrorHeap.Decref | JyNI-C/src/JyNI.c:2326-2345 | giving up a reference; the last one cleans up the header and frees the object |
| MirrorHeaps.MirrorHeap.TakeHandle | JyNI-C/src/JyNI.c:1629-1643 | a new reference to the object the handle leads to; if it is gone, its header is read all the same |
| MirrorHeaps.MirrorHeap.ClearPyCPeer | JyNI-C/src/JyNI.c:137-153 | the reference is given up first, then the weak reference in the header deleted |
| MirrorHeaps.MirrorHeap.CleanUpJyObject | JyNI-C/src/JyNI.c:2326-2345 | clean-up in place, field by field, is the step of the model |
| MirrorHeaps.MirrorHeap.FinishInit | JyNI-C/src/JyAlloc.c:187-203 | weak reference, handle unless flagged, flag INITIALIZED last |
| MirrorHeaps.MirrorHeap.InitSharedTuple | JyNI-C/src/JySync.c:58-81 | the shared empty tuple: registered by its constructor, then initialised |
| MirrorHeaps.MirrorHeap.InitSharedValue | JyNI-C/src/JySync.c:253-275 | a shared int or string: marked as eternal if the Java object is preallocated, registered only if not flagged |
| MirrorHeaps.MirrorHeap.LiveCounterpart | JyNI-C/src/JyNI.c:1823-1872 | answers the live counterpart if there is one, untested if it is eternal; else cleans up and takes the type-map entry |
| MirrorHeaps.MirrorHeap.JythonFromPy | JyNI-C/src/JyNI.c:1766-1922 | returns a live object that is the counterpart, whether the constructor made it or not; the relation is kept exactly if it had no native counterpart |
| EntryLock.ReachableGood | JyNI-C/include/JyNI.h:73-100 | the invariant of lock, current state and errors holds in every reachable state of any number of threads |
| EntryLock.ReentryTestExact | JyNI-C/include/JyNI.h:92-95 | the unlocked test is true exactly if the testing thread itself holds the lock through an unreleased call-out |
| EntryLock.ReEnterIff | JyNI-C/include/JyNI.h:92-95 | a re-entry goes on without the lock operation exactly from an unreleased call-out, and remembers it |
| EntryLock.MutualExclusion | JyNI-C/include/JyNI.h:73-81 | at most one thread is in native code or between acquiring and releasing the lock, bare-lock sections included |
| EntryLock.NeverFatal | JyNI-C/include/JyNI.h:75 | the fatal errors of the protocol are unreachable |
| EntryLock.FatalIff | JyNI-C/include/JyNI.h:73-81 | in any state, those errors are raised exactly by an entry that finds a current state and a call-out that finds none |
| EntryLock.LeaveReleasesIffTaken | JyNI-C/include/JyNI.h:97-100 | a leave gives up lock and current state exactly if its entry took them |
| EntryLock.ErrorsChangeOnlyBy | JyNI-C/include/JyNI.h:83-100 | a thread's pending error changes by raising, clearing and the leave that gives up the lock, which hands it to Java; the leave of a re-entered activation keeps it |
| EntryLock.NestingRestores | JyNI-C/include/JyNI.h:92-100 | for every nesting and interleaving, back at the same frames the thread holds the lock and is current exactly if it did before |
| EntryLock.OutermostEntryClean | JyNI-C/include/JyNI.h:83-85 | every outermost entry starts without a pending error |
| EntryLock.ErrorHandedExactlyOnce | JyNI-C/src/JyTState.c:40-55 | a pending error that native code leaves alone reaches Java exactly once by the time the thread is outside |
| EntryLock.SelfBlockedForever | JyNI-C/src/JyNI.c:137-153 | a plain entry or bare lock inside an unreleased call-out never proceeds |
| EntryLock.SelfBlockedReached | JyNI-C/include/JyNI.h:73-100 | both kinds of blocked threads are reached from the start by five steps |
| EntryProgress.CanProceedIff | JyNI-C/include/JyNI.h:73-100 | a thread that waits for the lock can get it in some continuation exactly if the lock is not held by a thread that waits for it itself |
| EntryLock.InnerEntrySeesError | JyNI-C/include/JyNI.h:97-100 | an error pending at a released call-out is still pending in an entry from there |
| EntryProgress.InnerEntryErrorIff | JyNI-C/include/JyNI.h:92-100 | whatever all threads do in between, the first entry from a released call-out, or the return, starts with an error exactly if one was pending when the lock was released |
| EntryLock.PendingErrorReached | JyNI-C/include/JyNI.h:73-100 | a thread in native code with a pending error is reached from the start |
| Attributes.GetAfterAddOrSet | JyNI-C/src/JyAttributes.c:205-223 | the new binding is found, other names are found as before |
| Attributes.OwnedMeaning | JyNI-C/src/JyAttributes.c:73-98 | of each address, how often it is freed or deleted as a weak reference: for a chain once for every element at it and every element value that is it, NULL never, nothing without the flag |
| Attributes.AddOrSetConserves | JyNI-C/src/JyAttributes.c:185-223 | of each resource, what was held and comes in is held or released |
| Attributes.ClearNameDrift | JyNI-C/src/JyAttributes.c:101-117 | clearing one name and later all: front values are released once more per removal, removed values never |
| Attributes.ClearNameIff | JyNI-C/src/JyAttributes.c:101-117 | clearing one name does what it promises exactly if the first attribute has another name and neither the removed attributes nor those in front of them own anything |
| AttributeRuns.RunConserves | JyNI-C/src/JyAttributes.c:57-98 | over every run, whatever was taken over is held or released |
| AttributeRuns.ReleasedOnce | JyNI-C/src/JyAttributes.c:57-98 | while what is handed over is fresh (memory freed before may come again), each operation releases only what the list held, once, and does not keep it |
| AttributeRuns.ReleasedOnceEver | JyNI-C/src/JyAttributes.c:57-98 | with nothing handed over twice in the run, nothing is released twice or while still held |
| AttributeRuns.ClearAllReleasesAll | JyNI-C/src/JyAttributes.c:57-70 | the final clearing leaves exactly what was taken released |
| AttributeRuns.GetIsNewest | JyNI-C/src/JyAttributes.c:120-140 | a lookup finds the newest binding |
| AttributeRuns.CounterBalances | JyNI-C/src/JyNI.c:2210-2227 | the weak-reference counter is increments minus decrements, in 32 bits |
| AttributeRuns.ClearNameWitness | JyNI-C/src/JyAttributes.c:101-117 | two attributes: the first one's value is freed twice, the second one's never |
| AttributeLists.JyObject.ClearAttributeValue | JyNI-C/src/JyAttributes.c:73-98 | releases exactly what the value owns: itself, or every element and element value of the chain |
| AttributeLists.JyObject.ClearAttributes | JyNI-C/src/JyAttributes.c:57-70 | releases every node and value, leaves an empty list |
| AttributeLists.JyObject.ClearAttribute | JyNI-C/src/JyAttributes.c:101-117 | the loop that rewires and frees does what the single-name theorems are about |
| AttributeLists.JyObject.GetAttribute | JyNI-C/src/JyAttributes.c:120-140 | the value of the first attribute of that name, or NULL |
| AttributeLists.JyObject.HasAttribute | JyNI-C/src/JyAttributes.c:143-158 | whether any attribute has that name |
| AttributeLists.JyObject.AddAttributeWithFlags | JyNI-C/src/JyAttributes.c:174-183 | a new first attribute, nothing released |
| AttributeLists.JyObject.AddOrSetAttributeWithFlags | JyNI-C/src/JyAttributes.c:205-223 | replaces the first attribute of that name in place, releasing what it owned, or adds one |
| AttributeLists.JyObject.IncWeakRefCount | JyNI-C/src/JyNI.c:2215-2220 | adds one to the counter and answers it |
| AttributeLists.JyObject.DecWeakRefCount | JyNI-C/src/JyNI.c:2222-2227 | takes one from the counter; a negative count is answered as -1 |
| PyLongs.NormalUnique | JyNI-C/include/Python_JyNI/longintrepr_JyNI.h:107-113 | a normalized long is determined by its value |
| PyLongs.SignExtended | JyNI-C/include/Python_JyNI/longobject_JyNI.h:108-124 | one more sign byte in front changes nothing |
| PyLongToBytes.NumBits | JyNI-C/src/Objects/longobject.c:533-562 | exactly the bits of the absolute value |
| PyLongToBytes.ConsumeStep | JyNI-C/src/Objects/longobject.c:724-732 | complementing digit by digit with a carry yields the two's complement of all digits so far |
| PyLongToBytes.StoreBytes | JyNI-C/src/Objects/longobject.c:755-763 | moving bytes out of the accumulator keeps the number, and fails exactly when the array is full |
| PyLongAsBytes.Finish | JyNI-C/src/Objects/longobject.c:766-803 | straggler, sign bit and filling: the low bytes in any case, success exactly if the number fits |
| PyLongTransport.AsByteArray | JyNI-C/src/Objects/longobject.c:676-808 | the bytes are the value's least significant ones; success exactly if it fits with its sign (or -1 in no bytes); then they stand for the value |
| PyLongFromBytes.SignificantBytes | JyNI-C/src/Objects/longobject.c:593-614 | the bytes skipped do not matter |
| PyLongFromBytes.Gather | JyNI-C/src/Objects/longobject.c:630-668 | digits of the magnitude, for every byte count and digit size; no digit beyond those allocated |
| PyLongFromBytes.FromByteArray | JyNI-C/src/Objects/longobject.c:565-673 | the normalized long whose value is the two's complement of the bytes |
| PyLongTransport.SizeSuffices | JyNI-C/src/JySync.c:348-353 | the computed byte count holds every value with its sign |
| PyLongTransport.JyLongFromPyLong | JyNI-C/src/JySync.c:346-364 | for every long the bytes handed to Java stand for it, and the ignored result is never an error |
| PyLongTransport.PyLongFromJyLong | JyNI-C/src/JySync.c:331-344 | the long with the value of the bytes |
| PyLongTransport.ThereAndBack | JyNI-C/src/JySync.c:331-364 | to Java and back, through any byte string for the same integer: the very same long |
| PyLongTransport.Extended | JyNI-C/include/Python_JyNI/longobject_JyNI.h:108-124 | any number of sign bytes in front decodes to the same integer |
| SlotBitmap.BitIffPresent | JyNI-C/src/JyNI.c:1982-2037 | bit i is set exactly if slot i is present: additions never carry |
| SlotBitmap.BitmapLossless | JyNI-C/src/JyNI.c:1982-2037 | below 2^61, and two types have one bitmap exactly if they have the same slots |
| SlotBitmap.AddTable | JyNI-C/src/JyNI.c:1985-1995 | the loop adds one table's bits at its offset; a missing table advances to the same offset |
| SlotBitmap.MethodFlags | JyNI-C/src/JyNI.c:1982-2037 | the four loops and three tests compute the bitmap of all 61 slots, whichever tables are missing |
| SlotBitmap.MaskIsBit | JyNI-Java/src/JyNI/PyCPeerType.java:47-108 | each of the 61 Java masks is one bit, in the order of the slots |
| SlotBitmap.JavaReadsSlots | JyNI-Java/src/JyNI/PyCPeerType.java:47-108 | each of the 61 Java masks selects the slot it is named after |
| Delegation.AllPassIffAllow | JyNI-C/src/JyNI.c:2284-2304 | asking every base recursively is the same as judging each by itself |
| Delegation.RuleIff | JyNI-C/src/JyNI.c:2260-2318 | from the flags alone, when a type is delegated as a converted object, through its Java class, or not; a static type exactly if it has a Java class and is no exception and no singleton |
| Delegation.DelegateOfType | JyNI-C/src/JyNI.c:2273-2318 | the recursion and loop over the bases terminate and decide by the rule |
| Delegation.GetJythonDelegate | JyNI-C/src/JyNI.c:2260-2318 | plain objects by their flags, types by the rule |
| Delegation.BlockedBelow | JyNI-C/src/JyNI.c:2284-2310 | one base in the way blocks every type below it that its own flags do not delegate |
| Delegation.ReplacedNotDelegated | JyNI-C/src/JyNI.c:2241 | a truncated object is no longer delegated once its dead counterpart was replaced |
| GcRing.Generation.Track | JyNI-C/include/Python_JyNI/objimpl_JyNI.h:310-318 | appends the object at the end of a well-formed ring; fatal exactly if it is tracked |
| GcRing.Generation.Untrack | JyNI-C/include/Python_JyNI/objimpl_JyNI.h:324-331 | takes the object out wherever it is, keeping the ring well-formed and the order |
| GcRuns.RingIsTracked | JyNI-C/include/Python_JyNI/objimpl_JyNI.h:310-336 | over every run the ring holds each object whose last operation tracked it, once, and no other |
| GcRuns.RingInOrder | JyNI-C/include/Python_JyNI/objimpl_JyNI.h:310-336 | in the order in which they were last tracked |
| GcRuns.RingApplies | JyNI-C/include/Python_JyNI/objimpl_JyNI.h:310-331 | the ring changes of the two methods are the steps of the runs |
| GcPerform.Perform | JyNI-C/include/Python_JyNI/objimpl_JyNI.h:310-336 | an operation decided by gc_refs alone does the step of the runs, and keeps each object in the ring exactly if its header says it is tracked |
| GcPerform.PerformRun | JyNI-C/src/Modules/gcmodule.c:2851-2855 | so a whole run of the methods leaves in the ring what the theorems on runs are about |

## Left out

- ResizeEffect: the live set is stated for final capacities below 2^31; beyond that no abort is recognised and `LoopOutcome` says what is left. Allocation failure is left out, so capacities are bounded by memory.
- RunRefinesSet: is about runs in which no rebuild is aborted and the capacity stays below 2^31; `AnyRunKeepsInvariant` and `InsertEffect` cover all runs.
- CounterBalances: 32-bit wrap-around is modelled, although signed overflow is undefined in C.
- GoodIffBenign: a conversion to Java may find that its object was converted meanwhile only if a second conversion of it ends first; within one thread such a re-entry never ends (`NativeToJava.ReachedAgain`), so these runs need a second thread or another order of ends than the C stack has.
- ReplacedNotDelegated: collecting the counterpart is any time possible in the model; garbage-collection heads, which may keep the backend of a truncated object alive (JyNI-C/src/JyAlloc.c:514-520), are not part of it.
- JythonFromPy: conversions of other objects that creating a counterpart may cause are steps of their own in `MirrorRuns`, not nested calls.
- Pointer table: tombstones are the table's own address, which a caller never stores; they are a constructor of their own here. The factor 1.10 is exact division by ten, which the double arithmetic agrees with for the capacities that occur. Printing the table is left out.
- HandlesExactly: leaves small ints and one-letter strings to `CachedHandles` and `LeafHandledIff`.
- Convert: asks the whole graph to be free of cycles of late objects; a graph with such cycles that are not reached is covered by `EndsIff`.
- Conversion to native: arguments of one constructor call are converted from left to right, which C does not fix. Subtypes, exceptions, type objects and name strings of functions are left out; strings and numbers that no constructor shares, and truncated objects, are leaves. The list code's repair of a lost garbage-collection head is not part of this model.
- Conversion to native of Java weak references and proxies: they convert their referent first and then share a native reference. Their graph is not part of the model; the sharing and what comes of it are the steps `ShareLate` and `LeftHandleRead`.
- Conversion to Java: functions, frames, C functions, method descriptors, type objects and objects without a type-map entry are not among the kinds of nodes; a subtype is its base kind.
- Conversion to native with synchronisation flags on access: no entry of the type map sets them.
- Mirror: the three assignments that finish a header (weak reference, handle, flag) are one step, since nothing is converted between them; subtype peers and static singletons are left out. So are peers of types, which hand over the weak reference themselves (`refHandle`).
- Mirror: any pending conversion may finish next, which includes the nesting of the C stack. Of the references to a native object, only those of peers are told apart from those of native code; native code may give up its own at any time, except one while a conversion uses the object.
- Lock: PyGILState_Ensure and PyGILState_Release with their counter, recursion limits, and filling and clearing the other fields of a thread state are left out. Of JyNI_PyObject_Call only the released call-out is modelled, not the merging of keyword arguments. PyEval_SaveThread, PyEval_RestoreThread and PyErr_Fetch have their CPython meaning; handing an error to Java and exploring for garbage collection raise no error of their own; each thread has its own thread state.
- Attributes: malloc succeeds; nodes and values are addresses; a chain's elements are a sequence. The variants without flags are the ones with flags and no flag set.
- Longs: `PyLong_SHIFT` is any number of bits from 8 up (the source uses 15 or 30). Registers are unbounded; by the invariants the accumulator never holds more than a digit and seven bits. The error for more than 2^63 / 8 bytes is left out, and so are the little-endian and unsigned variants, which the conversions do not use. Java's BigInteger is taken by its documented two's-complement contract.
- Slot bitmap: creating the Java type and its dictionary is left out.
- Delegation: converting a base does not change the flags of other bases here; whether a type is built in, has a Java class or converts is given.
- Ring: collection moves objects between generations; only the two macros are modelled. `_PyObject_VAR_SIZE` is an easy rounding and left out.
- JNI calls, class and method identifiers, the loader, the wrappers of JyAbstract.c, type synchronisation and MRO, list backends, string conversions, the reference monitor and debug output: foreign plumbing or easy members.
