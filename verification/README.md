# LensX verification

A Dafny model of the parts of LensX, and of the libbpf it carries, whose correctness rests on
state that is changed step by step: the deduplication of BTF type graphs and the tables under
it, the ring-buffer consumer, the pairing of events, the order of type definitions and the
resolution of global symbols. `dafny verify dfyconfig.toml` checks all of it.

## How it is organised

- **BTF types** (`BtfTypes`, `BtfGraph`, `BtfNames`). A type is its record: the 32-bit words of
  `struct btf_type` and what follows it, laid out as section 2 of the Linux kernel document "BPF
  Type Format (BTF)" says. A type graph may be cyclic, so what an id *means* is the family of its
  unfoldings to every finite depth. Two ids mean the same when they unfold alike at every depth.
- **Deduplication** (`BtfEqual`, `Forest`, `DedupInv`, `DedupPaths`, `DedupEquiv`, `DedupApart`,
  `DedupRef`, `DedupLoops`, `DedupFinal`, `Dedup`, `DedupStrs`, `DedupNamed`, `DedupBtf`). The class `BtfDedup` has the arrays `map` and `hypot_map`, the trail `hypot_list` and
  the candidate table of the source, and its methods are the passes. The canonical map is kept a
  forest whose edges preserve meaning and kind. The equivalence check assumes a pair equal while
  it is comparing it; what a positive answer leaves behind is a bisimulation, and equality of
  unfoldings follows by induction on the depth. What a negative one rests on is said by paths
  through the graph: either the meanings differ, or one path leads to two copies. Types are rewritten, compacted and remapped in
  the growing buffer of `Btf`. `DedupStrs` is the pass over the strings, `DedupNamed` carries what
  is proved with names by offset over to names by content, and the end-to-end contract is that of
  `DedupBtf.DedupAll`.
- **Tables** (`HashMap`, `StrSet`, `Mem`, `Seqs`, `Words`). The chained hash map is specified by
  the multiset of its entries and, for each key, by the order of its entries in their chain. Its hash and equality functions take a context, because those of
  the string set read through the very buffer that the string set writes its probe to.
- **Definition order** (`DumpWalk`, `DumpExact`, `DumpOrder`, `DumpCases`). The recursion over
  arrays and queue is proved equal to a functional traversal, and what that reports and queues is
  said by paths: when a cycle is reported, and what is queued twice. What a definition needs
  (`DumpOrder.Needs`) is said without the traversal. `DumpCases` has small graphs on which the
  code does the unexpected.
- **Adding one table to another** (`AddBtf`), **byte order** (`Endian`), **symbol resolution**
  (`Linker`): one module each. What occurrences resolve to (`Linker.Resolved`) and what data holds
  (`Endian.Holds`) are said without the merge or the parser. Weak and strong
  symbols are those of the System V gABI, chapter 4, section "Symbol Table".
- **Ring buffer** (`RingBuf`). The consumer and the producer are interleaved step by step; every
  sequence of steps is a run. The kernel side is an assumption: a busy header is written before
  producer_pos moves, space is reserved only behind consumer_pos, a record is filled while busy
  and then committed or discarded.
- **Event pairing** (`Matcher`, `Fifo`). What the matchers should output is said about the whole
  stream of events, and the classes are proved to output it.

## Where the code and its documentation differ

- `linker.c:1874` calls two strong definitions a conflict. The code also refuses the only strong
  definition when it comes after a weak definition and a strong extern, because a strong extern
  clears `is_weak` (`Linker.OneStrongDefMayBeRefused`, `Linker.WhenRulesAgree`).
- `hashmap.h:94-96` says that find returns the entry appended last. Growth reverses chains, so it
  does only while the number of growths since then is even, or if the value at the far end of the
  chain is the same (`HashMaps.FindAfterAppend`, `HashMaps.GrowthHidesLastAppend`).
- `matcher.h:68` gives each thread a slot modulo 65536; threads that share one can be mixed. A set
  of threads is safe exactly if no two of them share a slot or there is only one stage
  (`Matchers.IndependentIffNothingShared`).
- A table whose header leaves room before or behind its types is emitted with that header but
  without the room, and cannot be parsed again; nor can a longer header than the standard one be
  parsed after a change of byte order (`Endian.RoundTrip`).
- `btf_dump.c:556-576` queues a typedef when it becomes ordered. A typedef that stands for a function
  type can be queued twice, if that function type leads back to it (`DumpCases.TypedefQueuedTwice`).
  Without a function type that is used directly on the way, not behind a pointer, nothing is
  (`DumpExact.QueuesOnce`). With one, the graph alone does not decide: the same call queues a typedef
  twice or once, depending on what was dumped before (`DumpCases.DoublingDependsOnHistory`).
- `btf.c:2912-2913` promises one type for each unique one. Names are compared by offset, and offsets
  into a base are left alone, so a base with two copies of a string keeps types apart that have
  the same content (`DedupBtf.CopiesInBaseStayApart`, `DedupNamed.UniqueExactly`).
- `btf_dump.c:483-491` reports an unsatisfiable cycle. A function type that is used directly, not
  behind a pointer, makes the report depend on what was dumped before
  (`DumpCases.CycleReportDependsOnHistory`, `DumpCases.CycleReportDependsOnPointers`); without one
  on the way it is exact (`DumpExact.CycleReportIsExact`).
- `btf_dump.c:287-298` speaks of types referenced from any other type. The return type of a function
  is not marked (`DumpCases.ReturnTypeIsUnmarked`).
- `strset.c:110-141` speaks of offsets above 0; the string that the data starts with has offset 0
  (`StrSets.ZeroIsReturned`, `StrSets.StrSet.Load`).
- The type word of a forward declaration is visited by `btf_type_visit_type_ids`, so it counts as
  a reference here.

## Model

| member | source | states |
|---|---|---|
| DedupBtf.DedupAll | libbpf/src/btf.c:3024-3086 | Dedup end to end, names compared as strings: on success the result is well formed, every own type of it carries the label of an original that became it, every original has a final id of its own kind (a forward declaration one that it may declare), and without forward declarations or memberless enums every original id unfolds, at every depth, like its final id. No two types are left equal by content, and two structs that unfold alike are left apart only if the later one came from a type that holds two types of one meaning where the earlier holds one; for split BTF this asks that the offsets into the base told its names apart. It succeeds whenever the reference types of the input form no loop, no struct of the instance and another one of its kind lead by one path to types of a kind that is not compared, and there is room for the names in use, each once: each of the three is the only cause of its error, and a loop is never overlooked. |
| DedupStrs.DedupStrings | libbpf/src/btf.c:3320-3362 | The string pass: every name of every own type denotes the string it did; offset 0 and those into the base stay, a string of the base gets its offset there, any other one that of its only copy in a new set, which holds nothing but these; if it fails, or if the strings are deduplicated already, the strings are as they were. It does not fail if there is room for the names in use, each once and a probe with the longest. |
| DedupStrs.StrsDedup.RemapStrOff | libbpf/src/btf.c:3279-3318 | One offset: what it is changed to, with the string it denotes, and what it adds to the set. It fails exactly if the string does not fit behind those of the base or, if the base does not have it, behind those of the set. |
| DedupStrs.StrsDedup.RemapNames | libbpf/src/btf.c:4772-4827 | All offsets of one record are remapped, in place, and the types before it are left as they are. |
| DedupStrs.InternsEachOnce | libbpf/src/strset.c:141-177 | A set that holds each of its strings once still does after an addition. |
| DedupNamed.UniqueExactly | libbpf/src/btf.c:3279-3318 | After the string pass two names have the same offset whenever they are the same string exactly if, before it, each offset into the base was the only one of its content and, where a string of the instance has that content, the one the base is searched by. |
| DedupNamed.DedupedIsSameButOffsets | libbpf/src/btf.c:3320-3362 | The string pass leaves a well-formed graph with the strings, kinds and references it had. |
| DedupNamed.SameUnfoldNamed | libbpf/src/btf.c:3320-3362 | At every depth each id unfolds, names compared as strings, as before the string pass. |
| DedupNamed.SameMeaningNamed | libbpf/src/btf.c:3023-3086 | Ids that mean the same with names compared by offset mean the same with names compared as strings. |
| DedupNamed.NamedMeansTheSame | libbpf/src/btf.c:3023-3086 | If equal names have equal offsets, ids that mean the same with names compared as strings mean the same with names compared by offset. |
| DedupNamed.DedupKeepsContent | libbpf/src/btf.c:3023-3086 | What the passes over the types keep by offset they keep by content of the input of the string pass. |
| DedupNamed.DedupSharesContent | libbpf/src/btf.c:3023-3086 | If equal names have equal offsets, what those passes share by offset they share by content. |
| DedupBtf.CopiesInBaseStayApart | libbpf/src/btf.c:3285-3287 | A base whose strings hold two copies of a name, and one int named by either: both ints are in every result, though they are equal by content. |
| DedupInv.StillPrepared | libbpf/src/btf.c:3043-3052 | The map and the candidates that the base has been given survive the string pass. |
| Dedup.BtfDedup.DedupTypes | libbpf/src/btf.c:3053-3082 | The passes over the types: on success the result is well formed and maximally shared, every own type of it comes from an original of the same shape, every original has a final id of its own kind, and without forward declarations or memberless enums every original id unfolds like its final id and two structs of one meaning are left apart only if the later one came from a type that holds two copies. There are two errors: -ELOOP, exactly if the reference types of the input form a loop, unless it stopped earlier, and -EINVAL, only if a struct of the instance and another one of its kind lead by one path to types of a kind that is not compared. |
| Dedup.BtfDedup.TableAdd | libbpf/src/btf.c:3131-3135 | The type is filed, or refused exactly if the table would have to grow beyond what can be allocated. |
| Dedup.BtfDedup.TableHasRoom | libbpf/src/btf.c:3131-3135 | That cannot happen: a table that files each type once never becomes so large. |
| Dedup.BtfDedup.MapTypes | libbpf/src/btf.c:3043-3062 | The passes that only map: afterwards everything but the reference types is mapped, and canonical structs of the same meaning are told apart. |
| Dedup.BtfDedup.CompactAndRemap | libbpf/src/btf.c:3068-3077 | The table becomes the compacted and remapped one; neither step can fail once every type is mapped. |
| DedupLoops.RankedHasNoLoop | libbpf/src/btf.c:4387-4528 | If the reference types have a rank, which a successful pass yields, they form no loop. |
| DedupLoops.NoLoopIsRanked | libbpf/src/btf.c:4387-4528 | If they form no loop, the lengths of their longest paths are a rank, so that the pass cannot answer -ELOOP. |
| DedupFinal.DedupResult | libbpf/src/btf.c:4539-4637 | From the invariants of the passes to the meaning of the final table: compacting the canonical types and remapping every reference preserves meaning, sharing and kinds. |
| DedupFinal.CompactedUnfold | libbpf/src/btf.c:4539-4637 | At every depth an id of the table before compaction unfolds like its final id after compaction and remapping. |
| DedupFinal.EveryIdHasFinalId | libbpf/src/btf.c:4593-4605 | Once the three passes have succeeded, every id resolves to a self-mapped id with a new id, so that remapping never returns -EINVAL for an in-range reference. |
| DedupFinal.CompactedIsWf | libbpf/src/btf.c:4593-4637 | Every remapped reference leads to a type of the compacted table. |
| DedupFinal.CompactedIsShared | libbpf/src/btf.c:3660-3720 | No two types of the result of a kind that is compared exactly are equal, unless both belong to the base: equal types hash alike, all candidates of a bucket are visited, and canonical references are not rewritten again. |
| DedupFinal.CanonicalTypesDiffer | libbpf/src/btf.c:4387-4511 | Two distinct self-mapped types that are compared exactly have different records. |
| DedupFinal.FinalEqualWasEqual | libbpf/src/btf.c:4593-4605 | Remapping makes no two distinct canonical types equal. |
| DedupFinal.BaseStays | libbpf/src/btf.c:3660-3720 | Without forward declarations every type of the base of split BTF stays canonical under its own id. |
| DedupFinal.CompactedLeavesApart | libbpf/src/btf.c:4539-4637 | Structs of the result that mean the same come from two structs of the input of which the second holds two types of the same meaning, not identical, where the first holds one. |
| DedupApart.TableTellsApart | libbpf/src/btf.c:4293-4365 | After the struct pass any two canonical structs of the same meaning, the later one in the instance, have been told apart: both are filed, and under the same hash. |
| DedupApart.NextStructTold | libbpf/src/btf.c:4293-4349 | A struct is filed only after every struct filed under its hash was turned down. |
| Dedup.BtfDedup.IsEquiv | libbpf/src/btf.c:4020-4180 | The side-by-side traversal of two cyclic graphs: it terminates because each recursion has set one unset entry of hypot_map; 1 means that the two ids are related and every pair added has been compared and found to match; 0 means that there is a reason: a differing pair of records, or a canonical type already paired with another candidate; -EINVAL that the candidate leads to a type of a kind that is not compared and, without forward declarations, the canonical type by the same path to another one of that kind. Every pair added lies at the end of one path from both ids. |
| Dedup.BtfDedup.CompareTaken | libbpf/src/btf.c:4036-4060 | A canonical type that is paired already: 1 for the same or an identical candidate, 0 with that pair as the reason. |
| Dedup.BtfDedup.ComparePair | libbpf/src/btf.c:4065-4118 | The comparison by kind of a pair that has just been assumed equal: local match and all children related, or a reason why not. |
| Dedup.BtfDedup.CompareLeaves | libbpf/src/btf.c:4095-4107 | The kinds without references: equal or compatible, or a differing pair of records. |
| Dedup.BtfDedup.CompareRefKinds | libbpf/src/btf.c:4109-4178 | The kinds with references: equal shapes and all references related, or a reason why not; -EINVAL only if both lead by one path to types of a kind that has no case. |
| Dedup.BtfDedup.EquivRef | libbpf/src/btf.c:4144-4146 | One pair of references: what the recursion says of it, said of the pair of types it belongs to. |
| Dedup.BtfDedup.EquivRefs | libbpf/src/btf.c:4137-4176 | The member and parameter loops: all references from the first on are related, or one of them is refuted. |
| DedupEquiv.PairsUnfoldAlike | libbpf/src/btf.c:4020-4180 | Pairs that were assumed equal while they were being compared are equal: paired ids unfold to the same tree at every depth. |
| DedupEquiv.RelatedMeanTheSame | libbpf/src/btf.c:4020-4180 | A positive answer of the outermost check proves that the two types have the same meaning (no forward declarations). |
| DedupEquiv.RefutedMeansDifferent | libbpf/src/btf.c:4034-4063 | A negative answer proves that the meanings differ, unless it rests on a canonical type that is already paired with another, not identical, candidate. |
| DedupEquiv.RefutedIsExplained | libbpf/src/btf.c:4034-4063 | A negative answer of the outermost check: the two types differ in meaning, or the candidate holds two types of the same meaning, not identical, where the canonical type holds one. |
| DedupPaths.ConflictIsTwoCopies | libbpf/src/btf.c:4036-4059 | If a canonical type is already paired with another candidate, both candidates lie at the ends of paths that lead to it, and if the types compared mean the same, so do the two. |
| DedupEquiv.LocalMatchIsSameShape | libbpf/src/btf.c:4069-4180 | Without forward declarations the local test of each kind decides equality of everything but the referenced ids. |
| DedupEquiv.EquivJustifiesMerge | libbpf/src/btf.c:4320-4345 | After a positive check, merging the hypothetical map is sound, and the candidate may be mapped to the canonical type. |
| DedupEquiv.MergeOneKeepsInv | libbpf/src/btf.c:4208-4269 | Each write of the merge links a root to a different root of the same kind and meaning, or a forward declaration to what it declares, so the map stays a forest and sound. |
| Dedup.BtfDedup.HypotMapAdd | libbpf/src/btf.c:3137-3152 | Adding a pair sets one entry and records it once in hypot_list. |
| Dedup.BtfDedup.ClearHypotMap | libbpf/src/btf.c:3154-3162 | Clearing by the list restores the state in which every entry is unset. |
| Dedup.BtfDedup.MergePair | libbpf/src/btf.c:4213-4266 | The three conditional writes of one merge step. |
| Dedup.BtfDedup.MergeHypotMap | libbpf/src/btf.c:4208-4269 | Merging a verified hypothetical map keeps the invariants of the canonical map. |
| Dedup.BtfDedup.IdenticalArrays | libbpf/src/btf.c:3890-3901 | True exactly of two arrays that are the same record, down to the ids. |
| Dedup.BtfDedup.IdenticalStructs | libbpf/src/btf.c:3903-3925 | True exactly of two structs or unions that are the same record, down to the ids. |
| Dedup.BtfDedup.TryStruct | libbpf/src/btf.c:4312-4345 | One candidate: 1 only for an equivalent struct of the same kind and, without forward declarations, the same meaning; 0 only with a ground for dismissing it: then it differs in meaning or is one of two copies; -EINVAL only if it and the candidate lead by one path to types of a kind that is not compared. |
| Dedup.BtfDedup.FindStruct | libbpf/src/btf.c:4306-4345 | The candidate loop: the struct is found, or every candidate with its hash has been dismissed for a reason. |
| Dedup.BtfDedup.StructType | libbpf/src/btf.c:4293-4349 | A struct or union becomes mapped; it becomes canonical only if all candidates with its hash have been dismissed. |
| Dedup.BtfDedup.StructTypes | libbpf/src/btf.c:4351-4365 | After the struct pass every struct and union of the instance is mapped, and those of the same meaning that stay canonical have been told apart; it fails with -EINVAL only if one of them and another type of its kind lead by one path to types of a kind that is not compared: without forward declarations two different ones. |
| DedupEquiv.CheckedPair | libbpf/src/btf.c:4069-4180 | Without forward declarations, a pair whose comparison has finished agrees in everything but referenced ids, and its children are related again. |
| Dedup.BtfDedup.constructor | libbpf/src/btf.c:3196-3255 | The initial map: void, variables and data sections canonical, all else unprocessed. |
| Dedup.BtfDedup.ResolveTypeId | libbpf/src/btf.c:3856-3861 | Following the map terminates at the root that the map determines. |
| Dedup.BtfDedup.ResolveFwdId | libbpf/src/btf.c:3867-3881 | A forward declaration that resolves to a full type stands for it; everything else stands for itself. |
| Forest.LinkRoot | libbpf/src/btf.c:4208-4269 | Linking a root to another root keeps the map a forest and tells every new root. |
| Forest.MarkRoot | libbpf/src/btf.c:4387-4511 | Marking an unmapped id as in progress, or as canonical, keeps the map a forest. |
| Forest.RedirectToRoot | libbpf/src/btf.c:3753-3763 | Re-parenting a mapped id to a root keeps the map a forest. |
| Forest.RootIsUnique | libbpf/src/btf.c:3856-3861 | A walk along the map ends in one root only. |
| DedupInv.LinkKeepsMapInv | libbpf/src/btf.c:4208-4269 | Linking to an id of the same kind and meaning keeps the map a forest, sound, and agreeing in kinds. |
| DedupInv.SettleKeepsInv | libbpf/src/btf.c:3820-3828 | Mapping a type to itself, as a new candidate, or to what the candidate loop found keeps map and table invariants: the table holds each canonical type once, under its own hash, and no two equal ones. |
| DedupInv.EnumRedirect | libbpf/src/btf.c:3753-3763 | Pointing a memberless canonical enum at the full enum being processed keeps the invariants. |
| DedupInv.WalkMeansTheSame | libbpf/src/btf.c:3856-3861 | Every id on the way to the root has the same meaning. |
| DedupInv.MappedResolves | libbpf/src/btf.c:3846-3861 | An id of a mapped type resolves to a mapped one or to a struct still to be processed. |
| BtfTypes.InfoFields | libbpf/src/libbpf_internal.h:227-230 | Kind, length and flag come out of an info word as they went in. |
| BtfEqual.ExactEqualityIsIdentity | libbpf/src/btf.c:3372-3627 | The field-by-field comparison of each kind holds exactly of identical records. |
| BtfEqual.ShapeTestIsSameShape | libbpf/src/btf.c:3510-3656 | The comparisons that ignore referenced ids decide equality of everything else. |
| BtfEqual.FullEnumsCompatAreEqual | libbpf/src/btf.c:3463-3482 | Enums that both have members are compatible only when equal. |
| BtfEqual.CompatNotEqual | libbpf/src/btf.c:3463-3482 | When two enums are not equal but compatible, one has no members. |
| BtfEqual.MergeableHashAlike | libbpf/src/btf.c:3362-3603 | Types that may be merged have the same signature hash. |
| BtfEqual.BtfEqualEnum | libbpf/src/btf.c:3415-3433 | The loop decides the comparison of enums. |
| BtfEqual.BtfEqualEnum64 | libbpf/src/btf.c:3436-3456 | The loop decides the comparison of 64-bit enums. |
| BtfEqual.BtfShallowEqualStruct | libbpf/src/btf.c:3510-3529 | The loop decides the comparison of structs that ignores member types. |
| BtfEqual.BtfEqualFnproto | libbpf/src/btf.c:3608-3627 | The loop decides the comparison of function prototypes. |
| BtfEqual.BtfCompatFnproto | libbpf/src/btf.c:3634-3653 | The loop decides the comparison of prototypes that ignores types. |
| BtfEqual.BtfHashStruct | libbpf/src/btf.c:3489-3503 | The struct hash depends on the name, the header and the members without their types. |
| BtfEqual.BtfHashFnproto | libbpf/src/btf.c:3586-3601 | The hash of a function prototype. |
| BtfEqual.BtfHash | libbpf/src/btf.c:3660-3720 | The signature hash of every kind but variables and sections. |
| Dedup.BtfDedup.Prep | libbpf/src/btf.c:3660-3720 | Every type of the base is filed under its hash and, variables and sections excepted, canonical; this cannot fail. |
| Dedup.BtfDedup.FindEqual | libbpf/src/btf.c:3746-3826 | The loop finds an equal candidate if there is one, whatever the order in the bucket. |
| Dedup.BtfDedup.TryEnum | libbpf/src/btf.c:3748-3764 | One enum candidate: equal, or compatible with a memberless enum, or redirected to the full one. |
| Dedup.BtfDedup.FindEnum | libbpf/src/btf.c:3746-3788 | The enum loop: an equal or compatible candidate, or none equal. |
| Dedup.BtfDedup.EnumType | libbpf/src/btf.c:3746-3788 | An enum becomes mapped; nothing but enums without members and the enum itself is moved. |
| Dedup.BtfDedup.PrimType | libbpf/src/btf.c:3726-3829 | A primitive type becomes mapped; no other type does, and the invariants hold. It cannot meet an unknown kind. |
| Dedup.BtfDedup.PrimTypes | libbpf/src/btf.c:3831-3841 | The pass cannot fail, and after it every primitive type of the instance is mapped. |
| Dedup.BtfDedup.RefType | libbpf/src/btf.c:4387-4511 | One reference type with all it depends on: terminates although the recursion rewrites records in place, maps the type, rewrites each reference to its canonical id without changing any meaning, and answers -ELOOP only if the reference types have no rank. |
| Dedup.BtfDedup.RefTypes | libbpf/src/btf.c:4513-4528 | After the pass all ids are mapped, those mapped before as they were, every meaning and shape is kept, and the references of canonical types are canonical. |
| DedupRef.RewriteKeepsInv | libbpf/src/btf.c:4412-4491 | Redirecting a reference in place to its canonical id keeps every invariant of map and table. |
| DedupRef.FinishIsRank | libbpf/src/btf.c:4387-4511 | The order in which the recursion finishes is a rank of the reference types. |
| DedupRef.MarkProgress | libbpf/src/btf.c:4390-4397 | Setting the in-progress mark disturbs none of what the pass has established. |
| BtfGraph.RewriteKeepsMeaning | libbpf/src/btf.c:4412-4491 | Redirecting one reference to an id of the same meaning changes no meaning in the whole cyclic graph. |
| BtfGraph.UnfoldInverse | libbpf/src/btf.c:4020-4180 | Equal unfoldings have equal shapes and equal children one level down. |
| BtfTable.Btf.Compact | libbpf/src/btf.c:4539-4580 | In place over the overlapping data: afterwards the types are the self-mapped own types in their order, at the offsets recorded, and each has the new id that counts the kept types before it. |
| BtfTable.KeptAreOwn | libbpf/src/btf.c:4556-4575 | The kept types are the types of the kept ids, in increasing order of id. |
| BtfTable.MoveOne | libbpf/src/btf.c:4562-4572 | Moving one type down over the others destroys nothing still to be read. |
| BtfTable.Btf.TypeById | libbpf/src/btf.c:462-483 | The record an id leads to, in the base or through the offset index. |
| BtfTable.Btf.SetRef | libbpf/src/btf.c:4412-4491 | Storing a referenced id changes that reference and nothing else. |
| Dedup.BtfDedup.RemapTypeId | libbpf/src/btf.c:4593-4605 | The new id of the root that an id resolves to, or -EINVAL exactly if it has none. |
| Dedup.BtfDedup.RemapTypes | libbpf/src/btf.c:4617-4637 | All references of all types are replaced by their final ids. |
| HashMaps.HashMap.Insert | libbpf/src/hashmap.c:154-204 | All four strategies against the multiset of entries and against the entries of each key in order: what is added goes first, what is replaced stays first, -EEXIST and -ENOENT exactly when the key is or is not held, -ENOMEM exactly when the table would have to grow beyond what can be allocated, and then nothing changes. Growing turns the entries of every key round. |
| HashMaps.HashMap.Find | libbpf/src/hashmap.c:206-218 | Finds the value of the first entry of the key, in the order of its chain, exactly if there is one. |
| HashMaps.HashMap.Delete | libbpf/src/hashmap.c:220-240 | Removes the first entry of the key, and no other, exactly if there is one; the order of the rest stays. |
| HashMaps.HashMap.KeyEntries | libbpf/src/hashmap.h:174-184 | The iteration over a key visits its entries in the order of their chain, each as often as it is held, and nothing else. |
| HashMaps.HashMap.Grow | libbpf/src/hashmap.c:101-128 | Growth keeps the multiset of entries, puts each in the bucket its hash selects, and reverses the order of the entries of every key. |
| HashMaps.HashMap.RehashChain | libbpf/src/hashmap.c:117-120 | The entries of one chain move to the heads of their new buckets, in reverse order, none lost or duplicated. |
| HashMaps.HashMap.RehashAll | libbpf/src/hashmap.c:117-120 | After all buckets the entries of each key are those of its old chain, reversed. |
| HashMaps.FindAfterAppend | libbpf/src/hashmap.h:92-97 | After an append and any calls with other keys, find returns the value appended if the table has grown an even number of times since, and otherwise the value at the far end of the chain: the value appended exactly if that one is equal to it, as when the key was not held. |
| HashMaps.CallsWithOtherKeys | libbpf/src/hashmap.c:154-240 | Over any run of insertions, deletions and searches with other keys, the entries of a key are only reversed, once for each growth. |
| HashMaps.GrowthParity | libbpf/src/hashmap.c:101-128 | An even number of growths leaves the order as it was, an odd number reverses it. |
| HashMaps.GrowthHidesLastAppend | libbpf/src/hashmap.h:92-97 | Two appends of one key and two of others: find returns the first value, not the last. |
| HashMaps.HashBitsBelowCap | libbpf/src/hashmap.h:15-29 | The bucket number is always below the capacity. |
| HashMaps.HashMap.ContextOnlyMattersForHeldKeys | libbpf/src/strset.c:22-37 | If the context changes but the hashes of the held keys do not, the table stays valid. |
| Mem.AddMem | libbpf/src/btf.c:141-176 | Growing a buffer keeps its contents, zeroes the rest, and is refused exactly beyond the limit. |
| StrSets.RunInterns | libbpf/src/strset.c:116-177 | Over any run of additions and searches, refused calls among them, every offset returned stays valid and keeps denoting its string, two strings get the same offset exactly when they are equal, a search fails only if no earlier call returned an offset for its string, and a refused call changes nothing. |
| StrSets.RunFindsWhatWasAdded | libbpf/src/strset.c:116-177 | Over any run the set has what it had and what has been added, and a search that is not refused returns an offset exactly if its string was there or has been added before. |
| StrSets.Calls | libbpf/src/strset.c:116-177 | The set behaves as these runs say, and a call is refused exactly if its string, written behind the live data, goes beyond the limit. |
| StrSets.RoomStays | libbpf/src/strset.c:104-177 | If there is room for all strings of a collection, there is for any one, and after adding it for the others. |
| StrSets.RoomForAllExactly | libbpf/src/strset.c:104-177 | There is exactly if there is for all that the set does not have, each once, and a probe with the longest. |
| StrSets.ZeroIsReturned | libbpf/src/strset.c:110-141 | Offset 0 is returned exactly for the string that the data starts with, and for any string if there is no data yet. |
| StrSets.StrHashLoop | libbpf/src/hashmap.h:32-41 | The loop computes the hash of the bytes before the terminator. |
| StrSets.InternKeepsStrings | libbpf/src/strset.c:142-177 | One addition returns an offset that denotes the string and changes no earlier string. |
| StrSets.LiveStringsAreStable | libbpf/src/strset.c:22-37 | What an offset into live data denotes does not depend on anything behind the live data. |
| StrSets.StrSet.WriteProbe | libbpf/src/strset.c:121-128 | Writing the probe behind the live end, with or without reallocation, changes neither strings nor hashes nor equality of the indexed keys. |
| StrSets.StrSet.FindStr | libbpf/src/strset.c:116-134 | Finds the offset exactly of the strings present; refused exactly if the probe does not fit. |
| StrSets.StrSet.AddStr | libbpf/src/strset.c:142-177 | The new state and the offset are those of interning the string; refused, with nothing changed, exactly if the probe does not fit, or if the string is new and the index cannot grow. |
| StrSets.StrSet.IndexMayGrow | libbpf/src/strset.c:142-177 | The index can always grow: it holds each offset once. |
| StrSets.StrSet.Load | libbpf/src/strset.c:39-82 | After loading, every string of the initial data is indexed, nothing but string starts is, and offset 0 is if there is data; loading does not fail. |
| AddBtf.BtfAddBtf | libbpf/src/btf.c:1636-1718 | A successful call: the id returned is the old type count; every source id k unfolds, names compared by content, like k plus one constant in the destination, void like void; all earlier destination types keep their unfolding; a source whose base is set, with types or without, gives -ENOTSUP. It succeeds whenever the source has no base, its types and ids fit behind those of the destination, and there is room for its names, each once. |
| AddBtf.AddTypes | libbpf/src/btf.c:1657-1712 | The types are copied, rewritten and committed: the new types are those of the source with names and ids carried over. |
| AddBtf.AddedUnfoldAlike | libbpf/src/btf.c:1559-1631 | The meaning of the added types. |
| AddBtf.EarlierUnfoldAlike | libbpf/src/btf.c:1636-1718 | The types already there keep their meaning although strings were added. |
| AddBtf.AddedIsConsistent | libbpf/src/btf.c:1636-1718 | The result can be added to again. |
| AddBtf.AddPipe.RewriteStr | libbpf/src/btf.c:1559-1589 | The offset returned, from the cache or newly added, denotes in the destination the string that the old one denoted in the source; with room for all names it does not fail, and there is room for the others. |
| AddBtf.AddPipe.RewriteStrs | libbpf/src/btf.c:1686-1689 | All string offsets of one record are carried over, nothing else in it changes. |
| AddBtf.AddPipe.RewriteIds | libbpf/src/btf.c:1618-1631 | All ids of one record are shifted by the constant, void excepted. |
| AddBtf.CopyTypes | libbpf/src/btf.c:1657-1675 | Room is made behind the live types and offsets, exactly if both buffers may grow that far, and filled with a copy of the source. |
| AddBtf.AddAll | libbpf/src/btf.c:1677-1700 | The loop over the copied types. |
| AddBtf.CommitTypes | libbpf/src/btf.c:1702-1712 | The copied types become part of the instance. |
| AddBtf.BtfStrs.AddStr | libbpf/src/btf.c:1506-1526 | The string is found in the base or interned in the instance, and all earlier offsets keep their strings; one of those that there is room for is neither refused nor given an offset that an int does not hold. |
| BtfNames.RewrittenLabel | libbpf/src/btf.c:1559-1631 | A fully rewritten record has the label it had, names by content, and shifted references. |
| BtfNames.GrownKeepsNames | libbpf/src/btf.c:1506-1526 | Adding strings changes no name. |
| DumpOrder.BtfDump.DumpType | libbpf/src/btf_dump.c:265-285 | On success all that the type needs has been queued, now or by an earlier call, the whole sequence of definitions stays in order, and the call queues nothing twice and nothing again if no function type is used directly on the way; otherwise only typedefs that stand, without passing a struct, for a function type leading back to them may be doubled. -EINVAL exactly for an id out of range. -ELOOP only if the type leads to a struct that has to be defined inside itself, and exactly then if no function type is used directly on the way. |
| DumpOrder.BtfDump.OrderType | libbpf/src/btf_dump.c:457-602 | Terminates by a lexicographic measure; 1 if all that even an embedded use needs is defined, 0 if all that this use needs is; result and state are those of the functional traversal. |
| DumpOrder.BtfDump.OrderComposite | libbpf/src/btf_dump.c:507-538 | All members are ordered before the struct is queued. |
| DumpOrder.BtfDump.OrderTypedef | libbpf/src/btf_dump.c:556-576 | A typedef is queued after what it needs, or left out behind a pointer to something weak. |
| DumpOrder.BtfDump.OrderFuncProto | libbpf/src/btf_dump.c:583-594 | Return type and parameters are ordered; strong if one of them is. |
| DumpOrder.BtfDump.MarkReferenced | libbpf/src/btf_dump.c:299-363 | A type is marked exactly if some type refers to it other than as the return type of a function. |
| DumpOrder.BtfDump.AddEmitQueueId | libbpf/src/btf_dump.c:365-381 | The id is appended, whether or not the queue had to grow. |
| DumpOrder.EmittedBeforeUsers | libbpf/src/btf_dump.c:383-456 | No emitted definition embeds itself, directly or through others: the end of any chain of embeddings is first emitted before its start. |
| DumpOrder.EmbeddedFirst | libbpf/src/btf_dump.c:383-456 | Each struct, union or typedef comes after each definition it embeds through modifiers, arrays, typedefs or anonymous structs, also behind a pointer. |
| DumpOrder.PointerNeedsLess | libbpf/src/btf_dump.c:416-440 | A weak link needs nothing that the strong one would not. |
| DumpOrder.MarkDefinition | libbpf/src/btf_dump.c:525-537 | Queuing a finished definition keeps the order. |
| DumpWalk.BackOnTrail | libbpf/src/btf_dump.c:483-491 | Meeting a type that is being ordered, other than weakly, exhibits a cycle through it. |
| DumpExact.WalkOk | libbpf/src/btf_dump.c:457-602 | A visit that succeeds has finished every struct that this use needs complete, each after those that it needs itself, has come only to types reached from here, and has queued nothing twice or again, typedefs that stand for a function type leading back to them aside, and not even those if no function type is used directly on the way; an error means that a struct is reached that has to be defined inside itself. |
| DumpExact.CycleReportIsExact | libbpf/src/btf_dump.c:483-491 | A visit answers -ELOOP only if it leads to a struct that has to be defined inside itself, and exactly then if no function type is used directly, not behind a pointer, on the way. |
| DumpExact.SuccessMeansNoCycle | libbpf/src/btf_dump.c:483-491 | A visit that succeeds leads to no such struct, function types used directly aside. |
| DumpExact.FinishedIsNoCycle | libbpf/src/btf_dump.c:483-538 | No struct that has been finished has to be defined inside itself, function types used directly aside. |
| DumpExact.QueuesOnce | libbpf/src/btf_dump.c:457-602 | If no function type is used directly on the way, a visit that succeeds appends only ids that were not queued, each once, typedefs included. |
| DumpExact.StaysOpen | libbpf/src/btf_dump.c:457-602 | A typedef that is being visited is not queued by a visit nested in its own that passes no function type directly: it meets the struct in progress, and stops there. |
| DumpCases.DoublingDependsOnHistory | libbpf/src/btf_dump.c:556-594 | On one graph a typedef is queued twice by the first call, and once after a pointer to it has been dumped. |
| DumpCases.ListQueuedOnce | libbpf/src/btf_dump.c:457-602 | A typedef of a struct that points back to the typedef is queued once, behind the struct. |
| DumpCases.TypedefQueuedTwice | libbpf/src/btf_dump.c:556-594 | A typedef of a function type whose parameter points back to it is queued twice. |
| DumpCases.CycleReportDependsOnHistory | libbpf/src/btf_dump.c:483-594 | A cycle through a function type is reported when the struct is dumped first, and not after a pointer to the typedef has been dumped. |
| DumpCases.CycleReportDependsOnPointers | libbpf/src/btf_dump.c:483-594 | The same with a function type that lies on the way but on no cycle. |
| DumpCases.ReturnTypeIsUnmarked | libbpf/src/btf_dump.c:344-350 | An anonymous enum that is only a return type is not marked and is queued as a definition of its own. |
| RingBuf.RunsDeliverSamples | libbpf/src/ringbuf.c:207-246 | Under every interleaving with the producer and over any number of calls: the callback has been given exactly the committed samples below the consumer, in reservation order, each once and with the content it was committed with; consumer_pos is on a record boundary, at most producer_pos, and no busy record lies below it. |
| RingBuf.PollsDoNotMatter | libbpf/src/ringbuf.c:207-246 | What has been delivered depends only on the log and on consumer_pos, not on how the work was split over calls. |
| RingBuf.CallReturns | libbpf/src/ringbuf.c:207-246 | A call returns the number of samples it delivered, having stopped at a busy record or past all records, after it had loaded producer_pos once more and found nothing new; a failing callback ends it with the error, and its record is not delivered again. |
| RingBuf.CallEnds | libbpf/src/ringbuf.c:207-246 | A call ends within a number of steps that the records decide, if the producer is idle: with callbacks that do not fail it returns how many committed records there are up to the first busy one, or the end, and has freed the records up to there; otherwise it returns what a callback did, and has freed the record of that callback last. |
| RingBuf.StaysOnCourse | libbpf/src/ringbuf.c:207-246 | Every step of the consumer comes closer to the end of the call. |
| RingBuf.OneRecordIsConsumed | libbpf/src/ringbuf.c:207-246 | One committed record: the call delivers it and returns 1. |
| RingBuf.StepKeepsInv | libbpf/src/ringbuf.c:207-246 | Every step of consumer and producer keeps the invariant. |
| RingBuf.LoadLenKeepsInv | libbpf/src/ringbuf.c:217-227 | Loading a header: bail out if busy, else advance by one record. |
| RingBuf.CallbackKeepsInv | libbpf/src/ringbuf.c:229-239 | The callback reads the committed bytes. |
| RingBuf.StoreKeepsInv | libbpf/src/ringbuf.c:233-241 | Publishing consumer_pos frees exactly the records passed. |
| RingBuf.RunGrowsLog | libbpf/src/ringbuf.c:207-246 | The log only grows, and a finished record never changes. |
| RingBuf.StoreElsewhere | libbpf/src/ringbuf.c:217-231 | A store within reach of the ring, outside a record, leaves the record alone in spite of wrap-around. |
| RingBuf.HeaderReads | libbpf/src/ringbuf.c:194-205 | From a header the consumer reads the flags and the span of the record. |
| RingBuf.RoundupLenIs | libbpf/src/ringbuf.c:194-205 | A record takes its length plus the header, rounded up to 8. |
| Matchers.SeqMatcher.Feed | src/matcher.cpp:19-57 | The snapshot that fires, if any, is what the specification over the whole stream asks for: the segment since the last first-stage event has just seen all stages; its latest timestamps and the tid of the cut; the deltas collected follow. |
| Matchers.SeqMatcher.Drain | src/matcher.cpp:59-64 | For each completion since the last drain, and each two positions in the list of stages, one delta, at the place that the order of the list gives: stages, timestamps and thread are those of the completion, and the first timestamp plus the value is the second, modulo 2^64. What was drained before and now makes up all completions of the stream. |
| Matchers.OncePerSegment | src/matcher.cpp:27-56 | Between two completions of a slot lies a first-stage event. |
| Matchers.SegmentCompletes | src/matcher.cpp:37-56 | A segment in which all stages have been seen has completed. |
| Matchers.FeedSlot | src/matcher.cpp:25-55 | A slot fills up exactly when its segment completes. |
| Matchers.FullSlotReports | src/matcher.cpp:44-53 | And then reports the latest timestamps since the cut and the tid of the cut. |
| Matchers.ThreadsAreIndependent | src/matcher.h:68-69 | If no two threads share a slot, what a thread completes depends on its own events only. |
| Matchers.SharedSlotsMix | src/matcher.h:68-69 | Any two threads that share a slot are mixed on some stream if there are two different stages. |
| Matchers.OneStageIsIndependent | src/matcher.h:68-69 | If all stages are the same one, what a thread completes depends on its own events only, whoever shares its slot. |
| Matchers.IndependentIffNothingShared | src/matcher.h:68-69 | For a set of threads: on every stream of their events each completes what it would complete alone, if and only if no two of them share a slot or all stages are the same one. |
| Matchers.CollectDeltas | src/matcher.cpp:39-43 | One delta for each two positions in the list of stages, in order, whose value added to the first timestamp gives the second, modulo 2^64. |
| Matchers.AllDeltasReport | src/matcher.cpp:39-43 | The deltas of a list of completions report these completions, in order, and nothing else. |
| Matchers.DeltaIsTimeBetween | src/matcher.cpp:39-43 | The value is the time between the two timestamps when the first is not the later one, and otherwise what the unsigned difference wraps to. |
| Matchers.KeyMatcher.Feed | src/matcher.cpp:79-101 | What completes is what the specification over the events of that key asks for. |
| Matchers.KeyMatcher.Drain | src/matcher.cpp:103-108 | For each completion since the last drain, and each two positions in the list of stages, one delta, at the place that the order of the list gives: stages, timestamps and thread are those of the completion, and the first timestamp plus the value is the second, modulo 2^64. What was drained before and now makes up all completions of the stream. |
| Matchers.KeysAreIndependent | src/matcher.cpp:79-101 | For any interleaving the completions of a key are those of its events alone. |
| Matchers.RecordsAreIncomplete | src/matcher.cpp:85-100 | There is a record for exactly the keys whose stages seen since the last completion are a non-empty proper subset. |
| Matchers.RecordsFed | src/matcher.cpp:85-100 | One event reaches the record of its key only. |
| Fifos.FifoQueue.Push | src/matcher.cpp:120-129 | The contents gain the timestamp at the end and lose the oldest if the queue was full. |
| Fifos.FifoQueue.Pop | src/matcher.cpp:131-138 | The oldest element, exactly if there is one. |
| Fifos.PairsInOrder | src/matcher.cpp:120-138 | For every trace: nothing is lost exactly when no push finds the queue full, and then the i-th pair joins the i-th push with the i-th of the pops that find something. |
| Fifos.PairsEndAtServedPops | src/matcher.cpp:131-138 | For every trace, overflow or not: the pairs end, in order, at the pops that find something waiting, as counting pushes and pops tells, and at no others. |
| Fifos.PairOfPop | src/matcher.cpp:120-138 | A pop that finds something waiting pairs with the oldest push that is. |
| Fifos.HoldsLatestPushes | src/matcher.cpp:120-138 | The queue always holds the latest pushes, in order. |
| Fifos.PairsStartAtCompletions | src/lensx.cpp:304-317 | While nothing overflows, the i-th recorded pair starts at the i-th completion of the pushing matcher. |
| Fifos.PopsAreCompletions | src/lensx.cpp:304-317 | The pops are the completions of the popping matcher, in order. |
| Fifos.PairsJoinCompletions | src/lensx.cpp:304-317 | The recorded pairs end, in order, at the completions of the popping matcher that find the queue non-empty, and while nothing overflows start, in order, at those of the pushing matcher. |
| Fifos.OneEventBothSides | src/lensx.cpp:335-342 | When one event completes both matchers and nothing waits, the two completions are paired exactly if the pushing matcher comes first in the list. |
| Fifos.CrossSeq.HandleRingEvent | src/lensx.cpp:335-342 | After every event the recorded pairs end, in order, at the completions of the popping matcher that find the queue non-empty, and while nothing overflows start, in order, at those of the pushing matcher; pairs recorded before stay. |
| Fifos.CrossSeq.FeedMatchers | src/lensx.cpp:335-342 | Queue and recorded pairs are what the completions of the two matchers over the whole stream make of them. |
| Linker.BpfLinker.AppendElfSym | libbpf/src/linker.c:1799-1995 | One occurrence of a symbol: accepted exactly if the occurrences of its name stay admissible (and types match); then the output entry is what all of them resolve to; refused, nothing changes. |
| Linker.BpfLinker.AppendElfSyms | libbpf/src/linker.c:1209-1240 | The symbols of a file are appended exactly if the occurrences of every name are admissible. |
| Linker.BpfLinker.MergeSym | libbpf/src/linker.c:1866-1949 | Binding, visibility, section, value, size and type after one more occurrence. |
| Linker.BpfLinker.AddSym | libbpf/src/linker.c:1952-1995 | The first occurrence of a name, or a local symbol. |
| Linker.BpfLinker.FindGlobSym | libbpf/src/linker.c:1250-1265 | The first global symbol of that name. |
| Linker.MergeIsResolve | libbpf/src/linker.c:1874-1948 | What the code does to the entry is what one more occurrence asks for, and its conflict test is the admissibility test. |
| Linker.WinnerIsUnique | libbpf/src/linker.c:1874-1948 | The recorded definition is the unique strong one if there is one, otherwise the first weak one. |
| Linker.StrongDefinitionStays | libbpf/src/linker.c:1916-1937 | Section, value, size and type of a strongly defined symbol never change again. |
| Linker.WhenRulesAgree | libbpf/src/linker.c:1874-1882 | The rule that two strong definitions conflict is the rule of the code exactly when no strong definition comes after both another definition and a strong extern. |
| Linker.OneStrongDefMayBeRefused | libbpf/src/linker.c:1893-1900 | A weak definition, a strong extern and the only strong definition, in this order, are refused; in another order they are accepted. |
| Linker.AdmissibleHasOneStrongDef | libbpf/src/linker.c:1874-1882 | Two strong definitions are always refused. |
| Linker.MaxVis | libbpf/src/linker.c:1902-1909 | The visibility is the strictest of all occurrences. |
| Endian.RoundTrip | libbpf/src/btf.c:1243-1291 | Emitting a table in either byte order and parsing it again gives the same header, types and strings, and nothing else, exactly when the header puts the strings directly behind the types and, for the other byte order, has the standard length; otherwise what was emitted cannot be parsed. |
| Endian.GetRawData | libbpf/src/btf.c:1243-1287 | The data is the header with all its bytes, the types and the strings, every field and every word written in the byte order asked for, lowest or highest byte first. |
| Endian.Parse | libbpf/src/btf.c:854-902 | The table that the bytes hold, with header, types, offsets and strings, exactly if they hold one, every field and every word being read in the byte order of the data; an empty string section is accepted exactly if a base is set. |
| Endian.ParseHdr | libbpf/src/btf.c:220-267 | The checks of the header, in native and swapped byte order. |
| Endian.ParseTypeSec | libbpf/src/btf.c:413-449 | The type section is decoded, in place, exactly if it consists of well-formed records. |
| Endian.BswapTypeRest | libbpf/src/btf.c:336-411 | All words behind the first three are swapped, for every kind. |
| Endian.SwapElems | libbpf/src/btf.c:352-404 | The loops over elements swap all their words and no others. |
| Endian.BswapTypeBase | libbpf/src/btf.c:329-334 | The first three words are swapped. |
| Endian.EmitOne | libbpf/src/btf.c:1266-1278 | The rest is swapped while the info word still reads right, and then the base. |
| Endian.DecodesOneWay | libbpf/src/btf.c:413-449 | A prefix of the words decodes in one way only. |
| Endian.BswapBytes | libbpf/src/btf.c:210-218 | A swapped value has the bytes of the value in the opposite order. |
| Endian.ReadInOrder | libbpf/src/btf.c:220-237 | A header is of the other byte order exactly if its magic number reads right with the highest byte first, and swapping its fields is reading it so. |
| Endian.WordsInOrder | libbpf/src/btf.c:413-449 | Swapping the words of data of the other byte order is reading them with the highest byte first. |
| Endian.HeaderBytes | libbpf/include/uapi/linux/btf.h:11-23 | Every field of a header has its place in the bytes, and its byte order. |
| Endian.OneIntEmitted | libbpf/src/btf.c:1243-1287 | The table with one int, byte by byte, in both byte orders. |
| Endian.LoadStored | libbpf/src/btf.c:1263-1281 | Words that were stored are loaded again. |
| Endian.LoadStoredHdr | libbpf/src/btf.c:1263-1265 | A header that was stored is loaded again, whatever follows it. |
| Endian.EmittedHeader | libbpf/src/btf.c:210-267 | The header of what was emitted reads as the table's, and describes the data exactly when the strings follow the types. |

## Left out

- Forward declarations and enums without members: their meaning. The code resolves them by name and kind and says that this can be wrong (btf.c:3970-3976); they are kept in the forest, kind and remap properties.
- Sharing of structs is not maximal, and which of several structs with two copies of something are left apart depends on the order of the table; the model says what two structs left apart have in common, not that every such pair is.
- DedupBtf.DedupAll: -EINVAL is explained, not predicted: whether the two types that cannot be compared are met depends on the order of the candidates and on what has been told apart before on the way. All of `.BTF.ext`, whose strings the string pass keeps as well.
- Failing allocation: growing a buffer never fails below its limit, so that -ENOMEM means that a limit is exceeded. Growing a hash map to 2^61 buckets, whose allocation overflows, answers -ENOMEM.
- Chains of the hash map are sequences, not linked nodes, so aliasing between nodes is not captured.
- AddBtf.BtfAddBtf: source, destination and the base of the destination are different instances: the strings of the source are a value that no call changes. In the code a source that is the destination itself, or its base, hands over strings that lie in a buffer being reallocated or freed (strset.c:156-162, btf.c:1472-1493). The state after an error is not described either; the rollback of the code touches `strs_data`, which is NULL once the table is modifiable.
- AddBtf.BtfStrs.AddStr: a base has no base of its own, and no strings have been added to it since.
- Fields of the header that mirror buffer lengths are left out of `Btf`, `typeLen` excepted.
- Endian.Parse: the host is little-endian. The caches `raw_data` and `raw_data_swapped` are not modelled.
- Endian.GetRawData: the header is at least as long as `struct btf_header`, as every header is that libbpf builds. A shorter one, which the parser accepts in native byte order, is not emitted in the model: once the table is modifiable the code has a copy of that many bytes only (btf.c:1424-1431) and reads fields behind them.
- DumpOrder.BtfDump.DumpType: what a call that fails leaves behind, growing the state table when types are added later, and the emission of text.
- Cycles of the graph to be dumped pass through a struct or a union (the constructor takes a rank as witness); on other graphs the recursion of the code does not end.
- RingBuf.RunsDeliverSamples: positions are unbounded; 2^64 bytes would have to pass before they wrap. A header is stored and loaded as one cell. Summing and clamping over several rings, epoll and mmap are left out.
- Matchers.SeqMatcher.Feed: masks are sets of stages, and stages are below 64. The callbacks are what `CrossSeq` does with the snapshot.
- Fifos.FifoQueue.Push: the counters have not reached 2^31-1, and the capacity is positive. The message on overflow is left out.
- Fifos.CrossSeq.HandleRingEvent: one report across two matchers; histograms and the second recording of deltas at the end of the run are left out, and so is the check of the size of an event.
- Linker.BpfLinker.AppendElfSym: whether BTF types match is an input; definitions lie in a section that is not skipped; names are strings rather than offsets; section symbols, relocations and section layout are left out.
- The rest of libbpf (loading, ELF, netlink, CO-RE, `gen_loader.c`), the probes, YAML parsing, histograms and reports.
