# Verified model of VitaMonoLoader's data-structure cores

VitaMonoLoader-vitasdk carries, between its start-up code and the Mono headers, a handful of complete algorithms on
pointers, arrays and dictionaries. This project models them in Dafny, in the imperative form they have in C and
Python, and proves what they are for:

- **The list sort of eglib** (`headers/mono/eglib/sort.frag.h`), the main part. `do_sort` peels nodes off in pairs,
  `insert_list` pushes each run into an array of ranks that behaves like a binary counter, `sweep_up` folds the array,
  and `merge_lists` relinks nodes in place. Proved for every list, every comparator and every array length: the
  result is a NULL-terminated chain of exactly the input nodes; for a comparator that is a total preorder on them it
  is *the* stable sorted arrangement. For every comparator, consistent or not, result and number of comparisons are
  exactly those of a recursive mergesort that splits at the largest power of two; on n nodes that is at most
  n * floor(log2 n) comparisons, and the array is never exhausted, unless n >= 2^(MAX_RANKS+1); in that case, and only
  then, the branch for a full array is taken. `MAX_RANKS` as computed by the macro is the least value that rules that
  case out for lists that fit in the address space. For insertions of lists of any ranks, in any order, the merges of
  N nodes take at most 2 * N * floor(log2 N) comparisons.
- **The environment store** (`VMLCoreAssemblies/environment.c`): get, set and unset over a NULL-terminated array of heap
  strings. Over every sequence of calls, with allocations failing at will, it answers exactly like a map from names to
  values; every string block is owned once, freed once and read only while live, even when an argument points into
  the store.
- **The symbol rewriting tool** (`tools/replace-nid-symbols-sce.py`): the two passes over a library's section, with
  exact conditions for what they keep, add and leave alone, and for a second run changing nothing.
- **Memory-pool lists, handle-stack marks and the subclass test** (`mempool-internals.h`, `handle.h`,
  `class-internals.h` under `headers/mono/metadata`).

## How it is built

| file | content |
|---|---|
| `StableMerge.dfy` | merging and stable sorting of sequences: merge is associative for any total preorder, so merging adjacent sorted blocks sorts; insertion sort is the only sorted and stable arrangement |
| `BinaryCounter.dfy`, `RankLists.dfy` | bits, bit length, floor of the logarithm; the rank array as a sequence of blocks, its conservation laws and the comparison accounting for rank-0 insertions |
| `MergeTree.dfy` | the runs and the exact numbers of comparisons of sweeps and insertions; the recursive mergesort whose merge tree the rank array holds |
| `RankCosts.dfy` | the comparison accounting for insertions of any ranks |
| `ListSort.dfy`, `RankedSort.dfy` | nodes, chains, `merge_lists`; the `SortInfo` class, `sweep_up`, `insert_list`, `do_sort` |
| `MaxRanks.dfy` | the macros `FLOOR_LOG2` and `MAX_RANKS` |
| `CStrings.dfy`, `EnvironmentSpec.dfy`, `Environment.dfy` | `strncmp` and `snprintf`; the store on values and as a map; the store in memory |
| `OrderedDict.dfy`, `DefaultNames.dfy`, `NidSymbols.dfy`, `NidUpdate.dfy` | insertion-ordered dictionaries; default names and hexadecimal numbers; the passes on values; the functions that update dictionaries in place |
| `MempoolLists.dfy`, `HandleStack.dfy`, `ClassHierarchy.dfy` | the smaller cores |
| `Options.dfy` | a value that may be absent |

Modelling choices that matter when reading the contracts:

- A chain is described by the ghost sequence of its nodes. The sort reads `data` and never assigns it, so `data` is a
  constant field and comparators apply to nodes through it; blocks of input are sequences of nodes, so stability
  speaks of node identities.
- A slot of the rank array is `Uninitialised` until it is first assigned, and only an assigned slot can be read. That
  `insert_list` and `sweep_up` verify shows that they never look past `n_ranks`.
- `*pos` in `merge_lists` is `SetLink`: a null `pos` stands for the variable holding the head. The bodies of the loops
  in `sweep_up` and `insert_list` are the shared method `SortInfo.AbsorbNext`; the end of `insert_list` is
  `SortInfo.Store`.
- The length of the rank array is a parameter, at least 1. `insert_list` needs, and requires, only the lower half of
  its stated precondition on the length of the list.
- `malloc` and `realloc` succeed or fail as parameters of `SetEnv` say. The ghost set `live` holds the string blocks
  that have been allocated and not freed; reading or freeing a block requires it to be in the set.
- The regular expression of `ishexstring` also accepts a line feed after the digits, because `$` does; so does the model.
- `replace_entries` raises `KeyError` for a default name in a library without findings, after it has emptied the
  section; the model returns that outcome and the partial section.
- `VMLUnsetEnv` of an absent name returns -1, unlike `unsetenv` in the System Interfaces volume, section 3, of
  POSIX.1-2017; the model follows the code.
- The comment on `MAX_RANKS` subtracts the logarithm of `sizeof digit`, a pointer; the macro uses `sizeof (list_node)`,
  and so does the model.
- `mono_class_setup_supertypes`, `mono_handle_new` and `g_list_last` are only declared in the repository. The first
  and last are given bodies that meet the contract their callers rely on; a handle push is any append-only step.

## Model

| member | source | states |
|---|---|---|
| RankedSort.DoSort | headers/mono/eglib/sort.frag.h:183-208 | for every list and comparator: a NULL-terminated chain of exactly the input nodes, in the order and with exactly the number of comparisons of the recursive mergesort `TopDown`; for a total preorder the stable sort; the full-array branch is taken iff n >= 2^(MAX_RANKS+1); otherwise at most n * floor(log2 n) comparisons |
| MergeTree.TreeStep | headers/mono/eglib/sort.frag.h:111-118 | the ranks array captures the recursion of a mergesort: after each rank-0 insertion every slot holds the result of the recursion on its part of the input, and the comparisons made are exactly those of these recursions, also after the array was full |
| MergeTree.TreeSweep | headers/mono/eglib/sort.frag.h:100-103 | a sweep continues these recursions into the one on all the input it meets, comparison for comparison |
| MergeTree.TreeEnd | headers/mono/eglib/sort.frag.h:207 | the last sweep completes the recursion on the whole input |
| MergeTree.SplitAtPower | headers/mono/eglib/sort.frag.h:111-118 | the recursion splits at the largest power of two below the length, for all lengths up to 2^(MAX_RANKS+1) |
| MergeTree.TopDownCountAtLeast | headers/mono/eglib/sort.frag.h:117-118 | for 2^h nodes at least h * 2^(h-1) comparisons are made, whatever the comparator |
| MergeTree.MergeCountBounds | headers/mono/eglib/sort.frag.h:73-83 | a merge of m and n elements makes at least min(m, n) and at most m + n - 1 comparisons, none if a list is empty |
| MergeTree.InsertBounds | headers/mono/eglib/sort.frag.h:135-163 | the exact count of an insertion of any rank is within the bound from the lengths of the lists alone |
| StableMerge.SortCharacterised | headers/mono/eglib/sort.frag.h:72-82 | a sequence is the insertion sort of the input iff it is a sorted arrangement of it in which equivalent elements keep their input order |
| StableMerge.MergeAssociative | headers/mono/eglib/sort.frag.h:72-82 | with ties going to the first list, merging is associative for every total preorder, sorted or not |
| StableMerge.SortConcat | headers/mono/eglib/sort.frag.h:100-103 | merging the sort of an older block with that of the next newer block gives the sort of both blocks together |
| StableMerge.MergePermutes | headers/mono/eglib/sort.frag.h:73-83 | for every comparator merging keeps every element, with its multiplicity |
| StableMerge.MergeRuns | headers/mono/eglib/sort.frag.h:100-103 | merged runs are a run of the concatenated blocks |
| ListSort.MergeLists | headers/mono/eglib/sort.frag.h:67-85 | relinks two disjoint chains into the one chain of their merge, changing only `next` fields, with exactly the comparisons of the merge |
| RankedSort.SortInfo.constructor | headers/mono/eglib/sort.frag.h:59-65 | an empty, valid array whose slots need no initial value |
| RankedSort.SortInfo.Absorb | headers/mono/eglib/sort.frag.h:101-102 | the older list of a slot absorbs a younger list; the slot is emptied, the other slots are untouched, no input is lost or reordered, and exactly the comparisons of that merge are added |
| RankedSort.SortInfo.SweepUp | headers/mono/eglib/sort.frag.h:87-104 | starting at min_rank loses nothing: exactly the slots below `upto` are emptied, and the result is a run of their blocks, oldest first, followed by the argument's; the order of the merges and their comparisons are exact |
| RankedSort.SortInfo.CarryUp | headers/mono/eglib/sort.frag.h:160-163 | stops at the first free slot, having merged all the full ones before it |
| RankedSort.SortInfo.InsertList | headers/mono/eglib/sort.frag.h:135-176 | for every rank, including ranks above n_ranks and above MAX_RANKS: where the list goes, which merges make it up and exactly how many comparisons they take, which slots are emptied, the new min_rank and n_ranks; slot i keeps at least 2^(i+1) nodes, no occupied slot is overwritten, the consumed input grows by the list's block, and the invariant `Paid` is kept |
| RankCosts.PaidStep | headers/mono/eglib/sort.frag.h:120-129 | over insertions of any ranks, lower ranks being cleared out, all merges so far took at most the sum over the slots of 2 * i * length comparisons, the highest slot in use is occupied, and the branch for a full array is only taken once 2^(MAX_RANKS+1) nodes are stored |
| RankCosts.PaidEnd | headers/mono/eglib/sort.frag.h:111-130 | mixed ranks stay O(n log n): after any such insertions the last sweep ends with at most 2 * N * floor(log2 N) comparisons for N nodes, or N >= 2^(MAX_RANKS+1) |
| RankCosts.InsertClimbs | headers/mono/eglib/sort.frag.h:135-163 | an insertion ending in slot `carry` takes at most two comparisons for each node and slot it climbs, and one for each node of the new list and slot below `carry` |
| RankCosts.ClimbInStages | headers/mono/eglib/sort.frag.h:120-129 | the slots climbed by clearing out the lower ranks first, and carrying afterwards, add up to those of one sweep |
| RankedSort.SortInfo.Store | headers/mono/eglib/sort.frag.h:166-171 | the slot written is free, also when every rank was full and the last slot is used |
| RankedSort.TakePair | headers/mono/eglib/sort.frag.h:192-200 | cuts off the first two nodes, in order and NULL-terminated, through the two-node cycle of the swap |
| RankedSort.SortStep | headers/mono/eglib/sort.frag.h:191-205 | one iteration advances the counter by one, consumes exactly the next two nodes, leaves the unread tail a list, and makes min_rank the lowest set bit of the count |
| RankedSort.Finish | headers/mono/eglib/sort.frag.h:207 | the last sweep with zero or one node left over returns a run of the whole input within the comparison bound |
| RankedSort.FinalSweep | headers/mono/eglib/sort.frag.h:207 | the slots hold exactly the input consumed so far, and sweeping them into what is left over gives a run of the whole input |
| RankLists.CounterStep | headers/mono/eglib/sort.frag.h:111-118 | after k rank-0 insertions slot i is occupied iff bit i of k is set, by exactly 2^(i+1) nodes, n_ranks is the bit length of k and the next insertion lands on the lowest set bit of k + 1, as long as k < 2^MAX_RANKS |
| RankLists.CountsStep | headers/mono/eglib/sort.frag.h:111-118 | carrying through the full slots is adding one, and its merges are paid for by the new run |
| RankLists.CountsFull | headers/mono/eglib/sort.frag.h:166 | every slot is occupied iff the next insertion is number 2^MAX_RANKS |
| RankLists.CarryCost | headers/mono/eglib/sort.frag.h:111-118 | building a run of 2^(i+1) nodes takes at most i * 2^(i+1) + 1 comparisons, carries included |
| RankLists.FinalSweepCost | headers/mono/eglib/sort.frag.h:100-103 | what is spent on the runs plus a sweep of all slots is at most nodes * ranks |
| RankLists.CounterEnd | headers/mono/eglib/sort.frag.h:207 | the total number of comparisons is at most n * floor(log2 n) |
| RankLists.TakeLowest | headers/mono/eglib/sort.frag.h:101-102 | the lowest occupied slot holds the youngest of the stored nodes |
| RankLists.PutLowest | headers/mono/eglib/sort.frag.h:170-171 | storing below every occupied slot keeps age order |
| BinaryCounter.Increment | headers/mono/eglib/sort.frag.h:111-118 | adding one clears the trailing ones, sets the next bit and keeps the higher bits |
| BinaryCounter.BitsAddUp | headers/mono/eglib/sort.frag.h:111-118 | the bits of a count, weighted by their powers of two, add up to it |
| BinaryCounter.FloorLog2Bounds | headers/mono/eglib/sort.frag.h:40-47 | 2^(floor log2 n) <= n < 2^(floor log2 n + 1) |
| MaxRanks.MacroIsFloorLog2 | headers/mono/eglib/sort.frag.h:47 | the sum of comparisons is the floor of the logarithm below 256 and 7 from there on |
| MaxRanks.ListFitsRanks | headers/mono/eglib/sort.frag.h:40-48 | a list whose nodes fit in the address space has fewer than 2^(MAX_RANKS+1) nodes |
| MaxRanks.MaxRanksIsLeast | headers/mono/eglib/sort.frag.h:40-48 | for nodes of less than 256 bytes MAX_RANKS is exactly the least number of ranks that is enough for every list that fits in the address space |
| Environment.Store.GetEnv | VMLCoreAssemblies/environment.c:11-32 | returns a readable pointer to the value that the map holds for the name; NULL exactly if the name is NULL, empty, contains '=' or is absent |
| Environment.Store.SetEnv | VMLCoreAssemblies/environment.c:34-89 | refines the map update for every outcome of the allocations and every aliasing of the arguments with stored strings; refused with -1 for a NULL, empty or '='-bearing name and a NULL value, else status and new map are spelled out for each case; a failed call changes nothing, leaks nothing and frees nothing |
| Environment.Store.UnsetEnv | VMLCoreAssemblies/environment.c:91-114 | removes exactly the variable and returns 0; -1, changing nothing, exactly if the name is absent, NULL, empty or contains '=' |
| Environment.Store.ShiftLeft | VMLCoreAssemblies/environment.c:106-108 | the loop, which tests slots it is overwriting, removes just one entry, keeps the order of the others and ends in NULL |
| Environment.Store.Insert | VMLCoreAssemblies/environment.c:61-88 | an entry of the same name is freed and replaced in place; a new name is appended last; a failed realloc frees the new string and keeps the store |
| Environment.Store.FindByName | VMLCoreAssemblies/environment.c:103-104 | compare-then-test finds the first entry of the name without reading past a terminator |
| Environment.Store.FindByEntry | VMLCoreAssemblies/environment.c:64-69 | comparing with the new entry up to its '=' finds the same entry |
| EnvironmentSpec.RunRefines | VMLCoreAssemblies/environment.c:11-114 | over every sequence of calls and allocation failures the replies are those of a map, and the entries stay well formed, with distinct names, and represent the map |
| EnvironmentSpec.CallThenGet | VMLCoreAssemblies/environment.c:11-114 | for all names that are not empty and have no '=': what each kind of call answers and what is then read under the same and under any other name, with and without overwriting and with each allocation failing |
| EnvironmentSpec.StoredThenRead | VMLCoreAssemblies/environment.c:11-114 | in the store too, a value set is read back and a variable unset is gone |
| EnvironmentSpec.SetAccepted | VMLCoreAssemblies/environment.c:41-44 | a set with enough memory succeeds iff the name is neither missing nor empty nor bears an '=' and there is a value; refused names are refused by every call |
| EnvironmentSpec.StepRefines | VMLCoreAssemblies/environment.c:11-114 | one call does to the map what the specification says and gives the same reply |
| EnvironmentSpec.MatchesExactly | VMLCoreAssemblies/environment.c:25-26 | prefix lookup is exact: an entry matches a name without '=' iff it is the name before its first '=' |
| EnvironmentSpec.EntryParts | VMLCoreAssemblies/environment.c:57-59 | what was stored under a valid name is read back, even if the value contains '=' |
| EnvironmentSpec.CompareThenTest | VMLCoreAssemblies/environment.c:103-104 | the test of get and unset accepts exactly the matching entries and never reads past the terminator |
| EnvironmentSpec.CompareWithEq | VMLCoreAssemblies/environment.c:64-68 | the test of set accepts exactly the matching entries |
| CStrings.StrNCmpEqPrefix | VMLCoreAssemblies/environment.c:25 | the length-limited comparison with terminators is equality of the first n characters |
| NidSymbols.CoversExactly | tools/replace-nid-symbols-sce.py:46-74 | for every input: the declared NIDs afterwards are the old ones and all found ones iff renaming keeps each NID that is not found (an entry carries it whose new name no later entry gets), and no addition overwrites the last entry of a NID that is not still to come |
| NidSymbols.SyncCovers | tools/replace-nid-symbols-sce.py:46-74 | consequence for sections in the form the tool is meant for: if default names carry their own NID, found symbols are distinct and no entry uses a found symbol for another NID, nothing is lost and the missing entries come last |
| NidSymbols.ConditionsNeeded | tools/replace-nid-symbols-sce.py:46-74 | examples for the exact condition: three inputs, each violating just one of the simple conditions, that lose a NID, and one that violates a simple condition and loses nothing |
| NidSymbols.OthersUntouched | tools/replace-nid-symbols-sce.py:46-74 | for every input, entries that are neither default names of found NIDs nor found symbols keep name, NID and order |
| NidSymbols.SyncIdempotent | tools/replace-nid-symbols-sce.py:46-74 | for every input: a second run changes nothing and counts nothing iff the first one kept all found NIDs while adding and neither pass gave a name that is a default name to rename |
| NidSymbols.SoundIdempotent | tools/replace-nid-symbols-sce.py:46-74 | under the simple conditions, that is the case iff no renamed entry and no symbol found for an undeclared NID is such a name |
| NidSymbols.SecondRunRenames | tools/replace-nid-symbols-sce.py:57-74 | an input meeting the simple conditions whose second run counts a rename, though it changes nothing |
| NidSymbols.FixedPoint | tools/replace-nid-symbols-sce.py:46-74 | a section is left alone, with zero counts, iff it declares every found NID and has no default name to rename |
| NidSymbols.ReplacedExactly | tools/replace-nid-symbols-sce.py:57-74 | renaming happens in place and loses no entry iff no two entries get the same name |
| NidSymbols.NidsKeptExactly | tools/replace-nid-symbols-sce.py:57-74 | for every section: no declared NID is lost by renaming iff each is carried by an entry whose new name no later entry gets |
| OrderedDict.PutAllPairs | tools/replace-nid-symbols-sce.py:57-74 | refilling an empty dictionary leaves exactly the pairs that are the last assignment to their key |
| NidSymbols.AddedExactly | tools/replace-nid-symbols-sce.py:46-55 | the missing entries are appended, and nothing else changes, iff none of their symbols is taken |
| NidSymbols.RenamingExactly | tools/replace-nid-symbols-sce.py:57-74 | the entries assigned are those in which every default name of a found NID, and no other name, gives way to the symbol found for that NID, and every NID stays |
| NidSymbols.CountRenamedExactly | tools/replace-nid-symbols-sce.py:57-74 | the count is the number of entries with a default name of a found NID |
| NidSymbols.NoneLeft | tools/replace-nid-symbols-sce.py:57-74 | afterwards a default name of a found NID is only left if it is itself a found symbol |
| NidSymbols.AddedSnoc | tools/replace-nid-symbols-sce.py:46-55 | each iteration adds its symbol, and counts, iff its NID is not declared by what the earlier ones have made of the section |
| NidSymbols.MissingOrder | tools/replace-nid-symbols-sce.py:46-55 | missing entries come in the order in which their NIDs were found |
| OrderedDict.PutInPlace | tools/replace-nid-symbols-sce.py:44 | an assignment to a present key keeps the length and the key at every position; a new key goes to the end |
| OrderedDict.PutAllOrder | tools/replace-nid-symbols-sce.py:57-74 | keys stand in the order of their first assignment |
| DefaultNames.DefaultNidExactly | tools/replace-nid-symbols-sce.py:62-65 | a name is taken for the default name of v iff it is the library, an underscore and the digits of v to base 16, in either case, with any leading zeros and perhaps a final line feed |
| DefaultNames.ReadsBack | tools/replace-nid-symbols-sce.py:65 | a number written by repeated division by 16, with either digit table and any leading zeros, is read back |
| DefaultNames.WritesBack | tools/replace-nid-symbols-sce.py:65 | every string of hexadecimal digits is, but for case and leading zeros, what its value is written as |
| DefaultNames.HexDigitExactly | tools/replace-nid-symbols-sce.py:10-11 | the digits accepted are 0-9, a-f and A-F |
| DefaultNames.RSplitInverse | tools/replace-nid-symbols-sce.py:62 | splitting at the last underscore recovers the parts, whatever underscores the library has |
| NidUpdate.Collected.AddEntry | tools/replace-nid-symbols-sce.py:41-44 | a NID found again takes the symbol found last and keeps its place, a new one goes to the end; other libraries and NIDs are not touched |
| NidUpdate.Entries.ReplaceEntries | tools/replace-nid-symbols-sce.py:57-74 | the section is refilled with exactly the properly renamed entries, the count is the number of default names of found NIDs, and none of these is left unless it is a found symbol; without findings it fails at the first default name, leaving only the entries before it |
| NidUpdate.Entries.AddMissingEntries | tools/replace-nid-symbols-sce.py:46-55 | the loop, whose test sees the entries it has added, computes the extended section and its count |
| NidUpdate.UpdateSection | tools/replace-nid-symbols-sce.py:112-117 | a section is created if missing, updated by both passes and dropped if empty; `edited` is positive iff it was or something was counted; it fails iff the library has no findings and the section has a default name, and then keeps just the entries before the first one |
| MempoolLists.SListPrepend | headers/mono/metadata/mempool-internals.h:31-41 | the list with one new node in front |
| MempoolLists.SListAppend | headers/mono/metadata/mempool-internals.h:43-62 | the list with one new node at the end, for every list |
| MempoolLists.ListPrepend | headers/mono/metadata/mempool-internals.h:13-29 | at any node of a doubly linked list: the new node stands immediately before it, linked consistently on both sides |
| MempoolLists.ListAppend | headers/mono/metadata/mempool-internals.h:64-76 | from any node of a doubly linked list: the new node is linked consistently at the very end |
| HandleStack.FrameRestores | headers/mono/metadata/handle.h:144-171 | leaving a frame restores exactly the handles and the top chunk of its entry, for every nesting of frames inside |
| HandleStack.ExecAppends | headers/mono/metadata/handle.h:144-171 | every run of pushes and nested frames is append-only as a whole |
| HandleStack.ExecThen | headers/mono/metadata/handle.h:144-171 | steps are taken one after the other: what follows a frame starts in the state reached by leaving it |
| HandleStack.PushedAfterFrame | headers/mono/metadata/handle.h:159-171 | what is pushed after an inner frame was left stays until the outer frame is left |
| HandleStack.HandleAt | headers/mono/metadata/handle.h:78-88 | the contents are each chunk's handles up to its size, from the bottom chunk to the top one, and nothing else |
| HandleStack.PopRestores | headers/mono/metadata/handle.h:159-171 | popping a mark after any append-only step gives back the contents it was taken at |
| HandleStack.AppendOnlyAppends | headers/mono/metadata/handle.h:78-88 | an append-only step leaves the earlier contents as a prefix of the later ones |
| HandleStack.HandleStack.MarkInit | headers/mono/metadata/handle.h:144-157 | records size and chunk of the top |
| HandleStack.HandleStack.MarkPop | headers/mono/metadata/handle.h:159-171 | sets the marked chunk's size and the top, and nothing else |
| ClassHierarchy.HasParentFast | headers/mono/metadata/class-internals.h:599-603 | for classes with tables the two comparisons answer whether the parent is reached by zero or more parent links |
| ClassHierarchy.DescendsAt | headers/mono/metadata/class-internals.h:602 | an ancestor is exactly the class found at the distance given by the depths |
| ClassHierarchy.HasParent | headers/mono/metadata/class-internals.h:605-615 | the same answer after setting up missing tables, which changes no table that is there |
| ClassHierarchy.SetupSupertypes | headers/mono/metadata/class-internals.h:590-591 | the contract relied on: exactly the class and its ancestors below the first one that has a table get one; all tables are correct and those already there are kept |

## Left out

- The start-up and module-loading programs, the samples and the remaining Mono headers: calls into the system and declarations without algorithms.
- The sort's `prev` pointers (the source does not maintain them), compiler pragmas and the text of the warning.
- Comparators with state: a comparator is a function of the two payloads, consistent or not.
- Environment.Store.SetEnv: does not model overflow of the size computations, because lengths are unbounded here; logging, threads and the libc-named wrappers are not modelled, nor is the lifetime of a value pointer kept by a caller across later calls.
- Environment.Store.Realloc: the old array is simply no longer referenced after a successful call; its release is not tracked.
- Running objdump, scanning its output, reading and writing YAML and the command line of the symbol tool.
- NidUpdate.UpdateSection: one section of one library; the loops over modules and libraries repeat it for functions and variables.
- HandleStack.HandleStack.MarkPop: memory barriers, the debug-only tracking fields and a collector that rewrites handles are not modelled.
- ClassHierarchy.SetupSupertypes: does not model the 16-bit width of `idepth`, because the code that assigns it is not in the repository.
- `tools/clean-nids.py` and the fixed-width bit macros, which would only add easy members.
