# Verified models of two recorded runtimes

The repository records programs together with the runtime code they ran on: the Nim
2.2.4 runtime as generated C, and the Go 1.25.5 standard library. This project models
the hard parts of both and proves what they promise. `dafny verify dfyconfig.toml`
checks all of it.

**Nim ORC cycle collector** (`OrcGraph`, `OrcSpec`, `OrcComplete`, `Orc`). Cells with a count and a
colour in one header word, fields that are set to nil in place, a trace stack shared by
two nested loops. For every heap with exact counts a collection from any part of the
candidate roots frees exactly the cells that the roots reach and that nothing held from
outside reaches, each once, and leaves exact counts; the shortcut that skips scanning is
taken exactly when scanning would change nothing. The operations that change references
between collections keep the same invariant, and keep the candidates such that they reach
all garbage there is (`Heap.Complete`): so a full collection leaves exactly the cells that
variables reach. An operation that skips a candidate may rely on the type's promise that
the cell lies on no cycle, and on nothing else.

**Nim allocator**. `SizeClasses`, `Bitmaps`, `FreeMatrix` and `PageSet` are the index of
unused chunks: rounding, two levels of bitmaps over doubly linked lists, and the hashed
set of chunk starts. `ChunkTiles`, `ChunkBooks` and `ChunkAlloc` are the chunks: split,
merge with both neighbours although the recorded size of the one in front may be stale,
requests to the system. `SmallPages`, `SmallSteps` and `SmallCells` are the cells of one
size in pages, and how they move between pages; `SharedFreeList` is the list that other
threads push to. In every state what is handed out is disjoint, the free memory is the
total of the unused chunks, the system is asked exactly when no unused chunk is large
enough, and every account of a page is exact, and so is the account of bytes handed out.
After a chunk is freed no unused chunk touches it, unless one of the two has the largest
size; an idle page goes back to the chunks. Also proved: at most one page of each size
class has room, so the list of a class never has two pages.

**Go reflect calls** (`AbiTypes`, `AbiKinds`, `AbiSequence`, `AbiMemory`,
`AbiCalls`, `AbiReceiver`, `AbiRoundTrip`, `FrameMaps`). The assignment of arguments of arbitrary nested types to registers and
stack with its roll back, the translation between two layouts in callMethod, and a call
through Values of a function made of Values. For every signature no two steps clash,
every argument arrives, the panics on the way are not reached, and the bitmap of the
frame marks exactly the words that hold pointers. The comment in value.go at lines
1008-1010 says that a value on the stack without a receiver is on the stack with one as
well. The code does not need that, and it is not so: `StackToRegister` gives a signature
for every machine with two integer registers or more, and `SomeStackToRegisterIff` says
for all machines and signatures when it happens.

**Go reflect type algorithms** (`PtrBits`, `FieldPaths`, `FieldLookup`). The two
builders of pointer bitmaps agree for every array type, and the search for a promoted
field finds exactly what section "Selectors" of the Go Programming Language
Specification selects, over cyclic embedding. FieldByName differs from that rule where
two top-level fields have the name, and for an empty name; its contract says how.

**Go path.Match** (`PathPattern`, `PathMatch`, `PathForms`). The error is returned exactly for
malformed patterns. The greedy matcher is sound for all inputs, and complete unless a
chunk between two stars has a class that matches a slash, or is more than literals in a
name that is not ASCII; `MatchLoses` has an input of each kind where it is not. A star
of the grammar takes bytes here, as it does in the code. `PathForms` says what each form
of pattern matches, from its bytes, and that characters are read as UTF-8 encodes them.

**Two protocols**. `ProcHandle` is the reference count of a process handle and `Pipe`
the synchronous pipe, each as atomic steps of any number of threads in any order; a read
that got bytes returns with its acknowledgement. `ProcEnds` and `PipeEnds` tell from the
calls of a run alone how it can end: who set the status, which errors reads and writes
get, and what can no longer happen after a close. The
fields `owner`, `closer`, `pair` and `log` only record what has happened; no step reads
them.

**Go fmt for integers** (`FmtDigits`, `FmtText`, `FmtInteger`, `FmtParse`). From the
directive to the text: flags, indexes, width and precision are read, the number is
written right to left into a buffer that always has room, and the text reads back as the
integer in the base that the verb stands for, with the sign, the prefix, the width and the
side that the flags ask for (`PrintedIs`). For %O the room needs the base to be 8 or 10 (`FitsIff`), which the callers
keep.

How the models are made. Objects whose fields the original updates are classes with the
same fields, and loops are loops. Their invariants are predicates over values, with a
lemma for each kind of step, and the methods apply those lemmas. Addresses and cells are
numbers, memory a map from addresses to records; ghost parameters of methods only name
the sets that a phase is about. Arithmetic with `& 0xF`, `>> 4` and the like is written
with `%` and `/`, words used as sets of bits are bit vectors. The operating system, the
answers of strconv.IsPrint, what the garbage collector leaves in registers and whether
system calls succeed are parameters.

## Model

| member | source | states |
|---|---|---|
| OrcGraph.ReachLeast | nim/flow_test/files/home/zahary/.cache/nim/nim_flow_test_d/@z..@f..@f..@f..@f..@f..@f..@f..@f..@favk@ffgber@f0753kcti4w0ztkezl0lkw2amc344dmto-avz-hajenccrq-2.2.4@favz@fyvo@fflfgrz.nim.c:1801-1844 | reachability by explicit paths is the least set that holds the roots and is closed under the traced fields |
| OrcGraph.GarbageIff | nim/flow_test/files/home/zahary/.cache/nim/nim_flow_test_d/@z..@f..@f..@f..@f..@f..@f..@f..@f..@favk@ffgber@f0753kcti4w0ztkezl0lkw2amc344dmto-avz-hajenccrq-2.2.4@favz@fyvo@fflfgrz.nim.c:2073-2174 | independent reading of what a collection must free: reachable from the candidates, and reached by no path from a cell that a variable refers to nor from a cell the candidates do not reach |
| OrcGraph.PathToMarkedIsHeld | nim/flow_test/files/home/zahary/.cache/nim/nim_flow_test_d/@z..@f..@f..@f..@f..@f..@f..@f..@f..@favk@ffgber@f0753kcti4w0ztkezl0lkw2amc344dmto-avz-hajenccrq-2.2.4@favz@fyvo@fflfgrz.nim.c:1880-1933 | every path that enters the marked set goes through a marked cell that something outside refers to |
| OrcSpec.WordLaws | nim/flow_test/files/home/zahary/.cache/nim/nim_flow_test_d/@z..@f..@f..@f..@f..@f..@f..@f..@f..@favk@ffgber@f0753kcti4w0ztkezl0lkw2amc344dmto-avz-hajenccrq-2.2.4@favz@fyvo@fflfgrz.nim.c:1801-1933 | adding or taking one reference changes the count of the header word by one and keeps its colour; painting keeps the count |
| OrcSpec.PushedIsOut | nim/flow_test/files/home/zahary/.cache/nim/nim_flow_test_d/@z..@f..@f..@f..@f..@f..@f..@f..@f..@favk@ffgber@f0753kcti4w0ztkezl0lkw2amc344dmto-avz-hajenccrq-2.2.4@favz@fyvo@fflfgrz@frkprcgvbaf.nim.c:354-366 | tracing pushes one entry for every non-nil field of a cell, each once |
| OrcSpec.MarkStep | nim/flow_test/files/home/zahary/.cache/nim/nim_flow_test_d/@z..@f..@f..@f..@f..@f..@f..@f..@f..@favk@ffgber@f0753kcti4w0ztkezl0lkw2amc344dmto-avz-hajenccrq-2.2.4@favz@fyvo@fflfgrz.nim.c:1801-1844 | one round of markGray's loop keeps the marking invariant together with its three totals, whether the popped entry names a new cell or a gray one |
| OrcSpec.MarkEnd | nim/flow_test/files/home/zahary/.cache/nim/nim_flow_test_d/@z..@f..@f..@f..@f..@f..@f..@f..@f..@favk@ffgber@f0753kcti4w0ztkezl0lkw2amc344dmto-avz-hajenccrq-2.2.4@favz@fyvo@fflfgrz.nim.c:1801-1844 | marked are exactly the cells reachable from the roots, each count lost one for every edge between marked cells, and rcSum equals edges exactly when nothing outside holds a marked cell |
| OrcSpec.MarkedCount | nim/flow_test/files/home/zahary/.cache/nim/nim_flow_test_d/@z..@f..@f..@f..@f..@f..@f..@f..@f..@favk@ffgber@f0753kcti4w0ztkezl0lkw2amc344dmto-avz-hajenccrq-2.2.4@favz@fyvo@fflfgrz.nim.c:1801-1844 | after marking a cell's count plus one is the number of its references from outside the marked set, so it is not negative exactly when the cell is held |
| OrcSpec.SumMinusEdges | nim/flow_test/files/home/zahary/.cache/nim/nim_flow_test_d/@z..@f..@f..@f..@f..@f..@f..@f..@f..@favk@ffgber@f0753kcti4w0ztkezl0lkw2amc344dmto-avz-hajenccrq-2.2.4@favz@fyvo@fflfgrz.nim.c:1804-1836 | rcSum minus edges is the number of references into the marked set from outside it |
| OrcSpec.TotalsAgreeIff | nim/flow_test/files/home/zahary/.cache/nim/nim_flow_test_d/@z..@f..@f..@f..@f..@f..@f..@f..@f..@favk@ffgber@f0753kcti4w0ztkezl0lkw2amc344dmto-avz-hajenccrq-2.2.4@favz@fyvo@fflfgrz.nim.c:2095-2122 | the two totals agree exactly when no marked cell is referred to from outside |
| OrcSpec.ShortcutIff | nim/flow_test/files/home/zahary/.cache/nim/nim_flow_test_d/@z..@f..@f..@f..@f..@f..@f..@f..@f..@favk@ffgber@f0753kcti4w0ztkezl0lkw2amc344dmto-avz-hajenccrq-2.2.4@favz@fyvo@fflfgrz.nim.c:2095-2122 | taking the branch for rcSum == edges frees the same cells as scanning would: the totals agree exactly when all that was marked is garbage |
| OrcSpec.ReaddStep | nim/flow_test/files/home/zahary/.cache/nim/nim_flow_test_d/@z..@f..@f..@f..@f..@f..@f..@f..@f..@favk@ffgber@f0753kcti4w0ztkezl0lkw2amc344dmto-avz-hajenccrq-2.2.4@favz@fyvo@fflfgrz.nim.c:1847-1877 | one round of scanBlack's loop takes one decrement back and blackens its target, above whatever scan left on the shared stack |
| OrcSpec.GrayHeld | nim/flow_test/files/home/zahary/.cache/nim/nim_flow_test_d/@z..@f..@f..@f..@f..@f..@f..@f..@f..@favk@ffgber@f0753kcti4w0ztkezl0lkw2amc344dmto-avz-hajenccrq-2.2.4@favz@fyvo@fflfgrz.nim.c:1880-1933 | a gray cell that scan looks at is held from outside exactly when its count is not negative |
| OrcSpec.ScanEnd | nim/flow_test/files/home/zahary/.cache/nim/nim_flow_test_d/@z..@f..@f..@f..@f..@f..@f..@f..@f..@favk@ffgber@f0753kcti4w0ztkezl0lkw2amc344dmto-avz-hajenccrq-2.2.4@favz@fyvo@fflfgrz.nim.c:1880-1933 | when scanning is over nothing is gray, and white are exactly the marked cells that no held cell reaches |
| OrcSpec.ScanFinish | nim/flow_test/files/home/zahary/.cache/nim/nim_flow_test_d/@z..@f..@f..@f..@f..@f..@f..@f..@f..@favk@ffgber@f0753kcti4w0ztkezl0lkw2amc344dmto-avz-hajenccrq-2.2.4@favz@fyvo@fflfgrz.nim.c:1880-1933 | scanning hands to the next phase exactly the garbage as white cells, and has added back the edges of the others once each |
| OrcSpec.CutStep | nim/flow_test/files/home/zahary/.cache/nim/nim_flow_test_d/@z..@f..@f..@f..@f..@f..@f..@f..@f..@favk@ffgber@f0753kcti4w0ztkezl0lkw2amc344dmto-avz-hajenccrq-2.2.4@favz@fyvo@fflfgrz.nim.c:1936-1979 | one round of collectColor's loop sets one field to nil and lists its target exactly if that is white, not listed and not a root still to come |
| OrcSpec.ListGuard | nim/flow_test/files/home/zahary/.cache/nim/nim_flow_test_d/@z..@f..@f..@f..@f..@f..@f..@f..@f..@favk@ffgber@f0753kcti4w0ztkezl0lkw2amc344dmto-avz-hajenccrq-2.2.4@favz@fyvo@fflfgrz.nim.c:1936-1979 | the test for colour and root index tells exactly the cells that are next to be listed |
| OrcSpec.CollectEnd | nim/flow_test/files/home/zahary/.cache/nim/nim_flow_test_d/@z..@f..@f..@f..@f..@f..@f..@f..@f..@favk@ffgber@f0753kcti4w0ztkezl0lkw2amc344dmto-avz-hajenccrq-2.2.4@favz@fyvo@fflfgrz.nim.c:1936-1979 | once every root had its turn, all of the garbage is listed and nothing else |
| OrcSpec.DisposeEnd | nim/flow_test/files/home/zahary/.cache/nim/nim_flow_test_d/@z..@f..@f..@f..@f..@f..@f..@f..@f..@favk@ffgber@f0753kcti4w0ztkezl0lkw2amc344dmto-avz-hajenccrq-2.2.4@favz@fyvo@fflfgrz.nim.c:2146-2174 | after disposal every surviving cell is black, has an exact count, no root index, and the listed cells are gone |
| OrcSpec.NoDanglingAfter | nim/flow_test/files/home/zahary/.cache/nim/nim_flow_test_d/@z..@f..@f..@f..@f..@f..@f..@f..@f..@favk@ffgber@f0753kcti4w0ztkezl0lkw2amc344dmto-avz-hajenccrq-2.2.4@favz@fyvo@fflfgrz.nim.c:2073-2174 | nothing that survives refers to a cell that was freed |
| OrcSpec.RefsAfter | nim/flow_test/files/home/zahary/.cache/nim/nim_flow_test_d/@z..@f..@f..@f..@f..@f..@f..@f..@f..@favk@ffgber@f0753kcti4w0ztkezl0lkw2amc344dmto-avz-hajenccrq-2.2.4@favz@fyvo@fflfgrz.nim.c:2073-2174 | disposing of cells loses exactly the references out of them |
| OrcSpec.CountsAfter | nim/flow_test/files/home/zahary/.cache/nim/nim_flow_test_d/@z..@f..@f..@f..@f..@f..@f..@f..@f..@favk@ffgber@f0753kcti4w0ztkezl0lkw2amc344dmto-avz-hajenccrq-2.2.4@favz@fyvo@fflfgrz.nim.c:1847-1979 | count conservation: what marking took away and scanning gave back leaves the exact count of the references that remain |
| OrcSpec.UnregisterElems | nim/flow_test/files/home/zahary/.cache/nim/nim_flow_test_d/@z..@f..@f..@f..@f..@f..@f..@f..@f..@favk@ffgber@f0753kcti4w0ztkezl0lkw2amc344dmto-avz-hajenccrq-2.2.4@favz@fyvo@fflfgrz.nim.c:959-970 | moving the last candidate into the hole removes exactly the one candidate |
| OrcSpec.AddOutside | nim/flow_test/files/home/zahary/.cache/nim/nim_flow_test_d/@z..@f..@f..@f..@f..@f..@f..@f..@f..@favk@ffgber@f0753kcti4w0ztkezl0lkw2amc344dmto-avz-hajenccrq-2.2.4@favz@fyvo@fflfgrz.nim.c:2741-2748 | a new reference from a variable keeps counts exact |
| OrcSpec.DropOutside | nim/flow_test/files/home/zahary/.cache/nim/nim_flow_test_d/@z..@f..@f..@f..@f..@f..@f..@f..@f..@favk@ffgber@f0753kcti4w0ztkezl0lkw2amc344dmto-avz-hajenccrq-2.2.4@favz@fyvo@fflfgrz.nim.c:2751-2778 | giving one up keeps counts exact |
| OrcSpec.LastReference | nim/flow_test/files/home/zahary/.cache/nim/nim_flow_test_d/@z..@f..@f..@f..@f..@f..@f..@f..@f..@favk@ffgber@f0753kcti4w0ztkezl0lkw2amc344dmto-avz-hajenccrq-2.2.4@favz@fyvo@fflfgrz.nim.c:2751-2778 | a count of zero means that the reference at hand is the only one |
| OrcSpec.StoreField | nim/flow_test/files/home/zahary/.cache/nim/nim_flow_test_d/@z..@f..@f..@f..@f..@f..@f..@f..@f..@favk@ffgber@f0753kcti4w0ztkezl0lkw2amc344dmto-avz-hajenccrq-2.2.4@favz@fyvo@fflfgrz.nim.c:2781-2789 | overwriting a field moves the new and the old reference without changing any count |
| OrcComplete.GarbageIsAll | nim/flow_test/files/home/zahary/.cache/nim/nim_flow_test_d/@z..@f..@f..@f..@f..@f..@f..@f..@f..@favk@ffgber@f0753kcti4w0ztkezl0lkw2amc344dmto-avz-hajenccrq-2.2.4@favz@fyvo@fflfgrz.nim.c:2073-2174 | if every cell that no variable reaches is reached by a candidate, the garbage of the candidates is all there is |
| OrcComplete.NoGarbageLeft | nim/flow_test/files/home/zahary/.cache/nim/nim_flow_test_d/@z..@f..@f..@f..@f..@f..@f..@f..@f..@favk@ffgber@f0753kcti4w0ztkezl0lkw2amc344dmto-avz-hajenccrq-2.2.4@favz@fyvo@fflfgrz.nim.c:2194-2245 | then a collection leaves exactly the cells that a variable reaches |
| OrcComplete.DropCovers | nim/flow_test/files/home/zahary/.cache/nim/nim_flow_test_d/@z..@f..@f..@f..@f..@f..@f..@f..@f..@favk@ffgber@f0753kcti4w0ztkezl0lkw2amc344dmto-avz-hajenccrq-2.2.4@favz@fyvo@fflfgrz.nim.c:2751-2778 | a variable that gives up a reference which is not the last leaves all garbage covered, if its cell becomes a candidate or lies on no cycle |
| OrcComplete.RememberedCovers | nim/flow_test/files/home/zahary/.cache/nim/nim_flow_test_d/@z..@f..@f..@f..@f..@f..@f..@f..@f..@favk@ffgber@f0753kcti4w0ztkezl0lkw2amc344dmto-avz-hajenccrq-2.2.4@favz@fyvo@fflfgrz.nim.c:2271-2302 | remembering the cell establishes that, and a collection it starts leaves no garbage |
| OrcComplete.StoreCovers | nim/flow_test/files/home/zahary/.cache/nim/nim_flow_test_d/@z..@f..@f..@f..@f..@f..@f..@f..@f..@favk@ffgber@f0753kcti4w0ztkezl0lkw2amc344dmto-avz-hajenccrq-2.2.4@favz@fyvo@fflfgrz.nim.c:2781-2789 | so does overwriting a field, as long as the old content is still referred to |
| OrcComplete.LastIsAlive | nim/flow_test/files/home/zahary/.cache/nim/nim_flow_test_d/@z..@f..@f..@f..@f..@f..@f..@f..@f..@favk@ffgber@f0753kcti4w0ztkezl0lkw2amc344dmto-avz-hajenccrq-2.2.4@favz@fyvo@fflfgrz.nim.c:2280-2287 | a cell that a variable still refers to need not be a candidate, so it may be forgotten before it is destroyed |
| Orc.GcEnv.constructor | nim/flow_test/files/home/zahary/.cache/nim/nim_flow_test_d/@z..@f..@f..@f..@f..@f..@f..@f..@f..@favk@ffgber@f0753kcti4w0ztkezl0lkw2amc344dmto-avz-hajenccrq-2.2.4@favz@fyvo@fflfgrz.nim.c:2194-2245 | a collection starts with empty stacks and all totals zero |
| Orc.RetunedMoves | nim/flow_test/files/home/zahary/.cache/nim/nim_flow_test_d/@z..@f..@f..@f..@f..@f..@f..@f..@f..@favk@ffgber@f0753kcti4w0ztkezl0lkw2amc344dmto-avz-hajenccrq-2.2.4@favz@fyvo@fflfgrz.nim.c:2212-2239 | the threshold only falls, to two thirds and to no less than 16, when at least half of what was reached was garbage, and only rises, by half of it, when less was |
| Orc.Heap.Trace | nim/flow_test/files/home/zahary/.cache/nim/nim_flow_test_d/@z..@f..@f..@f..@f..@f..@f..@f..@f..@favk@ffgber@f0753kcti4w0ztkezl0lkw2amc344dmto-avz-hajenccrq-2.2.4@favz@fyvo@fflfgrz@frkprcgvbaf.nim.c:354-366 | pushes exactly one entry for every non-nil field, in order |
| Orc.Heap.MarkGray | nim/flow_test/files/home/zahary/.cache/nim/nim_flow_test_d/@z..@f..@f..@f..@f..@f..@f..@f..@f..@favk@ffgber@f0753kcti4w0ztkezl0lkw2amc344dmto-avz-hajenccrq-2.2.4@favz@fyvo@fflfgrz.nim.c:1801-1844 | terminates on every graph; s and all that is already gray stay gray and the marking invariant holds with an empty stack |
| Orc.Heap.ScanBlack | nim/flow_test/files/home/zahary/.cache/nim/nim_flow_test_d/@z..@f..@f..@f..@f..@f..@f..@f..@f..@favk@ffgber@f0753kcti4w0ztkezl0lkw2amc344dmto-avz-hajenccrq-2.2.4@favz@fyvo@fflfgrz.nim.c:1847-1877 | restores the shared stack and keeps the scanning invariant for the entries below |
| Orc.Heap.Scan | nim/flow_test/files/home/zahary/.cache/nim/nim_flow_test_d/@z..@f..@f..@f..@f..@f..@f..@f..@f..@favk@ffgber@f0753kcti4w0ztkezl0lkw2amc344dmto-avz-hajenccrq-2.2.4@favz@fyvo@fflfgrz.nim.c:1880-1933 | keeps the scanning invariant and leaves s not gray |
| Orc.Heap.CollectColor | nim/flow_test/files/home/zahary/.cache/nim/nim_flow_test_d/@z..@f..@f..@f..@f..@f..@f..@f..@f..@favk@ffgber@f0753kcti4w0ztkezl0lkw2amc344dmto-avz-hajenccrq-2.2.4@favz@fyvo@fflfgrz.nim.c:1936-1979 | lists s and what it reaches of the colour, each once, all fields gone through nil |
| Orc.Heap.Free | nim/flow_test/files/home/zahary/.cache/nim/nim_flow_test_d/@z..@f..@f..@f..@f..@f..@f..@f..@f..@favk@ffgber@f0753kcti4w0ztkezl0lkw2amc344dmto-avz-hajenccrq-2.2.4@favz@fyvo@fflfgrz.nim.c:2037-2053 | disposes of one cell, all of whose fields are nil |
| Orc.Heap.MarkRoots | nim/flow_test/files/home/zahary/.cache/nim/nim_flow_test_d/@z..@f..@f..@f..@f..@f..@f..@f..@f..@favk@ffgber@f0753kcti4w0ztkezl0lkw2amc344dmto-avz-hajenccrq-2.2.4@favz@fyvo@fflfgrz.nim.c:2083-2094 | marks exactly what the candidates reach; the totals agree exactly when nothing is held |
| Orc.Heap.ScanRoots | nim/flow_test/files/home/zahary/.cache/nim/nim_flow_test_d/@z..@f..@f..@f..@f..@f..@f..@f..@f..@favk@ffgber@f0753kcti4w0ztkezl0lkw2amc344dmto-avz-hajenccrq-2.2.4@favz@fyvo@fflfgrz.nim.c:2105-2122 | white is exactly what no held cell reaches |
| Orc.Heap.CollectRoots | nim/flow_test/files/home/zahary/.cache/nim/nim_flow_test_d/@z..@f..@f..@f..@f..@f..@f..@f..@f..@favk@ffgber@f0753kcti4w0ztkezl0lkw2amc344dmto-avz-hajenccrq-2.2.4@favz@fyvo@fflfgrz.nim.c:2125-2145 | lists exactly the garbage, with all of its fields nil |
| Orc.Heap.CollectCyclesBacon | nim/flow_test/files/home/zahary/.cache/nim/nim_flow_test_d/@z..@f..@f..@f..@f..@f..@f..@f..@f..@favk@ffgber@f0753kcti4w0ztkezl0lkw2amc344dmto-avz-hajenccrq-2.2.4@favz@fyvo@fflfgrz.nim.c:2073-2174 | frees exactly the garbage of the candidates, each cell once; survivors keep their fields and have exact counts; touched is the number of reachable cells |
| Orc.Heap.CollectCycles | nim/flow_test/files/home/zahary/.cache/nim/nim_flow_test_d/@z..@f..@f..@f..@f..@f..@f..@f..@f..@favk@ffgber@f0753kcti4w0ztkezl0lkw2amc344dmto-avz-hajenccrq-2.2.4@favz@fyvo@fflfgrz.nim.c:2194-2245 | frees exactly the garbage of all candidates, the list emptied; a heap whose candidates covered all garbage is left with exactly the cells that variables reach; the threshold stays if all that was reached was garbage, shrinks if at least half of it was, and grows otherwise |
| Orc.Heap.RegisterCycle | nim/flow_test/files/home/zahary/.cache/nim/nim_flow_test_d/@z..@f..@f..@f..@f..@f..@f..@f..@f..@favk@ffgber@f0753kcti4w0ztkezl0lkw2amc344dmto-avz-hajenccrq-2.2.4@favz@fyvo@fflfgrz.nim.c:2248-2268 | with room below the threshold the cell is appended to the candidates, otherwise a collection runs with it among them and frees exactly their garbage; which of the two is told by the old threshold and list |
| Orc.Heap.UnregisterCycle | nim/flow_test/files/home/zahary/.cache/nim/nim_flow_test_d/@z..@f..@f..@f..@f..@f..@f..@f..@f..@favk@ffgber@f0753kcti4w0ztkezl0lkw2amc344dmto-avz-hajenccrq-2.2.4@favz@fyvo@fflfgrz.nim.c:959-970 | exactly s leaves the list of candidates, the others keep matching root indices |
| Orc.Heap.IncRefCyclic | nim/flow_test/files/home/zahary/.cache/nim/nim_flow_test_d/@z..@f..@f..@f..@f..@f..@f..@f..@f..@favk@ffgber@f0753kcti4w0ztkezl0lkw2amc344dmto-avz-hajenccrq-2.2.4@favz@fyvo@fflfgrz.nim.c:2741-2748 | one more reference, counts exact, the candidates still cover all garbage |
| Orc.Heap.RememberCycle | nim/flow_test/files/home/zahary/.cache/nim/nim_flow_test_d/@z..@f..@f..@f..@f..@f..@f..@f..@f..@favk@ffgber@f0753kcti4w0ztkezl0lkw2amc344dmto-avz-hajenccrq-2.2.4@favz@fyvo@fflfgrz.nim.c:2271-2302 | a cell to be destroyed leaves the candidates; otherwise a cell that is listed or of an acyclic type changes nothing, and any other is appended or collected with the rest |
| Orc.Heap.DecRefIsLastCyclicDyn | nim/flow_test/files/home/zahary/.cache/nim/nim_flow_test_d/@z..@f..@f..@f..@f..@f..@f..@f..@f..@favk@ffgber@f0753kcti4w0ztkezl0lkw2amc344dmto-avz-hajenccrq-2.2.4@favz@fyvo@fflfgrz.nim.c:2751-2778 | true exactly if the reference was the only one; otherwise counts are exact without it, and the cell is a candidate, or collected with them, unless it was listed or is acyclic; the candidates go on to cover all garbage, provided that acyclic cells lie on no cycle |
| Orc.Heap.CopyIntoField | nim/flow_test/files/home/zahary/.cache/nim/nim_flow_test_d/@z..@f..@f..@f..@f..@f..@f..@f..@f..@favk@ffgber@f0753kcti4w0ztkezl0lkw2amc344dmto-avz-hajenccrq-2.2.4@favz@fyvo@fflfgrz.nim.c:2781-2789 | the field holds the new reference, and the old content is forgotten, remembered as a candidate, or handed back as the last reference; the candidates go on to cover all garbage, under the same proviso |
| SizeClasses.MsbitIs | nim/flow_test/files/home/zahary/.cache/nim/nim_flow_test_d/@z..@f..@f..@f..@f..@f..@f..@f..@f..@favk@ffgber@f0753kcti4w0ztkezl0lkw2amc344dmto-avz-hajenccrq-2.2.4@favz@fyvo@fflfgrz.nim.c:1121-1151 | the table-driven search finds the position of the highest set bit |
| SizeClasses.MsbitUnique | nim/flow_test/files/home/zahary/.cache/nim/nim_flow_test_d/@z..@f..@f..@f..@f..@f..@f..@f..@f..@favk@ffgber@f0753kcti4w0ztkezl0lkw2amc344dmto-avz-hajenccrq-2.2.4@favz@fyvo@fflfgrz.nim.c:1121-1151 | and only that position has the property |
| SizeClasses.InsertIs | nim/flow_test/files/home/zahary/.cache/nim/nim_flow_test_d/@z..@f..@f..@f..@f..@f..@f..@f..@f..@favk@ffgber@f0753kcti4w0ztkezl0lkw2amc344dmto-avz-hajenccrq-2.2.4@favz@fyvo@fflfgrz.nim.c:1154-1160 | a size lies in the part of its power-of-two interval that its class stands for |
| SizeClasses.InsertMono | nim/flow_test/files/home/zahary/.cache/nim/nim_flow_test_d/@z..@f..@f..@f..@f..@f..@f..@f..@f..@favk@ffgber@f0753kcti4w0ztkezl0lkw2amc344dmto-avz-hajenccrq-2.2.4@favz@fyvo@fflfgrz.nim.c:1154-1160 | larger sizes are filed in the same class or above |
| SizeClasses.FloorMono | nim/flow_test/files/home/zahary/.cache/nim/nim_flow_test_d/@z..@f..@f..@f..@f..@f..@f..@f..@f..@favk@ffgber@f0753kcti4w0ztkezl0lkw2amc344dmto-avz-hajenccrq-2.2.4@favz@fyvo@fflfgrz.nim.c:1154-1160 | classes further up have larger smallest sizes |
| SizeClasses.SearchFits | nim/flow_test/files/home/zahary/.cache/nim/nim_flow_test_d/@z..@f..@f..@f..@f..@f..@f..@f..@f..@favk@ffgber@f0753kcti4w0ztkezl0lkw2amc344dmto-avz-hajenccrq-2.2.4@favz@fyvo@fflfgrz.nim.c:3837-3851 | the rounded request holds the request, is a whole number of pages, at most the largest chunk, and the smallest size of its own class |
| SizeClasses.SearchClose | nim/flow_test/files/home/zahary/.cache/nim/nim_flow_test_d/@z..@f..@f..@f..@f..@f..@f..@f..@f..@favk@ffgber@f0753kcti4w0ztkezl0lkw2amc344dmto-avz-hajenccrq-2.2.4@favz@fyvo@fflfgrz.nim.c:3837-3851 | rounding a request adds less than a page, or at most a part in 32 |
| SizeClasses.ClassNarrow | nim/flow_test/files/home/zahary/.cache/nim/nim_flow_test_d/@z..@f..@f..@f..@f..@f..@f..@f..@f..@favk@ffgber@f0753kcti4w0ztkezl0lkw2amc344dmto-avz-hajenccrq-2.2.4@favz@fyvo@fflfgrz.nim.c:1154-1160 | a size filed at or above the class of another is larger than it less a part in 33 |
| Bitmaps.BitLaws | nim/flow_test/files/home/zahary/.cache/nim/nim_flow_test_d/@z..@f..@f..@f..@f..@f..@f..@f..@f..@favk@ffgber@f0753kcti4w0ztkezl0lkw2amc344dmto-avz-hajenccrq-2.2.4@favz@fyvo@fflfgrz.nim.c:1391-1394 | setting, clearing and masking change exactly the bits they should |
| Bitmaps.LsbitIs | nim/flow_test/files/home/zahary/.cache/nim/nim_flow_test_d/@z..@f..@f..@f..@f..@f..@f..@f..@f..@favk@ffgber@f0753kcti4w0ztkezl0lkw2amc344dmto-avz-hajenccrq-2.2.4@favz@fyvo@fflfgrz.nim.c:3854-3857 | finds the lowest set bit, or none in zero |
| Bitmaps.ZeroIff | nim/flow_test/files/home/zahary/.cache/nim/nim_flow_test_d/@z..@f..@f..@f..@f..@f..@f..@f..@f..@favk@ffgber@f0753kcti4w0ztkezl0lkw2amc344dmto-avz-hajenccrq-2.2.4@favz@fyvo@fflfgrz.nim.c:1163-1166 | a word is zero exactly when no bit is set |
| FreeMatrix.LinkedPush | nim/flow_test/files/home/zahary/.cache/nim/nim_flow_test_d/@z..@f..@f..@f..@f..@f..@f..@f..@f..@favk@ffgber@f0753kcti4w0ztkezl0lkw2amc344dmto-avz-hajenccrq-2.2.4@favz@fyvo@fflfgrz.nim.c:1396-1417 | putting a chunk in front of a doubly linked list gives the list with it in front |
| FreeMatrix.LinkedCut | nim/flow_test/files/home/zahary/.cache/nim/nim_flow_test_d/@z..@f..@f..@f..@f..@f..@f..@f..@f..@favk@ffgber@f0753kcti4w0ztkezl0lkw2amc344dmto-avz-hajenccrq-2.2.4@favz@fyvo@fflfgrz.nim.c:1168-1209 | unhooking the k-th chunk gives the list without it |
| FreeMatrix.AddedIndexed | nim/flow_test/files/home/zahary/.cache/nim/nim_flow_test_d/@z..@f..@f..@f..@f..@f..@f..@f..@f..@favk@ffgber@f0753kcti4w0ztkezl0lkw2amc344dmto-avz-hajenccrq-2.2.4@favz@fyvo@fflfgrz.nim.c:1396-1417 | after adding, the lists, heads and both bitmaps agree again and the chunk stands in the class of its size |
| FreeMatrix.CutIndexed | nim/flow_test/files/home/zahary/.cache/nim/nim_flow_test_d/@z..@f..@f..@f..@f..@f..@f..@f..@f..@favk@ffgber@f0753kcti4w0ztkezl0lkw2amc344dmto-avz-hajenccrq-2.2.4@favz@fyvo@fflfgrz.nim.c:1168-1209 | after removal the same, the bits cleared exactly when the list, and the row, ran empty |
| FreeMatrix.UnhookedCuts | nim/flow_test/files/home/zahary/.cache/nim/nim_flow_test_d/@z..@f..@f..@f..@f..@f..@f..@f..@f..@favk@ffgber@f0753kcti4w0ztkezl0lkw2amc344dmto-avz-hajenccrq-2.2.4@favz@fyvo@fflfgrz.nim.c:1168-1209 | the pointer writes of a removal are those of taking the k-th chunk out of its list |
| FreeMatrix.FiledAt | nim/flow_test/files/home/zahary/.cache/nim/nim_flow_test_d/@z..@f..@f..@f..@f..@f..@f..@f..@f..@favk@ffgber@f0753kcti4w0ztkezl0lkw2amc344dmto-avz-hajenccrq-2.2.4@favz@fyvo@fflfgrz.nim.c:1168-1209 | where a filed chunk stands, and that its links are those of that place |
| FreeMatrix.FoundInRow | nim/flow_test/files/home/zahary/.cache/nim/nim_flow_test_d/@z..@f..@f..@f..@f..@f..@f..@f..@f..@favk@ffgber@f0753kcti4w0ztkezl0lkw2amc344dmto-avz-hajenccrq-2.2.4@favz@fyvo@fflfgrz.nim.c:3859-3886 | the lowest bit left in the row is the first non-empty list from the class on |
| FreeMatrix.FoundAbove | nim/flow_test/files/home/zahary/.cache/nim/nim_flow_test_d/@z..@f..@f..@f..@f..@f..@f..@f..@f..@favk@ffgber@f0753kcti4w0ztkezl0lkw2amc344dmto-avz-hajenccrq-2.2.4@favz@fyvo@fflfgrz.nim.c:3859-3886 | otherwise the lowest row above, or no list at all from the class on |
| FreeMatrix.HeadIsFirst | nim/flow_test/files/home/zahary/.cache/nim/nim_flow_test_d/@z..@f..@f..@f..@f..@f..@f..@f..@f..@favk@ffgber@f0753kcti4w0ztkezl0lkw2amc344dmto-avz-hajenccrq-2.2.4@favz@fyvo@fflfgrz.nim.c:4059-4088 | the head of a list is its first chunk, in the list of its own class |
| ChunkTiles.LeftNeighbour | nim/flow_test/files/home/zahary/.cache/nim/nim_flow_test_d/@z..@f..@f..@f..@f..@f..@f..@f..@f..@favk@ffgber@f0753kcti4w0ztkezl0lkw2amc344dmto-avz-hajenccrq-2.2.4@favz@fyvo@fflfgrz.nim.c:1420-1508 | where the recorded size, stale or not, leads to a chunk, that chunk ends exactly where this one starts |
| ChunkTiles.SplitTiles | nim/flow_test/files/home/zahary/.cache/nim/nim_flow_test_d/@z..@f..@f..@f..@f..@f..@f..@f..@f..@favk@ffgber@f0753kcti4w0ztkezl0lkw2amc344dmto-avz-hajenccrq-2.2.4@favz@fyvo@fflfgrz.nim.c:1368-1388 | splitting keeps the chunks disjoint and the recorded sizes safe |
| ChunkTiles.SplitCover | nim/flow_test/files/home/zahary/.cache/nim/nim_flow_test_d/@z..@f..@f..@f..@f..@f..@f..@f..@f..@favk@ffgber@f0753kcti4w0ztkezl0lkw2amc344dmto-avz-hajenccrq-2.2.4@favz@fyvo@fflfgrz.nim.c:1368-1388 | and covers the same pages |
| ChunkTiles.MergeTiles | nim/flow_test/files/home/zahary/.cache/nim/nim_flow_test_d/@z..@f..@f..@f..@f..@f..@f..@f..@f..@favk@ffgber@f0753kcti4w0ztkezl0lkw2amc344dmto-avz-hajenccrq-2.2.4@favz@fyvo@fflfgrz.nim.c:1420-1508 | merging two that touch keeps the chunks disjoint, although the chunk behind keeps its old record |
| ChunkTiles.MergeCover | nim/flow_test/files/home/zahary/.cache/nim/nim_flow_test_d/@z..@f..@f..@f..@f..@f..@f..@f..@f..@favk@ffgber@f0753kcti4w0ztkezl0lkw2amc344dmto-avz-hajenccrq-2.2.4@favz@fyvo@fflfgrz.nim.c:1420-1508 | and covers the same pages |
| ChunkTiles.RestampTiles | nim/flow_test/files/home/zahary/.cache/nim/nim_flow_test_d/@z..@f..@f..@f..@f..@f..@f..@f..@f..@favk@ffgber@f0753kcti4w0ztkezl0lkw2amc344dmto-avz-hajenccrq-2.2.4@favz@fyvo@fflfgrz.nim.c:1420-1508 | resetting the record of the chunk before keeps the tiling |
| ChunkTiles.GrowTiles | nim/flow_test/files/home/zahary/.cache/nim/nim_flow_test_d/@z..@f..@f..@f..@f..@f..@f..@f..@f..@favk@ffgber@f0753kcti4w0ztkezl0lkw2amc344dmto-avz-hajenccrq-2.2.4@favz@fyvo@fflfgrz.nim.c:3945-4048 | a new region becomes a chunk disjoint from all others |
| ChunkTiles.GrowCover | nim/flow_test/files/home/zahary/.cache/nim/nim_flow_test_d/@z..@f..@f..@f..@f..@f..@f..@f..@f..@favk@ffgber@f0753kcti4w0ztkezl0lkw2amc344dmto-avz-hajenccrq-2.2.4@favz@fyvo@fflfgrz.nim.c:3945-4048 | and adds exactly its pages to those covered |
| ChunkTiles.TotalWithout | nim/flow_test/files/home/zahary/.cache/nim/nim_flow_test_d/@z..@f..@f..@f..@f..@f..@f..@f..@f..@favk@ffgber@f0753kcti4w0ztkezl0lkw2amc344dmto-avz-hajenccrq-2.2.4@favz@fyvo@fflfgrz.nim.c:1420-1508 | taking a chunk out of the unused ones takes its size off their total |
| ChunkBooks.SplitAll | nim/flow_test/files/home/zahary/.cache/nim/nim_flow_test_d/@z..@f..@f..@f..@f..@f..@f..@f..@f..@favk@ffgber@f0753kcti4w0ztkezl0lkw2amc344dmto-avz-hajenccrq-2.2.4@favz@fyvo@fflfgrz.nim.c:1368-1388 | a split keeps the index, the tiling, the books and what is in use, and gives two unused chunks of the two sizes |
| ChunkBooks.MergeAll | nim/flow_test/files/home/zahary/.cache/nim/nim_flow_test_d/@z..@f..@f..@f..@f..@f..@f..@f..@f..@favk@ffgber@f0753kcti4w0ztkezl0lkw2amc344dmto-avz-hajenccrq-2.2.4@favz@fyvo@fflfgrz.nim.c:1420-1508 | a merge keeps the index, the tiling, the books and what is in use |
| ChunkBooks.FreedAll | nim/flow_test/files/home/zahary/.cache/nim/nim_flow_test_d/@z..@f..@f..@f..@f..@f..@f..@f..@f..@favk@ffgber@f0753kcti4w0ztkezl0lkw2amc344dmto-avz-hajenccrq-2.2.4@favz@fyvo@fflfgrz.nim.c:1420-1508 | freeing removes exactly the chunk from what is in use |
| ChunkBooks.GrowAll | nim/flow_test/files/home/zahary/.cache/nim/nim_flow_test_d/@z..@f..@f..@f..@f..@f..@f..@f..@f..@favk@ffgber@f0753kcti4w0ztkezl0lkw2amc344dmto-avz-hajenccrq-2.2.4@favz@fyvo@fflfgrz.nim.c:3945-4048 | a new region changes nothing but adding one unused chunk |
| ChunkBooks.UsedAll | nim/flow_test/files/home/zahary/.cache/nim/nim_flow_test_d/@z..@f..@f..@f..@f..@f..@f..@f..@f..@favk@ffgber@f0753kcti4w0ztkezl0lkw2amc344dmto-avz-hajenccrq-2.2.4@favz@fyvo@fflfgrz.nim.c:4091-4153 | handing out adds exactly the chunk to what is in use |
| ChunkBooks.LeftIs | nim/flow_test/files/home/zahary/.cache/nim/nim_flow_test_d/@z..@f..@f..@f..@f..@f..@f..@f..@f..@favk@ffgber@f0753kcti4w0ztkezl0lkw2amc344dmto-avz-hajenccrq-2.2.4@favz@fyvo@fflfgrz.nim.c:1420-1508 | what freeBigChunk reads in front of the chunk is a recorded start exactly when a chunk that touches starts there |
| ChunkBooks.Coalesces | nim/flow_test/files/home/zahary/.cache/nim/nim_flow_test_d/@z..@f..@f..@f..@f..@f..@f..@f..@f..@favk@ffgber@f0753kcti4w0ztkezl0lkw2amc344dmto-avz-hajenccrq-2.2.4@favz@fyvo@fflfgrz.nim.c:1420-1508 | joining to the left and then to the right leaves no border at either end of the freed chunk, unless the unused chunk there has the largest size; the unused bytes are those before and the freed ones |
| ChunkBooks.FreeIsShaped | nim/flow_test/files/home/zahary/.cache/nim/nim_flow_test_d/@z..@f..@f..@f..@f..@f..@f..@f..@f..@favk@ffgber@f0753kcti4w0ztkezl0lkw2amc344dmto-avz-hajenccrq-2.2.4@favz@fyvo@fflfgrz.nim.c:1420-1508 | the unused chunks of every region are as that needs them |
| ChunkBooks.FoundFits | nim/flow_test/files/home/zahary/.cache/nim/nim_flow_test_d/@z..@f..@f..@f..@f..@f..@f..@f..@f..@favk@ffgber@f0753kcti4w0ztkezl0lkw2amc344dmto-avz-hajenccrq-2.2.4@favz@fyvo@fflfgrz.nim.c:3837-3886 | a chunk found at or above the class of the request is at least as large as the rounded request |
| ChunkBooks.NoneFits | nim/flow_test/files/home/zahary/.cache/nim/nim_flow_test_d/@z..@f..@f..@f..@f..@f..@f..@f..@f..@favk@ffgber@f0753kcti4w0ztkezl0lkw2amc344dmto-avz-hajenccrq-2.2.4@favz@fyvo@fflfgrz.nim.c:3859-3886 | if nothing is found every unused chunk is smaller than the rounded request |
| ChunkBooks.FoundOrNone | nim/flow_test/files/home/zahary/.cache/nim/nim_flow_test_d/@z..@f..@f..@f..@f..@f..@f..@f..@f..@favk@ffgber@f0753kcti4w0ztkezl0lkw2amc344dmto-avz-hajenccrq-2.2.4@favz@fyvo@fflfgrz.nim.c:3859-3886 | the search finds a chunk exactly when one that is large enough exists |
| ChunkBooks.FoundWell | nim/flow_test/files/home/zahary/.cache/nim/nim_flow_test_d/@z..@f..@f..@f..@f..@f..@f..@f..@f..@favk@ffgber@f0753kcti4w0ztkezl0lkw2amc344dmto-avz-hajenccrq-2.2.4@favz@fyvo@fflfgrz.nim.c:3859-3886 | the chunk found is larger than any that would do by no more than a part in 32 |
| ChunkBooks.LiveApart | nim/flow_test/files/home/zahary/.cache/nim/nim_flow_test_d/@z..@f..@f..@f..@f..@f..@f..@f..@f..@favk@ffgber@f0753kcti4w0ztkezl0lkw2amc344dmto-avz-hajenccrq-2.2.4@favz@fyvo@fflfgrz.nim.c:4091-4153 | chunks in use never overlap and lie in memory obtained from the system |
| ChunkAlloc.MemRegion.constructor | nim/flow_test/files/home/zahary/.cache/nim/nim_flow_test_d/@z..@f..@f..@f..@f..@f..@f..@f..@f..@favk@ffgber@f0753kcti4w0ztkezl0lkw2amc344dmto-avz-hajenccrq-2.2.4@favz@fyvo@fflfgrz.nim.c:4091-4153 | a region starts with nothing in use and nothing owned |
| ChunkAlloc.MemRegion.AddChunkToMatrix | nim/flow_test/files/home/zahary/.cache/nim/nim_flow_test_d/@z..@f..@f..@f..@f..@f..@f..@f..@f..@favk@ffgber@f0753kcti4w0ztkezl0lkw2amc344dmto-avz-hajenccrq-2.2.4@favz@fyvo@fflfgrz.nim.c:1396-1417 | the chunk is filed, and lists, heads and bitmaps agree |
| ChunkAlloc.MemRegion.RemoveChunkFromMatrix | nim/flow_test/files/home/zahary/.cache/nim/nim_flow_test_d/@z..@f..@f..@f..@f..@f..@f..@f..@f..@favk@ffgber@f0753kcti4w0ztkezl0lkw2amc344dmto-avz-hajenccrq-2.2.4@favz@fyvo@fflfgrz.nim.c:1168-1209 | the chunk is taken out wherever it stands, and they agree again |
| ChunkAlloc.MemRegion.RemoveChunkFromMatrix2 | nim/flow_test/files/home/zahary/.cache/nim/nim_flow_test_d/@z..@f..@f..@f..@f..@f..@f..@f..@f..@favk@ffgber@f0753kcti4w0ztkezl0lkw2amc344dmto-avz-hajenccrq-2.2.4@favz@fyvo@fflfgrz.nim.c:4059-4088 | the same for the head of a list |
| ChunkAlloc.MemRegion.FindSuitableBlock | nim/flow_test/files/home/zahary/.cache/nim/nim_flow_test_d/@z..@f..@f..@f..@f..@f..@f..@f..@f..@favk@ffgber@f0753kcti4w0ztkezl0lkw2amc344dmto-avz-hajenccrq-2.2.4@favz@fyvo@fflfgrz.nim.c:3859-3886 | the first chunk of the lowest non-empty list at or above a class, or nil exactly if there is none |
| ChunkAlloc.MemRegion.UpdatePrevSize | nim/flow_test/files/home/zahary/.cache/nim/nim_flow_test_d/@z..@f..@f..@f..@f..@f..@f..@f..@f..@favk@ffgber@f0753kcti4w0ztkezl0lkw2amc344dmto-avz-hajenccrq-2.2.4@favz@fyvo@fflfgrz.nim.c:1240-1249 | only the record in the chunk behind changes, and only if it is one of ours |
| ChunkAlloc.MemRegion.SplitChunk2 | nim/flow_test/files/home/zahary/.cache/nim/nim_flow_test_d/@z..@f..@f..@f..@f..@f..@f..@f..@f..@favk@ffgber@f0753kcti4w0ztkezl0lkw2amc344dmto-avz-hajenccrq-2.2.4@favz@fyvo@fflfgrz.nim.c:1368-1388 | cuts a chunk in flight into two unused ones, everything else kept |
| ChunkAlloc.MemRegion.SplitChunk | nim/flow_test/files/home/zahary/.cache/nim/nim_flow_test_d/@z..@f..@f..@f..@f..@f..@f..@f..@f..@favk@ffgber@f0753kcti4w0ztkezl0lkw2amc344dmto-avz-hajenccrq-2.2.4@favz@fyvo@fflfgrz.nim.c:4051-4056 | the same, and files the second one |
| ChunkAlloc.MemRegion.JoinLeft | nim/flow_test/files/home/zahary/.cache/nim/nim_flow_test_d/@z..@f..@f..@f..@f..@f..@f..@f..@f..@favk@ffgber@f0753kcti4w0ztkezl0lkw2amc344dmto-avz-hajenccrq-2.2.4@favz@fyvo@fflfgrz.nim.c:1432-1472 | the chunk in front is joined exactly if it is recorded, unused, not small and less than the largest size; the unused chunks afterwards are told by size, with a rest where the sum is too large |
| ChunkAlloc.MemRegion.JoinRight | nim/flow_test/files/home/zahary/.cache/nim/nim_flow_test_d/@z..@f..@f..@f..@f..@f..@f..@f..@f..@favk@ffgber@f0753kcti4w0ztkezl0lkw2amc344dmto-avz-hajenccrq-2.2.4@favz@fyvo@fflfgrz.nim.c:1473-1504 | the chunk behind is joined exactly if it is accessible, unused, not small and the freed one is less than the largest size; the unused chunks afterwards are told by size, with a rest where the sum is too large |
| ChunkAlloc.MemRegion.FreeBigChunk | nim/flow_test/files/home/zahary/.cache/nim/nim_flow_test_d/@z..@f..@f..@f..@f..@f..@f..@f..@f..@favk@ffgber@f0753kcti4w0ztkezl0lkw2amc344dmto-avz-hajenccrq-2.2.4@favz@fyvo@fflfgrz.nim.c:1420-1508 | removes exactly c from what is in use; the unused chunks are those that joining both neighbours gives, so none is left that touches the freed bytes, but at the largest size; every invariant of the region is kept |
| ChunkAlloc.MemRegion.PlanChunkSize | nim/flow_test/files/home/zahary/.cache/nim/nim_flow_test_d/@z..@f..@f..@f..@f..@f..@f..@f..@f..@favk@ffgber@f0753kcti4w0ztkezl0lkw2amc344dmto-avz-hajenccrq-2.2.4@favz@fyvo@fflfgrz.nim.c:3963-3981 | the size to ask for next and the one to remember: at least the request, whole pages, an eighth of what is handed out, never too large |
| ChunkAlloc.MemRegion.AskSystem | nim/flow_test/files/home/zahary/.cache/nim/nim_flow_test_d/@z..@f..@f..@f..@f..@f..@f..@f..@f..@favk@ffgber@f0753kcti4w0ztkezl0lkw2amc344dmto-avz-hajenccrq-2.2.4@favz@fyvo@fflfgrz.nim.c:3982-4007 | asks again for just the request where the larger request fails, and then remembers that size |
| ChunkAlloc.MemRegion.SizeBefore | nim/flow_test/files/home/zahary/.cache/nim/nim_flow_test_d/@z..@f..@f..@f..@f..@f..@f..@f..@f..@favk@ffgber@f0753kcti4w0ztkezl0lkw2amc344dmto-avz-hajenccrq-2.2.4@favz@fyvo@fflfgrz.nim.c:4026-4045 | the size of the chunk that ends where the new one starts, or zero |
| ChunkAlloc.MemRegion.NewChunk | nim/flow_test/files/home/zahary/.cache/nim/nim_flow_test_d/@z..@f..@f..@f..@f..@f..@f..@f..@f..@favk@ffgber@f0753kcti4w0ztkezl0lkw2amc344dmto-avz-hajenccrq-2.2.4@favz@fyvo@fflfgrz.nim.c:4015-4048 | the new region is one unused chunk, what is owned grows by its pages, and the chunk behind it learns its size |
| ChunkAlloc.MemRegion.RequestOsChunks | nim/flow_test/files/home/zahary/.cache/nim/nim_flow_test_d/@z..@f..@f..@f..@f..@f..@f..@f..@f..@favk@ffgber@f0753kcti4w0ztkezl0lkw2amc344dmto-avz-hajenccrq-2.2.4@favz@fyvo@fflfgrz.nim.c:3945-4048 | at least the request, freeMem and currMem grow by the size obtained |
| ChunkAlloc.MemRegion.GetBigChunk | nim/flow_test/files/home/zahary/.cache/nim/nim_flow_test_d/@z..@f..@f..@f..@f..@f..@f..@f..@f..@favk@ffgber@f0753kcti4w0ztkezl0lkw2amc344dmto-avz-hajenccrq-2.2.4@favz@fyvo@fflfgrz.nim.c:4091-4153 | hands out a chunk of exactly the rounded size that was not in use, from an unused one that is no larger than need be but for a part in 32, its rest unused again; asks the system exactly when no unused chunk is large enough; freeMem stays the total of the unused chunks |
| ChunkAlloc.MemRegion.FreeSmallChunk | nim/flow_test/files/home/zahary/.cache/nim/nim_flow_test_d/@z..@f..@f..@f..@f..@f..@f..@f..@f..@favk@ffgber@f0753kcti4w0ztkezl0lkw2amc344dmto-avz-hajenccrq-2.2.4@favz@fyvo@fflfgrz.nim.c:1649-1655 | gives back a page that served cells |
| PageSet.PutBitAt | nim/flow_test/files/home/zahary/.cache/nim/nim_flow_test_d/@z..@f..@f..@f..@f..@f..@f..@f..@f..@favk@ffgber@f0753kcti4w0ztkezl0lkw2amc344dmto-avz-hajenccrq-2.2.4@favz@fyvo@fflfgrz.nim.c:1359-1366 | setting or clearing one bit of a block changes that bit alone |
| PageSet.AddTrunk | nim/flow_test/files/home/zahary/.cache/nim/nim_flow_test_d/@z..@f..@f..@f..@f..@f..@f..@f..@f..@favk@ffgber@f0753kcti4w0ztkezl0lkw2amc344dmto-avz-hajenccrq-2.2.4@favz@fyvo@fflfgrz.nim.c:1341-1356 | a block without bits put in front of its list changes no membership |
| PageSet.Changed | nim/flow_test/files/home/zahary/.cache/nim/nim_flow_test_d/@z..@f..@f..@f..@f..@f..@f..@f..@f..@favk@ffgber@f0753kcti4w0ztkezl0lkw2amc344dmto-avz-hajenccrq-2.2.4@favz@fyvo@fflfgrz.nim.c:1212-1226 | the set changes by the one number alone |
| PageSet.IntSet.IntSetGet | nim/flow_test/files/home/zahary/.cache/nim/nim_flow_test_d/@z..@f..@f..@f..@f..@f..@f..@f..@f..@favk@ffgber@f0753kcti4w0ztkezl0lkw2amc344dmto-avz-hajenccrq-2.2.4@favz@fyvo@fflfgrz.nim.c:1063-1084 | finds the block of a number in its list, or that it has none |
| PageSet.IntSet.Contains | nim/flow_test/files/home/zahary/.cache/nim/nim_flow_test_d/@z..@f..@f..@f..@f..@f..@f..@f..@f..@favk@ffgber@f0753kcti4w0ztkezl0lkw2amc344dmto-avz-hajenccrq-2.2.4@favz@fyvo@fflfgrz.nim.c:1087-1103 | true exactly for the members |
| PageSet.IntSet.Excl | nim/flow_test/files/home/zahary/.cache/nim/nim_flow_test_d/@z..@f..@f..@f..@f..@f..@f..@f..@f..@favk@ffgber@f0753kcti4w0ztkezl0lkw2amc344dmto-avz-hajenccrq-2.2.4@favz@fyvo@fflfgrz.nim.c:1212-1226 | removes exactly the number |
| PageSet.IntSet.IntSetPut | nim/flow_test/files/home/zahary/.cache/nim/nim_flow_test_d/@z..@f..@f..@f..@f..@f..@f..@f..@f..@favk@ffgber@f0753kcti4w0ztkezl0lkw2amc344dmto-avz-hajenccrq-2.2.4@favz@fyvo@fflfgrz.nim.c:1341-1356 | finds or adds the block of a number, with the set unchanged |
| PageSet.IntSet.Incl | nim/flow_test/files/home/zahary/.cache/nim/nim_flow_test_d/@z..@f..@f..@f..@f..@f..@f..@f..@f..@favk@ffgber@f0753kcti4w0ztkezl0lkw2amc344dmto-avz-hajenccrq-2.2.4@favz@fyvo@fflfgrz.nim.c:1359-1366 | adds exactly the number |
| SmallPages.CellsApart | nim/flow_test/files/home/zahary/.cache/nim/nim_flow_test_d/@z..@f..@f..@f..@f..@f..@f..@f..@f..@favk@ffgber@f0753kcti4w0ztkezl0lkw2amc344dmto-avz-hajenccrq-2.2.4@favz@fyvo@fflfgrz.nim.c:4257-4362 | carved cells, of one page or of two, never share a byte |
| SmallPages.CellInside | nim/flow_test/files/home/zahary/.cache/nim/nim_flow_test_d/@z..@f..@f..@f..@f..@f..@f..@f..@f..@favk@ffgber@f0753kcti4w0ztkezl0lkw2amc344dmto-avz-hajenccrq-2.2.4@favz@fyvo@fflfgrz.nim.c:4257-4362 | a cell lies within the data of its page |
| SmallPages.FullIsIdle | nim/flow_test/files/home/zahary/.cache/nim/nim_flow_test_d/@z..@f..@f..@f..@f..@f..@f..@f..@f..@favk@ffgber@f0753kcti4w0ztkezl0lkw2amc344dmto-avz-hajenccrq-2.2.4@favz@fyvo@fflfgrz.nim.c:1644-1655 | the test free == 4032 and foreignCells == 0 says that the page's list holds each of its own cells and nothing else, so none is handed out or on another list |
| SmallPages.IdleIff | nim/flow_test/files/home/zahary/.cache/nim/nim_flow_test_d/@z..@f..@f..@f..@f..@f..@f..@f..@f..@favk@ffgber@f0753kcti4w0ztkezl0lkw2amc344dmto-avz-hajenccrq-2.2.4@favz@fyvo@fflfgrz.nim.c:1644-1655 | and no other page passes that test |
| SmallSteps.NewPageStep | nim/flow_test/files/home/zahary/.cache/nim/nim_flow_test_d/@z..@f..@f..@f..@f..@f..@f..@f..@f..@favk@ffgber@f0753kcti4w0ztkezl0lkw2amc344dmto-avz-hajenccrq-2.2.4@favz@fyvo@fflfgrz.nim.c:4268-4307 | the first cell of a new page: accounts exact, one cell handed out |
| SmallSteps.BumpStep | nim/flow_test/files/home/zahary/.cache/nim/nim_flow_test_d/@z..@f..@f..@f..@f..@f..@f..@f..@f..@favk@ffgber@f0753kcti4w0ztkezl0lkw2amc344dmto-avz-hajenccrq-2.2.4@favz@fyvo@fflfgrz.nim.c:4310-4338 | carving the next cell: accounts exact, one cell handed out that never had a place before |
| SmallSteps.PopStep | nim/flow_test/files/home/zahary/.cache/nim/nim_flow_test_d/@z..@f..@f..@f..@f..@f..@f..@f..@f..@favk@ffgber@f0753kcti4w0ztkezl0lkw2amc344dmto-avz-hajenccrq-2.2.4@favz@fyvo@fflfgrz.nim.c:4320-4338 | handing out from the list, the cell's own page or another's: accounts exact |
| SmallSteps.PushStep | nim/flow_test/files/home/zahary/.cache/nim/nim_flow_test_d/@z..@f..@f..@f..@f..@f..@f..@f..@f..@favk@ffgber@f0753kcti4w0ztkezl0lkw2amc344dmto-avz-hajenccrq-2.2.4@favz@fyvo@fflfgrz.nim.c:1611-1643 | a freed cell goes to a list, of its own page or of the active page: accounts exact, one cell fewer handed out |
| SmallSteps.ShareStep | nim/flow_test/files/home/zahary/.cache/nim/nim_flow_test_d/@z..@f..@f..@f..@f..@f..@f..@f..@f..@favk@ffgber@f0753kcti4w0ztkezl0lkw2amc344dmto-avz-hajenccrq-2.2.4@favz@fyvo@fflfgrz.nim.c:1663-1667 | a cell freed by another thread goes to the shared list |
| SmallSteps.DrainStep | nim/flow_test/files/home/zahary/.cache/nim/nim_flow_test_d/@z..@f..@f..@f..@f..@f..@f..@f..@f..@favk@ffgber@f0753kcti4w0ztkezl0lkw2amc344dmto-avz-hajenccrq-2.2.4@favz@fyvo@fflfgrz.nim.c:4163-4188 | the shared list becomes the page's list: free and foreignCells grow by exactly what the walk counts |
| SmallSteps.DropStep | nim/flow_test/files/home/zahary/.cache/nim/nim_flow_test_d/@z..@f..@f..@f..@f..@f..@f..@f..@f..@favk@ffgber@f0753kcti4w0ztkezl0lkw2amc344dmto-avz-hajenccrq-2.2.4@favz@fyvo@fflfgrz.nim.c:1644-1655 | a page that is full and holds no foreign cell can go; no cell handed out lies in it |
| SmallCells.HandedOutApart | nim/flow_test/files/home/zahary/.cache/nim/nim_flow_test_d/@z..@f..@f..@f..@f..@f..@f..@f..@f..@favk@ffgber@f0753kcti4w0ztkezl0lkw2amc344dmto-avz-hajenccrq-2.2.4@favz@fyvo@fflfgrz.nim.c:4257-4390 | in every state no cell handed out overlaps another cell or a larger block |
| SmallCells.PageAccounts | nim/flow_test/files/home/zahary/.cache/nim/nim_flow_test_d/@z..@f..@f..@f..@f..@f..@f..@f..@f..@favk@ffgber@f0753kcti4w0ztkezl0lkw2amc344dmto-avz-hajenccrq-2.2.4@favz@fyvo@fflfgrz.nim.c:4257-4390 | in every state free is 4032 - acc + size * |freeList| and foreignCells the number of cells from other pages on the list; of all pages of a size at most one has room |
| SmallCells.DrainDebt | nim/flow_test/files/home/zahary/.cache/nim/nim_flow_test_d/@z..@f..@f..@f..@f..@f..@f..@f..@f..@favk@ffgber@f0753kcti4w0ztkezl0lkw2amc344dmto-avz-hajenccrq-2.2.4@favz@fyvo@fflfgrz.nim.c:4163-4188 | charged to occ are the cells handed out and those on the shared lists; draining a shared list takes exactly its bytes off that total, as compensateCounters does off occ |
| SmallCells.ChunksApart | nim/flow_test/files/home/zahary/.cache/nim/nim_flow_test_d/@z..@f..@f..@f..@f..@f..@f..@f..@f..@favk@ffgber@f0753kcti4w0ztkezl0lkw2amc344dmto-avz-hajenccrq-2.2.4@favz@fyvo@fflfgrz.nim.c:4091-4153 | nor do two chunks in use |
| SmallCells.Allocator.constructor | nim/flow_test/files/home/zahary/.cache/nim/nim_flow_test_d/@z..@f..@f..@f..@f..@f..@f..@f..@f..@favk@ffgber@f0753kcti4w0ztkezl0lkw2amc344dmto-avz-hajenccrq-2.2.4@favz@fyvo@fflfgrz.nim.c:4257-4390 | an allocator starts with nothing handed out |
| SmallCells.Allocator.ListAdd | nim/flow_test/files/home/zahary/.cache/nim/nim_flow_test_d/@z..@f..@f..@f..@f..@f..@f..@f..@f..@favk@ffgber@f0753kcti4w0ztkezl0lkw2amc344dmto-avz-hajenccrq-2.2.4@favz@fyvo@fflfgrz.nim.c:1013-1024 | the page heads the list of its class |
| SmallCells.Allocator.ListRemove | nim/flow_test/files/home/zahary/.cache/nim/nim_flow_test_d/@z..@f..@f..@f..@f..@f..@f..@f..@f..@favk@ffgber@f0753kcti4w0ztkezl0lkw2amc344dmto-avz-hajenccrq-2.2.4@favz@fyvo@fflfgrz.nim.c:1027-1053 | the page is on no list |
| SmallCells.Allocator.CompensateCounters | nim/flow_test/files/home/zahary/.cache/nim/nim_flow_test_d/@z..@f..@f..@f..@f..@f..@f..@f..@f..@favk@ffgber@f0753kcti4w0ztkezl0lkw2amc344dmto-avz-hajenccrq-2.2.4@favz@fyvo@fflfgrz.nim.c:4163-4188 | free, foreignCells and occ change by the number, the foreign ones and the bytes of the cells on the list |
| SmallCells.Allocator.FetchShared | nim/flow_test/files/home/zahary/.cache/nim/nim_flow_test_d/@z..@f..@f..@f..@f..@f..@f..@f..@f..@favk@ffgber@f0753kcti4w0ztkezl0lkw2amc344dmto-avz-hajenccrq-2.2.4@favz@fyvo@fflfgrz.nim.c:4287-4295 | an empty list is replaced by the shared list, whose bytes are no longer charged; what is handed out stays |
| SmallCells.Allocator.AllocCell | nim/flow_test/files/home/zahary/.cache/nim/nim_flow_test_d/@z..@f..@f..@f..@f..@f..@f..@f..@f..@favk@ffgber@f0753kcti4w0ztkezl0lkw2amc344dmto-avz-hajenccrq-2.2.4@favz@fyvo@fflfgrz.nim.c:4261-4362 | hands out one cell of the size that was not handed out: the head of the page's list, the next uncarved cell, or the first of a new page if no page of the size has room; everything else kept |
| SmallCells.Allocator.RawAlloc | nim/flow_test/files/home/zahary/.cache/nim/nim_flow_test_d/@z..@f..@f..@f..@f..@f..@f..@f..@f..@favk@ffgber@f0753kcti4w0ztkezl0lkw2amc344dmto-avz-hajenccrq-2.2.4@favz@fyvo@fflfgrz.nim.c:4257-4390 | the rounded cell or block is new, all others are kept, and occ grows by exactly its size |
| SmallCells.Allocator.FreeCell | nim/flow_test/files/home/zahary/.cache/nim/nim_flow_test_d/@z..@f..@f..@f..@f..@f..@f..@f..@f..@favk@ffgber@f0753kcti4w0ztkezl0lkw2amc344dmto-avz-hajenccrq-2.2.4@favz@fyvo@fflfgrz.nim.c:1604-1662 | exactly the cell is taken back, to the active page or to its own; a page that gets idle leaves and freeMem grows by its 4096 bytes |
| SmallCells.Allocator.ForeignDealloc | nim/flow_test/files/home/zahary/.cache/nim/nim_flow_test_d/@z..@f..@f..@f..@f..@f..@f..@f..@f..@favk@ffgber@f0753kcti4w0ztkezl0lkw2amc344dmto-avz-hajenccrq-2.2.4@favz@fyvo@fflfgrz.nim.c:1663-1667 | exactly the cell is taken back, to the front of the shared list; occ is not touched |
| SmallCells.Allocator.RawDealloc | nim/flow_test/files/home/zahary/.cache/nim/nim_flow_test_d/@z..@f..@f..@f..@f..@f..@f..@f..@f..@favk@ffgber@f0753kcti4w0ztkezl0lkw2amc344dmto-avz-hajenccrq-2.2.4@favz@fyvo@fflfgrz.nim.c:1591-1688 | exactly the cell or block is taken back and occ falls by exactly its size; an idle page leaves as by FreeCell |
| SharedFreeList.StepKeeps | nim/flow_test/files/home/zahary/.cache/nim/nim_flow_test_d/@z..@f..@f..@f..@f..@f..@f..@f..@f..@favk@ffgber@f0753kcti4w0ztkezl0lkw2amc344dmto-avz-hajenccrq-2.2.4@favz@fyvo@fflfgrz.nim.c:1511-1526 | every atomic step of every thread keeps each cell in one place and the chain from the head exact, also when clients overwrite the cells they hold |
| SharedFreeList.RunKeeps | nim/flow_test/files/home/zahary/.cache/nim/nim_flow_test_d/@z..@f..@f..@f..@f..@f..@f..@f..@f..@favk@ffgber@f0753kcti4w0ztkezl0lkw2amc344dmto-avz-hajenccrq-2.2.4@favz@fyvo@fflfgrz.nim.c:1511-1526 | so does every run |
| SharedFreeList.PushedOnceDrainedOnce | nim/flow_test/files/home/zahary/.cache/nim/nim_flow_test_d/@z..@f..@f..@f..@f..@f..@f..@f..@f..@favk@ffgber@f0753kcti4w0ztkezl0lkw2amc344dmto-avz-hajenccrq-2.2.4@favz@fyvo@fflfgrz.nim.c:4340-4348 | in every run what was pushed and not drained is exactly the chain from the head, each cell once, also when cells are reused and pushed again |
| SharedFreeList.Walk | nim/flow_test/files/home/zahary/.cache/nim/nim_flow_test_d/@z..@f..@f..@f..@f..@f..@f..@f..@f..@favk@ffgber@f0753kcti4w0ztkezl0lkw2amc344dmto-avz-hajenccrq-2.2.4@favz@fyvo@fflfgrz.nim.c:4163-4188 | the owner's walk visits each drained cell once and ends |
| AbiTypes.PartsCover | go/flow_test/files/nix/store/60z37432vmgkg54krwr1z057bqwp7583-go-1.25.5/share/go/src/reflect/abi.go:198-250 | the parts of a value in registers cover its bytes and nothing else |
| AbiTypes.PartsWithin | go/flow_test/files/nix/store/60z37432vmgkg54krwr1z057bqwp7583-go-1.25.5/share/go/src/reflect/abi.go:198-250 | each part lies within the value and fits a register; a value that is not empty has one |
| AbiKinds.RegistrableIff | go/flow_test/files/nix/store/60z37432vmgkg54krwr1z057bqwp7583-go-1.25.5/share/go/src/reflect/abi.go:198-250 | a type may travel in registers exactly if nothing inside it, at any depth, is an array of several elements or a float too wide |
| AbiKinds.PartsArePieces | go/flow_test/files/nix/store/60z37432vmgkg54krwr1z057bqwp7583-go-1.25.5/share/go/src/reflect/abi.go:198-250 | its registers are those of the pointers, integers and floats that its basic types consist of, at their offsets |
| AbiKinds.PtrPartsAreWords | go/flow_test/files/nix/store/60z37432vmgkg54krwr1z057bqwp7583-go-1.25.5/share/go/src/reflect/abi.go:198-250 | what it shows the collector in registers is what it shows in memory, but for the type word of an interface |
| AbiSequence.NumberedAt | go/flow_test/files/nix/store/60z37432vmgkg54krwr1z057bqwp7583-go-1.25.5/share/go/src/reflect/abi.go:261-310 | the k-th step moves the k-th part, whatever registers were free |
| AbiSequence.NumberedDistinct | go/flow_test/files/nix/store/60z37432vmgkg54krwr1z057bqwp7583-go-1.25.5/share/go/src/reflect/abi.go:261-310 | two parts of one kind never share a register |
| AbiSequence.AbiSeq.constructor | go/flow_test/files/nix/store/60z37432vmgkg54krwr1z057bqwp7583-go-1.25.5/share/go/src/reflect/abi.go:70-90 | an empty sequence |
| AbiSequence.AbiSeq.StepsForValue | go/flow_test/files/nix/store/60z37432vmgkg54krwr1z057bqwp7583-go-1.25.5/share/go/src/reflect/abi.go:109-118 | the steps of the i-th value |
| AbiSequence.AbiSeq.AssignIntN | go/flow_test/files/nix/store/60z37432vmgkg54krwr1z057bqwp7583-go-1.25.5/share/go/src/reflect/abi.go:261-285 | succeeds exactly if n registers are left; then steps of the n words in the next ones, else nothing changes |
| AbiSequence.AbiSeq.AssignFloatN | go/flow_test/files/nix/store/60z37432vmgkg54krwr1z057bqwp7583-go-1.25.5/share/go/src/reflect/abi.go:293-310 | the same for floats that the registers hold |
| AbiSequence.AbiSeq.RegAssign | go/flow_test/files/nix/store/60z37432vmgkg54krwr1z057bqwp7583-go-1.25.5/share/go/src/reflect/abi.go:198-250 | succeeds exactly if the type can travel in registers and its parts fit those left; then the steps are those of its parts in order |
| AbiSequence.AbiSeq.StackAssign | go/flow_test/files/nix/store/60z37432vmgkg54krwr1z057bqwp7583-go-1.25.5/share/go/src/reflect/abi.go:316-325 | one aligned slot for the whole value |
| AbiSequence.AbiSeq.AddArg | go/flow_test/files/nix/store/60z37432vmgkg54krwr1z057bqwp7583-go-1.25.5/share/go/src/reflect/abi.go:124-157 | an argument is empty, wholly in registers or in one slot; a failed attempt leaves no trace |
| AbiSequence.AbiSeq.AddRcvr | go/flow_test/files/nix/store/60z37432vmgkg54krwr1z057bqwp7583-go-1.25.5/share/go/src/reflect/abi.go:165-187 | the receiver's word is in the first register, or on the stack if there is none |
| AbiMemory.StoreInRegs | go/flow_test/files/nix/store/60z37432vmgkg54krwr1z057bqwp7583-go-1.25.5/share/go/src/reflect/value.go:532-557 | the registers of a value hold its parts, and no register taken before changes |
| AbiMemory.LoadFromRegs | go/flow_test/files/nix/store/60z37432vmgkg54krwr1z057bqwp7583-go-1.25.5/share/go/src/reflect/value.go:736-752 | the memory gets every byte that belongs to the value |
| AbiMemory.MoveRegs | go/flow_test/files/nix/store/60z37432vmgkg54krwr1z057bqwp7583-go-1.25.5/share/go/src/reflect/value.go:1066-1083 | registers of one layout hold what those of the other did; the panics for steps that do not align are not reached |
| AbiCalls.AssignedPlaced | go/flow_test/files/nix/store/60z37432vmgkg54krwr1z057bqwp7583-go-1.25.5/share/go/src/reflect/abi.go:124-157 | every step is in a register that exists and was free, or in an aligned slot behind those before |
| AbiCalls.LayoutMono | go/flow_test/files/nix/store/60z37432vmgkg54krwr1z057bqwp7583-go-1.25.5/share/go/src/reflect/abi.go:387-468 | what is taken only grows |
| AbiCalls.NoClash | go/flow_test/files/nix/store/60z37432vmgkg54krwr1z057bqwp7583-go-1.25.5/share/go/src/reflect/abi.go:387-468 | in every signature no two steps claim the same register or overlapping slots, and a value is wholly in registers or in one slot |
| AbiCalls.BuildCall | go/flow_test/files/nix/store/60z37432vmgkg54krwr1z057bqwp7583-go-1.25.5/share/go/src/reflect/abi.go:387-438 | the steps of every argument, and without a receiver the bitmap of exactly the registers that hold pointers |
| AbiCalls.StillHolds | go/flow_test/files/nix/store/60z37432vmgkg54krwr1z057bqwp7583-go-1.25.5/share/go/src/reflect/value.go:989-1084 | an argument stored before is not disturbed by those stored after |
| AbiCalls.TranslateArg | go/flow_test/files/nix/store/60z37432vmgkg54krwr1z057bqwp7583-go-1.25.5/share/go/src/reflect/value.go:989-1084 | in each of the four cases the method's side holds the bytes that the value's side held |
| AbiCalls.CallMethod | go/flow_test/files/nix/store/60z37432vmgkg54krwr1z057bqwp7583-go-1.25.5/share/go/src/reflect/value.go:949-1084 | for every signature the method finds every argument and the receiver, and no panic on the way is reached |
| AbiRoundTrip.StoreValue | go/flow_test/files/nix/store/60z37432vmgkg54krwr1z057bqwp7583-go-1.25.5/share/go/src/reflect/value.go:513-562 | one argument of call is stored where its steps say |
| AbiRoundTrip.StoreArgs | go/flow_test/files/nix/store/60z37432vmgkg54krwr1z057bqwp7583-go-1.25.5/share/go/src/reflect/value.go:513-562 | so are all of them |
| AbiRoundTrip.MoveMakeFuncArgPtrs | go/flow_test/files/nix/store/60z37432vmgkg54krwr1z057bqwp7583-go-1.25.5/share/go/src/reflect/makefunc.go:163-176 | the pointer copies are those of the registers the bitmap names, and zero elsewhere |
| AbiRoundTrip.PtrsRestored | go/flow_test/files/nix/store/60z37432vmgkg54krwr1z057bqwp7583-go-1.25.5/share/go/src/reflect/makefunc.go:163-176 | with the bitmap every argument is held again, whatever the copies were |
| AbiRoundTrip.LoadValue | go/flow_test/files/nix/store/60z37432vmgkg54krwr1z057bqwp7583-go-1.25.5/share/go/src/reflect/value.go:709-764 | callReflect builds the value that the steps hold |
| AbiRoundTrip.CallRoundTrip | go/flow_test/files/nix/store/60z37432vmgkg54krwr1z057bqwp7583-go-1.25.5/share/go/src/reflect/value.go:513-763 | for every signature without a receiver callReflect passes on the values that call was given, pointer-shaped ones as the pointer itself |
| AbiReceiver.OneApart | go/flow_test/files/nix/store/60z37432vmgkg54krwr1z057bqwp7583-go-1.25.5/share/go/src/reflect/value.go:989-1084 | without and with a receiver the layouts differ by exactly one integer register, up to the first argument that takes the last one |
| AbiReceiver.SameSide | go/flow_test/files/nix/store/60z37432vmgkg54krwr1z057bqwp7583-go-1.25.5/share/go/src/reflect/value.go:1008-1040 | up to there every argument is in registers in both layouts or on the stack in both, and that one moves from registers to the stack |
| AbiReceiver.NoIntRegisters | go/flow_test/files/nix/store/60z37432vmgkg54krwr1z057bqwp7583-go-1.25.5/share/go/src/reflect/value.go:1008-1040 | without integer registers both layouts have the same registers throughout |
| AbiReceiver.AllTaken | go/flow_test/files/nix/store/60z37432vmgkg54krwr1z057bqwp7583-go-1.25.5/share/go/src/reflect/value.go:1008-1040 | behind that argument no integer register is left without a receiver |
| AbiReceiver.StackToRegisterIff | go/flow_test/files/nix/store/60z37432vmgkg54krwr1z057bqwp7583-go-1.25.5/share/go/src/reflect/value.go:1008-1040 | an argument is on the stack without a receiver and in registers with one exactly if one before it took the last integer register and the registers that it left suffice, when they are needed |
| AbiReceiver.SomeStackToRegisterIff | go/flow_test/files/nix/store/60z37432vmgkg54krwr1z057bqwp7583-go-1.25.5/share/go/src/reflect/value.go:1008-1040 | a signature has such an argument exactly if some argument takes the last integer register and a later one fits with a receiver and not without; only without one does the comment at lines 1008-1010 hold |
| AbiReceiver.StackToRegister | go/flow_test/files/nix/store/60z37432vmgkg54krwr1z057bqwp7583-go-1.25.5/share/go/src/reflect/value.go:1008-1040 | on every machine with two integer registers or more, a struct that fills them and then one word: the word is on the stack without a receiver and in a register with one |
| FrameMaps.SlotInFront | go/flow_test/files/nix/store/60z37432vmgkg54krwr1z057bqwp7583-go-1.25.5/share/go/src/reflect/abi.go:418-432 | the bits so far always end in front of the slot, as addTypeBits needs |
| FrameMaps.AddedSlot | go/flow_test/files/nix/store/60z37432vmgkg54krwr1z057bqwp7583-go-1.25.5/share/go/src/reflect/abi.go:418-432 | after a slot's bits are added they mark exactly the pointers of all slots so far |
| FrameMaps.AddValue | go/flow_test/files/nix/store/60z37432vmgkg54krwr1z057bqwp7583-go-1.25.5/share/go/src/reflect/abi.go:418-432 | a value gets its steps, and its pointers their bits if it has a slot |
| FrameMaps.AddValues | go/flow_test/files/nix/store/60z37432vmgkg54krwr1z057bqwp7583-go-1.25.5/share/go/src/reflect/abi.go:418-462 | so do all values of one list |
| FrameMaps.BuildFrameMap | go/flow_test/files/nix/store/60z37432vmgkg54krwr1z057bqwp7583-go-1.25.5/share/go/src/reflect/abi.go:399-468 | for every signature the bitmap of the frame marks exactly the words that hold pointers of the receiver, the arguments and the results, which lie behind the arguments |
| PtrBits.SetLaw | go/flow_test/files/nix/store/60z37432vmgkg54krwr1z057bqwp7583-go-1.25.5/share/go/src/reflect/type.go:2819-2830 | or-ing one bit into a byte sets that bit alone |
| PtrBits.PtrWordRange | go/flow_test/files/nix/store/60z37432vmgkg54krwr1z057bqwp7583-go-1.25.5/share/go/src/reflect/type.go:2570-2591 | the pointers of a value lie in the part of it that PtrBytes tells |
| PtrBits.PtrBytesTight | go/flow_test/files/nix/store/60z37432vmgkg54krwr1z057bqwp7583-go-1.25.5/share/go/src/reflect/type.go:2570-2591 | and the last word of that part is a pointer |
| AbiKinds.PtrWordIs | go/flow_test/files/nix/store/60z37432vmgkg54krwr1z057bqwp7583-go-1.25.5/share/go/src/reflect/type.go:2832-2868 | the words that hold pointers are those of the basic types inside |
| PtrBits.BitVector.Append | go/flow_test/files/nix/store/60z37432vmgkg54krwr1z057bqwp7583-go-1.25.5/share/go/src/reflect/type.go:2819-2830 | one more bit, the others kept, with room for 64 at a time |
| PtrBits.BitVector.AddTypeBits | go/flow_test/files/nix/store/60z37432vmgkg54krwr1z057bqwp7583-go-1.25.5/share/go/src/reflect/type.go:2832-2868 | for every type adds exactly the bits of the words that hold pointers, up to the last; it never has to set a bit behind the end |
| PtrBits.EmitGCMask | go/flow_test/files/nix/store/60z37432vmgkg54krwr1z057bqwp7583-go-1.25.5/share/go/src/reflect/type.go:2060-2072 | sets exactly the bits of n copies of the mask at the element's distance |
| PtrBits.ArrayMask | go/flow_test/files/nix/store/60z37432vmgkg54krwr1z057bqwp7583-go-1.25.5/share/go/src/reflect/type.go:2641-2669 | from the right mask of the element the right mask of the array |
| PtrBits.RepeatedIs | go/flow_test/files/nix/store/60z37432vmgkg54krwr1z057bqwp7583-go-1.25.5/share/go/src/reflect/type.go:2651-2669 | a word of the array is a pointer exactly when a copy of the element's mask marks it |
| PtrBits.MasksAgree | go/flow_test/files/nix/store/60z37432vmgkg54krwr1z057bqwp7583-go-1.25.5/share/go/src/reflect/type.go:2651-2669 | for every array type both builders give the same bits, those of its pointers |
| FieldLookup.ScanFields | go/flow_test/files/nix/store/60z37432vmgkg54krwr1z057bqwp7583-go-1.25.5/share/go/src/reflect/type.go:1228-1278 | looks at the fields of one item: paths, counts and hits stay those of the fields looked at, with a clash only for two hits |
| FieldLookup.ScanLevel | go/flow_test/files/nix/store/60z37432vmgkg54krwr1z057bqwp7583-go-1.25.5/share/go/src/reflect/type.go:1210-1283 | finds the one hit of a level, or two different ones, or that there is none and the next level's queue and counts |
| FieldLookup.DoneAll | go/flow_test/files/nix/store/60z37432vmgkg54krwr1z057bqwp7583-go-1.25.5/share/go/src/reflect/type.go:1201-1280 | a struct first reached at the next level is reached only through structs first reached at this one, so visited structs may be left out |
| FieldLookup.NextFirst | go/flow_test/files/nix/store/60z37432vmgkg54krwr1z057bqwp7583-go-1.25.5/share/go/src/reflect/type.go:1256-1277 | a struct reached for the first time is queued once with one of its paths, counted one or several |
| FieldLookup.NextAgain | go/flow_test/files/nix/store/60z37432vmgkg54krwr1z057bqwp7583-go-1.25.5/share/go/src/reflect/type.go:1263-1266 | a struct reached again has its count at two |
| FieldLookup.OneSelects | go/flow_test/files/nix/store/60z37432vmgkg54krwr1z057bqwp7583-go-1.25.5/share/go/src/reflect/type.go:1201-1285 | the one hit of the first level that has any is what the language selects |
| FieldLookup.TwoSelectNone | go/flow_test/files/nix/store/60z37432vmgkg54krwr1z057bqwp7583-go-1.25.5/share/go/src/reflect/type.go:1201-1285 | two hits at that level, and nothing is selected |
| FieldLookup.EmptyEnds | go/flow_test/files/nix/store/60z37432vmgkg54krwr1z057bqwp7583-go-1.25.5/share/go/src/reflect/type.go:1201-1285 | an empty queue means that there is no hit at any depth |
| FieldLookup.SelectsOnce | go/flow_test/files/nix/store/60z37432vmgkg54krwr1z057bqwp7583-go-1.25.5/share/go/src/reflect/type.go:1183-1285 | at most one path is selected, so the answer does not depend on the order of the search |
| FieldLookup.HitIff | go/flow_test/files/nix/store/60z37432vmgkg54krwr1z057bqwp7583-go-1.25.5/share/go/src/reflect/type.go:1228-1278 | a path leads to a match exactly if every field on it but the last is embedded and is a struct or a pointer to one, and the last has a name that is wanted |
| FieldLookup.FieldByNameFunc | go/flow_test/files/nix/store/60z37432vmgkg54krwr1z057bqwp7583-go-1.25.5/share/go/src/reflect/type.go:1183-1285 | found exactly if the language selects a path, and then with that path, its field and the struct that has it, over arbitrary cyclic embedding; terminates |
| FieldLookup.FieldByName | go/flow_test/files/nix/store/60z37432vmgkg54krwr1z057bqwp7583-go-1.25.5/share/go/src/reflect/type.go:1289-1307 | the same for non-empty names that at most one top-level field has; with two of them it gives the first although nothing is selected, and an empty name finds nothing |
| FieldLookup.FindBlank | go/flow_test/files/nix/store/60z37432vmgkg54krwr1z057bqwp7583-go-1.25.5/share/go/src/reflect/type.go:1289-1307 | a struct with two blank fields: FieldByName gives the first, the language selects none |
| FieldLookup.TopLevel | go/flow_test/files/nix/store/60z37432vmgkg54krwr1z057bqwp7583-go-1.25.5/share/go/src/reflect/type.go:1289-1307 | a top-level field is selected exactly if it is the only one of its name |
| FieldLookup.FieldByIndex | go/flow_test/files/nix/store/60z37432vmgkg54krwr1z057bqwp7583-go-1.25.5/share/go/src/reflect/type.go:1160-1173 | gives a field exactly for the paths that stay in structs and pointers to structs, and the field at the end of the path; on a path to a match that is the match |
| PathPattern.WidthLocal | go/flow_test/files/nix/store/60z37432vmgkg54krwr1z057bqwp7583-go-1.25.5/share/go/src/path/match.go:208-230 | a well-formed character stands for itself whatever follows |
| PathPattern.ScanClass | go/flow_test/files/nix/store/60z37432vmgkg54krwr1z057bqwp7583-go-1.25.5/share/go/src/path/match.go:92-118 | the tracking of brackets passes exactly the class that the grammar reads |
| PathPattern.ChunkSplit | go/flow_test/files/nix/store/60z37432vmgkg54krwr1z057bqwp7583-go-1.25.5/share/go/src/path/match.go:92-118 | a pattern is its first chunk, parsed alone, and the rest; malformed exactly when one of the two is |
| PathForms.Decodes | go/flow_test/files/nix/store/60z37432vmgkg54krwr1z057bqwp7583-go-1.25.5/share/go/src/path/match.go:187-195 | the character that UTF-8 encodes is read back, whatever follows (section 3 of RFC 3629) |
| PathForms.OnlyEncoded | go/flow_test/files/nix/store/60z37432vmgkg54krwr1z057bqwp7583-go-1.25.5/share/go/src/path/match.go:187-195 | and only what UTF-8 encodes is read as a character |
| PathForms.PlainParse | go/flow_test/files/nix/store/60z37432vmgkg54krwr1z057bqwp7583-go-1.25.5/share/go/src/path/match.go:17-35 | bytes other than *, ?, [ and the backslash stand for themselves |
| PathForms.QuotedParse | go/flow_test/files/nix/store/60z37432vmgkg54krwr1z057bqwp7583-go-1.25.5/share/go/src/path/match.go:17-35 | behind a backslash every byte does |
| PathForms.LoneBackslash | go/flow_test/files/nix/store/60z37432vmgkg54krwr1z057bqwp7583-go-1.25.5/share/go/src/path/match.go:17-35 | a backslash at the end of a pattern is malformed |
| PathForms.LettersMatch | go/flow_test/files/nix/store/60z37432vmgkg54krwr1z057bqwp7583-go-1.25.5/share/go/src/path/match.go:17-35 | a pattern of letters matches that name alone |
| PathForms.QuestionForm | go/flow_test/files/nix/store/60z37432vmgkg54krwr1z057bqwp7583-go-1.25.5/share/go/src/path/match.go:17-35 | ? matches exactly the single characters other than the slash |
| PathForms.StarForm | go/flow_test/files/nix/store/60z37432vmgkg54krwr1z057bqwp7583-go-1.25.5/share/go/src/path/match.go:17-35 | * matches exactly the names without slash |
| PathForms.RangeForm | go/flow_test/files/nix/store/60z37432vmgkg54krwr1z057bqwp7583-go-1.25.5/share/go/src/path/match.go:17-35 | [a-z] matches exactly the single characters from a to z, both included, and [^a-z] the others |
| PathForms.BadClasses | go/flow_test/files/nix/store/60z37432vmgkg54krwr1z057bqwp7583-go-1.25.5/share/go/src/path/match.go:137-173 | classes without a range, with an open range or without an end are malformed |
| PathForms.SlashesMatch | go/flow_test/files/nix/store/60z37432vmgkg54krwr1z057bqwp7583-go-1.25.5/share/go/src/path/match.go:17-35 | a pattern matches only names with as many slashes, unless a class matches a slash |
| PathMatch.ManyStars | go/flow_test/files/nix/store/60z37432vmgkg54krwr1z057bqwp7583-go-1.25.5/share/go/src/path/match.go:92-118 | leading stars are as good as one |
| PathMatch.ChunksParse | go/flow_test/files/nix/store/60z37432vmgkg54krwr1z057bqwp7583-go-1.25.5/share/go/src/path/match.go:37-88 | the chunks say the same as the grammar of the whole pattern: malformed or not, and what they match |
| PathMatch.PlaceIs | go/flow_test/files/nix/store/60z37432vmgkg54krwr1z057bqwp7583-go-1.25.5/share/go/src/path/match.go:47-76 | a chunk is placed behind a span without slash, which only a star allows |
| PathMatch.Sound | go/flow_test/files/nix/store/60z37432vmgkg54krwr1z057bqwp7583-go-1.25.5/share/go/src/path/match.go:37-88 | what the greedy matcher accepts, the declarative relation accepts, for every pattern and name |
| PathMatch.Complete | go/flow_test/files/nix/store/60z37432vmgkg54krwr1z057bqwp7583-go-1.25.5/share/go/src/path/match.go:37-88 | what the relation accepts the matcher accepts, leftmost placement loses nothing, unless a chunk between two stars has a class that matches a slash, or is more than literals in a name that is not ASCII |
| PathMatch.LeftmostLoses | go/flow_test/files/nix/store/60z37432vmgkg54krwr1z057bqwp7583-go-1.25.5/share/go/src/path/match.go:47-76 | with a class that admits a slash it can lose: the pattern *[^b]*c, parsed byte by byte, and the name x/c |
| PathMatch.LeftmostLosesBytes | go/flow_test/files/nix/store/60z37432vmgkg54krwr1z057bqwp7583-go-1.25.5/share/go/src/path/match.go:47-76 | so it can in a character of several bytes: the pattern *?*? and the euro sign |
| PathMatch.MatchLoses | go/flow_test/files/nix/store/60z37432vmgkg54krwr1z057bqwp7583-go-1.25.5/share/go/src/path/match.go:37-88 | Match answers false and no error for both |
| PathMatch.Decides | go/flow_test/files/nix/store/60z37432vmgkg54krwr1z057bqwp7583-go-1.25.5/share/go/src/path/match.go:37-88 | the matcher's answer against the relation, one way always and both ways under the condition |
| PathMatch.ScanChunk | go/flow_test/files/nix/store/60z37432vmgkg54krwr1z057bqwp7583-go-1.25.5/share/go/src/path/match.go:92-118 | star, chunk and rest are those of the scan |
| PathMatch.ReadEsc | go/flow_test/files/nix/store/60z37432vmgkg54krwr1z057bqwp7583-go-1.25.5/share/go/src/path/match.go:209-230 | the possibly escaped character of a class, bad exactly if the grammar has none |
| PathMatch.MatchRanges | go/flow_test/files/nix/store/60z37432vmgkg54krwr1z057bqwp7583-go-1.25.5/share/go/src/path/match.go:148-170 | the ranges of a class up to its bracket and whether a rune is in one |
| PathMatch.MatchClass | go/flow_test/files/nix/store/60z37432vmgkg54krwr1z057bqwp7583-go-1.25.5/share/go/src/path/match.go:133-173 | bad exactly if the class is malformed, else whether the rune passes |
| PathMatch.MatchChunk | go/flow_test/files/nix/store/60z37432vmgkg54krwr1z057bqwp7583-go-1.25.5/share/go/src/path/match.go:123-206 | bad exactly if the chunk is malformed, whatever the name; else exactly what the terms leave of the name |
| PathMatch.SkipAndMatch | go/flow_test/files/nix/store/60z37432vmgkg54krwr1z057bqwp7583-go-1.25.5/share/go/src/path/match.go:59-76 | the leftmost place behind the first |
| PathMatch.CheckRest | go/flow_test/files/nix/store/60z37432vmgkg54krwr1z057bqwp7583-go-1.25.5/share/go/src/path/match.go:77-84 | before the answer no, bad exactly if the rest is malformed |
| PathMatch.Match | go/flow_test/files/nix/store/60z37432vmgkg54krwr1z057bqwp7583-go-1.25.5/share/go/src/path/match.go:37-88 | ErrBadPattern exactly for malformed patterns, whatever the name; true implies the relation, and is the relation under the condition of Complete |
| ProcHandle.HoldersStep | go/flow_test/files/nix/store/60z37432vmgkg54krwr1z057bqwp7583-go-1.25.5/share/go/src/os/exec.go:83-112 | one thread's step changes the number of holders by what that thread gains or loses |
| ProcHandle.RunKeeps | go/flow_test/files/nix/store/60z37432vmgkg54krwr1z057bqwp7583-go-1.25.5/share/go/src/os/exec.go:83-178 | every atomic step of acquire, release, handleTransientAcquire and doRelease keeps the invariant |
| ProcHandle.CleanupStarts | go/flow_test/files/nix/store/60z37432vmgkg54krwr1z057bqwp7583-go-1.25.5/share/go/src/os/exec.go:123-142 | so does the start of the collector's cleanup |
| ProcHandle.StepKeeps | go/flow_test/files/nix/store/60z37432vmgkg54krwr1z057bqwp7583-go-1.25.5/share/go/src/os/pidfd_linux.go:84-138 | so does every step of every Wait, Signal and Release |
| ProcHandle.RunsKeep | go/flow_test/files/nix/store/60z37432vmgkg54krwr1z057bqwp7583-go-1.25.5/share/go/src/os/exec.go:83-178 | and every run |
| ProcHandle.HandleSafe | go/flow_test/files/nix/store/60z37432vmgkg54krwr1z057bqwp7583-go-1.25.5/share/go/src/os/exec.go:83-178 | in every interleaving no panic is reached, refs is the holders plus one while the process keeps its reference, the handle is closed at most once and never while held |
| ProcHandle.NoLeak | go/flow_test/files/nix/store/60z37432vmgkg54krwr1z057bqwp7583-go-1.25.5/share/go/src/os/exec.go:297-325 | once all calls have returned the handle is closed exactly if the process was waited for, released or collected |
| ProcHandle.StatusOnce | go/flow_test/files/nix/store/60z37432vmgkg54krwr1z057bqwp7583-go-1.25.5/share/go/src/os/exec.go:297-325 | the status is set once |
| ProcEnds.StatusOrigin | go/flow_test/files/nix/store/60z37432vmgkg54krwr1z057bqwp7583-go-1.25.5/share/go/src/os/exec.go:297-325 | in every run the process is done only after a Wait has succeeded, and released only after a Release was begun |
| ProcEnds.EndsFor | go/flow_test/files/nix/store/60z37432vmgkg54krwr1z057bqwp7583-go-1.25.5/share/go/src/os/exec.go:297-325 | once all calls have returned after a Release or a successful Wait, the status is set |
| ProcEnds.NeverAgain | go/flow_test/files/nix/store/60z37432vmgkg54krwr1z057bqwp7583-go-1.25.5/share/go/src/os/exec.go:155-178 | calls that begin when the status is set never use the handle |
| Pipe.StreamHolder | go/flow_test/files/nix/store/60z37432vmgkg54krwr1z057bqwp7583-go-1.25.5/share/go/src/io/pipe.go:76-96 | a write that goes on or returns moves no byte of the stream |
| Pipe.PairOne | go/flow_test/files/nix/store/60z37432vmgkg54krwr1z057bqwp7583-go-1.25.5/share/go/src/io/pipe.go:57-62 | what the reader has is what the writer offers, through the copy |
| Pipe.MeetKeeps | go/flow_test/files/nix/store/60z37432vmgkg54krwr1z057bqwp7583-go-1.25.5/share/go/src/io/pipe.go:57-96 | the transfer over the channel of the bytes keeps the invariant |
| Pipe.AckKeeps | go/flow_test/files/nix/store/60z37432vmgkg54krwr1z057bqwp7583-go-1.25.5/share/go/src/io/pipe.go:57-96 | the transfer over the channel of the counts advances write and stream by the same bytes |
| Pipe.LogOne | go/flow_test/files/nix/store/60z37432vmgkg54krwr1z057bqwp7583-go-1.25.5/share/go/src/io/pipe.go:107-123 | every return is right when it happens, and stays right |
| Pipe.StepKeeps | go/flow_test/files/nix/store/60z37432vmgkg54krwr1z057bqwp7583-go-1.25.5/share/go/src/io/pipe.go:50-123 | every step of every read, write and close keeps the invariant |
| Pipe.StreamPreserved | go/flow_test/files/nix/store/60z37432vmgkg54krwr1z057bqwp7583-go-1.25.5/share/go/src/io/pipe.go:50-96 | in every interleaving the bytes given to reads in order are those that writes consumed in the order in which they had the lock |
| Pipe.ReturnsRight | go/flow_test/files/nix/store/60z37432vmgkg54krwr1z057bqwp7583-go-1.25.5/share/go/src/io/pipe.go:50-123 | a write without an error consumed all of its argument; an error is given only on a closed pipe, and is the other side's first one unless the own side is closed |
| PipeEnds.CloseOrigins | go/flow_test/files/nix/store/60z37432vmgkg54krwr1z057bqwp7583-go-1.25.5/share/go/src/io/pipe.go:64-106 | the errors stored are those that closes were called with, or EOF for the writer and ErrClosedPipe for the reader if they gave none |
| PipeEnds.ReadsEndWithEOF | go/flow_test/files/nix/store/60z37432vmgkg54krwr1z057bqwp7583-go-1.25.5/share/go/src/io/pipe.go:50-106 | if only the writer is closed, and without an error, every read that fails gives EOF and no bytes |
| PipeEnds.WritesEndWithClosed | go/flow_test/files/nix/store/60z37432vmgkg54krwr1z057bqwp7583-go-1.25.5/share/go/src/io/pipe.go:64-123 | if only the reader is closed, and without an error, every write that fails gives ErrClosedPipe |
| PipeEnds.OwnSideFirst | go/flow_test/files/nix/store/60z37432vmgkg54krwr1z057bqwp7583-go-1.25.5/share/go/src/io/pipe.go:107-123 | once a side is closed its own failing calls give ErrClosedPipe, whatever the other side is closed with |
| PipeEnds.ClosedRefuses | go/flow_test/files/nix/store/60z37432vmgkg54krwr1z057bqwp7583-go-1.25.5/share/go/src/io/pipe.go:50-96 | calls on a closed pipe fail and move no byte |
| PipeEnds.ReadTakes | go/flow_test/files/nix/store/60z37432vmgkg54krwr1z057bqwp7583-go-1.25.5/share/go/src/io/pipe.go:57-62 | a read takes the next bytes of the write, as many as its buffer holds and the write has left |
| PipeEnds.WritesMeetReads | go/flow_test/files/nix/store/60z37432vmgkg54krwr1z057bqwp7583-go-1.25.5/share/go/src/io/pipe.go:76-96 | there are never more writes that succeeded, empty ones included, than reads that did |
| Pipe.OneTransfer | go/flow_test/files/nix/store/60z37432vmgkg54krwr1z057bqwp7583-go-1.25.5/share/go/src/io/pipe.go:50-96 | at most one transfer awaits its acknowledgement, and it can always be completed |
| Pipe.OnlyWaiting | go/flow_test/files/nix/store/60z37432vmgkg54krwr1z057bqwp7583-go-1.25.5/share/go/src/io/pipe.go:50-96 | when no call can go on, the open pipe has only reads waiting, or one write with the lock and only writes behind it; a closed pipe has no call left |
| Pipe.RunsStop | go/flow_test/files/nix/store/60z37432vmgkg54krwr1z057bqwp7583-go-1.25.5/share/go/src/io/pipe.go:50-105 | calls that have started take only so many steps, so after a close all of them return |
| FmtDigits.DigitsValue | go/flow_test/files/nix/store/60z37432vmgkg54krwr1z057bqwp7583-go-1.25.5/share/go/src/fmt/format.go:242-272 | the digits of a number denote it, in every base |
| FmtDigits.LeadingDigit | go/flow_test/files/nix/store/60z37432vmgkg54krwr1z057bqwp7583-go-1.25.5/share/go/src/fmt/format.go:287-291 | digits have no leading zero, unless the number is zero |
| FmtDigits.Digits64 | go/flow_test/files/nix/store/60z37432vmgkg54krwr1z057bqwp7583-go-1.25.5/share/go/src/fmt/format.go:242-272 | no 64-bit number has more than 64 digits |
| FmtDigits.Hex64 | go/flow_test/files/nix/store/60z37432vmgkg54krwr1z057bqwp7583-go-1.25.5/share/go/src/fmt/format.go:169-176 | nor more than 16 in base 16 |
| FmtText.Fits | go/flow_test/files/nix/store/60z37432vmgkg54krwr1z057bqwp7583-go-1.25.5/share/go/src/fmt/format.go:197-324 | the buffer of 68 bytes, or of 3 + wid + prec, has room for every number, whatever the value, flags, width and precision |
| FmtText.FitsIff | go/flow_test/files/nix/store/60z37432vmgkg54krwr1z057bqwp7583-go-1.25.5/share/go/src/fmt/format.go:197-324 | for which bases and verbs that holds: all but %O with base 2 or 16, which no caller uses |
| FmtText.TooLong | go/flow_test/files/nix/store/60z37432vmgkg54krwr1z057bqwp7583-go-1.25.5/share/go/src/fmt/format.go:197-324 | one number that does not fit with %O in base 2 or 16 |
| FmtText.ReadsBack | go/flow_test/files/nix/store/60z37432vmgkg54krwr1z057bqwp7583-go-1.25.5/share/go/src/fmt/format.go:197-324 | what is printed reads back as the integer, with the prefix, the case and only the digits of its base, for every base, flags, width and precision but zero with precision zero |
| FmtText.PadFills | go/flow_test/files/nix/store/60z37432vmgkg54krwr1z057bqwp7583-go-1.25.5/share/go/src/fmt/format.go:93-108 | padding fills up to the width and never cuts |
| FmtText.PadSides | go/flow_test/files/nix/store/60z37432vmgkg54krwr1z057bqwp7583-go-1.25.5/share/go/src/fmt/format.go:93-108 | blanks stand behind the text with the flag -, else blanks or zeros in front of it |
| FmtText.SignShown | go/flow_test/files/nix/store/60z37432vmgkg54krwr1z057bqwp7583-go-1.25.5/share/go/src/fmt/format.go:301-316 | a minus exactly for negative numbers, else a plus or a blank exactly if a flag asks for it, the plus first |
| FmtText.PrecisionFills | go/flow_test/files/nix/store/60z37432vmgkg54krwr1z057bqwp7583-go-1.25.5/share/go/src/fmt/format.go:208-226 | with a precision there are as many digits as it says, or as the number needs |
| FmtText.ZeroFills | go/flow_test/files/nix/store/60z37432vmgkg54krwr1z057bqwp7583-go-1.25.5/share/go/src/fmt/format.go:208-226 | with the flag 0 sign, zeros and digits fill the width |
| FmtText.ZeroText | go/flow_test/files/nix/store/60z37432vmgkg54krwr1z057bqwp7583-go-1.25.5/share/go/src/fmt/format.go:208-226 | and no blank is left but one in place of the sign, with a prefix too |
| FmtText.TextShape | go/flow_test/files/nix/store/60z37432vmgkg54krwr1z057bqwp7583-go-1.25.5/share/go/src/fmt/format.go:317-324 | the text has the width, and the number stands at the end that the flag - says |
| FmtText.UnicodeFits | go/flow_test/files/nix/store/60z37432vmgkg54krwr1z057bqwp7583-go-1.25.5/share/go/src/fmt/format.go:138-194 | the buffer of fmtUnicode has room |
| FmtText.UnicodeReads | go/flow_test/files/nix/store/60z37432vmgkg54krwr1z057bqwp7583-go-1.25.5/share/go/src/fmt/format.go:138-194 | the text begins with U+, its digits denote the code point in upper case and are at least four, or the precision |
| FmtText.EncodeRunes | go/flow_test/files/nix/store/60z37432vmgkg54krwr1z057bqwp7583-go-1.25.5/share/go/src/fmt/format.go:158-167 | an encoded code point counts as one rune |
| FmtInteger.PutDigits | go/flow_test/files/nix/store/60z37432vmgkg54krwr1z057bqwp7583-go-1.25.5/share/go/src/fmt/format.go:239-272 | the loop of each base writes exactly the digits, right to left |
| FmtInteger.PutZeros | go/flow_test/files/nix/store/60z37432vmgkg54krwr1z057bqwp7583-go-1.25.5/share/go/src/fmt/format.go:273-276 | zeros in front until as many digits as wanted |
| FmtInteger.PutMark | go/flow_test/files/nix/store/60z37432vmgkg54krwr1z057bqwp7583-go-1.25.5/share/go/src/fmt/format.go:279-299 | the prefix of the base |
| FmtInteger.PutNumber | go/flow_test/files/nix/store/60z37432vmgkg54krwr1z057bqwp7583-go-1.25.5/share/go/src/fmt/format.go:239-316 | the number ends up at the end of the buffer, whose index never falls below zero |
| FmtInteger.TextReads | go/flow_test/files/nix/store/60z37432vmgkg54krwr1z057bqwp7583-go-1.25.5/share/go/src/fmt/print.go:421-448 | the text of each verb reads back in the base of the verb, given as a number |
| FmtInteger.Fmt.constructor | go/flow_test/files/nix/store/60z37432vmgkg54krwr1z057bqwp7583-go-1.25.5/share/go/src/fmt/format.go:42-64 | an empty output, no flags, a buffer of 68 bytes |
| FmtInteger.Fmt.WritePadding | go/flow_test/files/nix/store/60z37432vmgkg54krwr1z057bqwp7583-go-1.25.5/share/go/src/fmt/format.go:66-90 | appends n padding bytes, zeros only to the left |
| FmtInteger.Fmt.Pad | go/flow_test/files/nix/store/60z37432vmgkg54krwr1z057bqwp7583-go-1.25.5/share/go/src/fmt/format.go:93-108 | appends the text, padded to the width in runes |
| FmtInteger.Fmt.FmtInteger | go/flow_test/files/nix/store/60z37432vmgkg54krwr1z057bqwp7583-go-1.25.5/share/go/src/fmt/format.go:197-324 | appends exactly the padded number, or only blanks for zero with precision zero, and restores the flags |
| FmtInteger.Fmt.FmtUnicode | go/flow_test/files/nix/store/60z37432vmgkg54krwr1z057bqwp7583-go-1.25.5/share/go/src/fmt/format.go:138-194 | appends exactly the padded code point |
| FmtInteger.Fmt.Fmt0x64 | go/flow_test/files/nix/store/60z37432vmgkg54krwr1z057bqwp7583-go-1.25.5/share/go/src/fmt/print.go:413-418 | hexadecimal with or without prefix, the sharp flag put back |
| FmtInteger.Fmt.PrintInteger | go/flow_test/files/nix/store/60z37432vmgkg54krwr1z057bqwp7583-go-1.25.5/share/go/src/fmt/print.go:421-448 | each verb with its base, digits and flags; what is appended reads back as the integer, in base 10 for %d, 2 for %b, 8 for %o and %O, 16 for %x and %X |
| FmtParse.ParseNum | go/flow_test/files/nix/store/60z37432vmgkg54krwr1z057bqwp7583-go-1.25.5/share/go/src/fmt/print.go:357-369 | the number that the digits denote, or none if they are too many, never negative |
| FmtParse.IntFromArg | go/flow_test/files/nix/store/60z37432vmgkg54krwr1z057bqwp7583-go-1.25.5/share/go/src/fmt/print.go:934-964 | an integer argument of either kind up to a million in magnitude, or zero |
| FmtParse.ParseArgNumber | go/flow_test/files/nix/store/60z37432vmgkg54krwr1z057bqwp7583-go-1.25.5/share/go/src/fmt/print.go:972-989 | the number in brackets less one, ok exactly if the brackets close around a number |
| FmtParse.Printer.ArgNumber | go/flow_test/files/nix/store/60z37432vmgkg54krwr1z057bqwp7583-go-1.25.5/share/go/src/fmt/print.go:994-1005 | the argument that a valid index names and where the index ends; an index that is not valid marks the directive as bad |
| FmtParse.Printer.ParseFlags | go/flow_test/files/nix/store/60z37432vmgkg54krwr1z057bqwp7583-go-1.25.5/share/go/src/fmt/print.go:1043-1082 | the flags up to the first character that is none |
| FmtParse.Printer.ParseWidth | go/flow_test/files/nix/store/60z37432vmgkg54krwr1z057bqwp7583-go-1.25.5/share/go/src/fmt/print.go:1087-1109 | a width that is not negative, written or from an argument; a negative argument sets minus and clears zero, none is reported; a width behind an index is bad |
| FmtParse.Printer.ParsePrec | go/flow_test/files/nix/store/60z37432vmgkg54krwr1z057bqwp7583-go-1.25.5/share/go/src/fmt/print.go:1111-1137 | a precision that is not negative, written or from an argument; a negative argument counts as none and is reported; a precision behind an index is bad |
| FmtParse.Printer.Directive | go/flow_test/files/nix/store/60z37432vmgkg54krwr1z057bqwp7583-go-1.25.5/share/go/src/fmt/print.go:1039-1141 | width and precision are not negative and zero where not present, for every format and arguments; a plain directive gives just its flags and numbers, a star the next argument as width, an index the argument that it names |
| FmtParse.Printer.PrintVerb | go/flow_test/files/nix/store/60z37432vmgkg54krwr1z057bqwp7583-go-1.25.5/share/go/src/fmt/print.go:1143-1175 | the argument is printed by its verb, or it is reported that the verb, the index or the argument is missing |
| FmtParse.Printer.PrintOne | go/flow_test/files/nix/store/60z37432vmgkg54krwr1z057bqwp7583-go-1.25.5/share/go/src/fmt/print.go:1039-1175 | a plain directive with an integer argument prints exactly that integer with its flags, width and precision, and the text denotes it in the base of the verb; so does one with a star for the width or with an index; what is missing is reported |
| FmtParse.DirectiveReads | go/flow_test/files/nix/store/60z37432vmgkg54krwr1z057bqwp7583-go-1.25.5/share/go/src/fmt/print.go:1039-1141 | a directive written with flags, width, precision and verb is read as such |
| FmtParse.IndexReads | go/flow_test/files/nix/store/60z37432vmgkg54krwr1z057bqwp7583-go-1.25.5/share/go/src/fmt/print.go:972-1005 | an index written in front of a verb is valid exactly from one to the number of arguments, and names the argument of that number |
| FmtParse.PrintedIs | go/flow_test/files/nix/store/60z37432vmgkg54krwr1z057bqwp7583-go-1.25.5/share/go/src/fmt/print.go:1039-1175 | from the characters of a directive: the text has the width, stands at the side that the flag - says, shows the sign that is asked for, and denotes the argument in the base of its verb with the prefix for # |
| FmtParse.PlainDenotes | go/flow_test/files/nix/store/60z37432vmgkg54krwr1z057bqwp7583-go-1.25.5/share/go/src/fmt/print.go:1039-1175 | the same where the directive stands in a format |

## Left out

- Orc.Heap.Free: user destructors do nothing here; the original runs the type's destructor on a cell whose traced fields are nil.
- Orc.Heap.DecRefIsLastCyclicDyn: when it is the last reference the destruction by the caller (nimDestroyAndDispose) is not modelled.
- ChunkAlloc.MemRegion.GetBigChunk: does not model running out of memory, which ends the program, nor the heap links that only serve to return memory at exit.
- ChunkAlloc.MemRegion.constructor: chunkStarts is a set; `PageSet.IntSet` is the table that realises it, and the pages that llAlloc takes for its blocks are not counted in currMem.
- PageSet.IntSet.Incl: the linked blocks of a list are a sequence and the bits of a word are flags; updates in place and aliasing of blocks are not captured.
- ChunkAlloc.MemRegion.AskSystem: a second refusal by the system, which ends the program, is not modelled.
- ChunkAlloc.MemRegion.RequestOsChunks: the same, and the heap links that only serve to return memory at exit.
- SmallCells.Allocator.RawAlloc: requests of 0 bytes are not modelled: their cells have size 0 and all share one address, and a page never runs out of them; nor requests above 1056964608 bytes (huge chunks), nor freeing what other threads deferred.
- SmallCells.Allocator.ListAdd: what becomes of other pages on the list is not stated, because at most one page of a class has room (`SmallCells.Allocator.Valid`), so there are none.
- SmallCells.Allocator.ListRemove: the same.
- SmallCells.Allocator.RawDealloc: larger blocks freed by other threads go to a list that is not modelled.
- SmallCells.Allocator.FreeCell: the next pointers inside free cells are sequences of addresses; the contents of cells are not modelled. `SharedFreeList` has the pointers for the list that is shared.
- SharedFreeList.StepKeeps: sequentially consistent steps instead of relaxed memory orderings; a failed exchange may fail for no reason.
- The shared list of big chunks and freeDeferredObjects: the re-enqueueing of a long remainder overwrites a link of it, so nothing is claimed.
- Nim debug frames, exceptions, overflow checks, strings, sequences and reallocation: plumbing around the cores.
- AbiCalls.BuildCall: spill space is left out, and the bitmap of the frame and the results are those of `FrameMaps.BuildFrameMap`, which repeats the loop for types whose pointers are aligned; the bitmap of registers is stated without a receiver only, because the original looks at the wrong steps with one and does not use the result.
- AbiCalls.CallMethod: the call itself and the results coming back are left out; results use the same layout functions.
- AbiRoundTrip.CallRoundTrip: the stubs in assembly are taken to keep integer and float registers and the stack; machines with 64-bit words that are little-endian.
- AbiTypes.PartsCover: lengths and sizes are unbounded numbers, without the wrap-around of uintptr.
- PtrBits.ArrayMask: the case that leaves the bitmap to the runtime to build on demand is left out.
- FieldLookup.FieldByNameFunc: only the type and index of the field found, not the other parts of a StructField.
- PathMatch.Complete: not where a chunk between two stars has a class that matches a slash, or more than literals in a name that is not ASCII; the greedy search loses matches there (`PathMatch.MatchLoses`), though not on every such name.
- ProcHandle.HandleSafe: handles only, not the mode with process numbers; the reference count has no upper limit; atomic operations are sequentially consistent.
- Pipe.StreamPreserved: buffers are values, so a caller that changes its slice during a write is not captured.
- FmtInteger.Fmt.FmtUnicode: the digits are written by the loops of fmtInteger, which the original repeats for base 16.
- FmtInteger.Fmt.WritePadding: the growth of the output buffer is that of a sequence.
- FmtInteger.Fmt.PrintInteger: the text of %c, %q and of verbs that are none is not modelled.
- FmtInteger.Fmt.Pad: runes are counted for well-formed text, which is all that these callers pass.
- FmtParse.Printer.Directive: a directive with several stars or indexes is stated part by part (`ArgNumber`, `ParseWidth`, `ParsePrec`), and as a whole only where one of them stands right in front of the verb.
- FmtParse.Printer.PrintOne: literal text, verbs outside ASCII, arguments that are no integers and the report of extra arguments are left out.
- Floating point, strings, structs and the other verbs of fmt; pull iterators, errors, cmp, scan; files and directories; setters, conversions and caches of reflect: easier, or resting on code that is not here.
- The programs and their traces: input and output.
