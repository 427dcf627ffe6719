# Ripe, proved

Ripe is a small object language that is compiled to C and linked with a runtime. This project models, in Dafny, the
parts of the compiler and the runtime where a result depends on an argument that no single function shows: hashing
with quadratic probing, exceptions lowered to a handler stack, a tree of partial sums, an in-place merge sort, an
indentation-sensitive lexer, an inheritance pass over a shared table, a parser with its printer, and a few more.
Each operation keeps the form it has in the source: what the source updates in place is a class or an array here, with
its loops, and is tied to a specification function; the properties are then proved of those functions.

`dafny verify dfyconfig.toml` checks everything.

## What is proved, and where the code does less than one would think

- **Hash tables.** Over every run of sets, look-ups and removals, with growth in between, a table is a finite map up to
  key equality. That a probe finds a slot is a fact about squares modulo a prime. In every table of a size that can be built it
  finds one exactly when the key's walk visits more than half of the slots (`Probing.CoversMajority`). Walks whose sum stays
  below 2^64 do; one that wraps around may not. For -1 it never does: adding 0, 2, 3, 8, 9 and 11 to a new set and asking for
  -1 ends the program (`TableRuns.MinusOneEndsTheProgram`).
- **Dictionaries.** The compiler's own dictionary answers look-ups as a finite map over every run. It has one bucket a key
  exactly as long as no key is set twice: a key set again is stored twice more each time, and the fifth time ends the program
  (`DictRuns.FiveSetsEndTheProgram`).
- **Exceptions.** The emitted pushes, pops and jumps of every program the compiler accepts do what a structured meaning says
  that carries the runtime's one unwinding flag (`UnwinderTheorems.FlaggedPreserved`). That meaning is the one the source is
  read to have exactly as long as a run comes to no clash with the flag (`OneFlag.NoClashExactly`); programs whose finally
  blocks hold no return and no try never do. Three programs show the ways in which code and source part (`FinallyLimits`).
- **Sampling, sorting, growing, views.** Descent through the partial sums picks the outcome that a linear search picks;
  the sort is a sorted permutation with ties in exactly reversed (or, with `<=`, kept) order and at most
  `n * ceil(log2 n)` comparisons; reallocation copies at most two slots an operation, and no fewer
  will do; views of views are slices of slices at indexes in range, and at exactly which others is proved too.
- **Layout.** The lexer inverts an indenting printer and accepts exactly the lines of block trees. A line of nothing but
  `;` at the level of the line before, and a line indented less than the first one, make it read outside its arrays.
- **Genealogy.** The three-colour search over the shared class table gives each class what a plain recursion on that
  class alone gives it, whatever the order of the table. When that is an error, and which, is told from the table alone.
- **JSON, UTF-8, format strings, typed arithmetic.** Round trips and meaning preservation, with the exact condition
  where there is one.

## Findings

Where the code does not do what it is for. Each has a lemma with an input, and where the property is a general one, a lemma
that says exactly when it holds.

- vm/builtin/HashTable.c:27-46. The probe adds in 64-bit arithmetic. A hash that wraps early in the walk, such as that of a small
  negative integer, visits too few slots, and the search can reach assert_never() in a table that is not half full
  (`TableRuns.MinusOneEndsTheProgram`, `TableRuns.RunThatFails`; exactly: `TableRuns.ValueRunsAnswerIff`).
- clib/dict.c:99-153. `set` does not stop at a key it overwrites but also fills the next empty bucket, and `dict_set` then goes on
  to insert the key as a new one, and counts it again. Look-ups still answer rightly (`DictAnswers.EveryRunAnswers`), but
  iterations repeat the key (`DictSpec.OverwriteDuplicates`; exactly: `DictAnswers.RunKeepsMapExactly`), and the fifth set of one
  key ends the program (`DictRuns.FiveSetsEndTheProgram`).
- riperipe/eval.rip:226-265. Literals are pasted into C as they are, where a small one is an `int`: with types on,
  `2147483647 + 1` overflows (`Unboxed.LiteralsOverflow`). Comparisons are made on 64 bits with types on and on 62 bits with types off
  (`Unboxed.ComparisonIsLost`). Exactly: `Unboxed.KeptExactly`.
- vm/vm.h:110-115. A return in a finally block, while the exception of its own body is under way, leaves the unwinding flag set,
  and a later finally block raises the dead exception again (`FinallyLimits.ReturnInFinallyFails`; exactly:
  `OneFlag.ReturnExactly`).
- vm/stack.c:112-140. A try with a finally that runs through inside a finally block resumes the unwinding early
  (`FinallyLimits.TryInFinallyFails`; exactly: `OneFlag.FinallyExactly`). One that catches there forgets the exception under way
  (`FinallyLimits.CatchInFinallyFails`; exactly: `OneFlag.CatchExactly`). For whole runs: `OneFlag.NoClashExactly`.
- lang/build-tree.c:224-225. A line indented less than the first one pops an empty array
  (`LayoutPrinting.BelowFirstReadsOutside`; exactly: `LayoutPrinting.DedentExactly`).
- lang/build-tree.c:264-275. A line of `;` alone, at the level of the line before, leaves an empty line, and the next token is read
  beyond its end (`LayoutPrinting.SilentReadsOutside`; exactly: `LayoutPrinting.SilentLine`).
- modules/Array1/Array1.rip:364-371. The check of an index into a view is an empty branch (`Views.ViewDoesNotCheck`; exactly:
  `Views.ViewAnswersExactly`, and `Views.ViewsAnswerExactly` for views of views). A view of a whole empty array has size 2, by
  modules/Array1/Array1.rip:300-310 (`Views.WholeViewSize`).
- vm/format.c:112-163. The first pass keeps an argument's number in an `int` and checks that, the second keeps it in 64 bits
  (`Format.PassesPart`; exactly: `Format.PassesPartExactly`, `Format.OutOfBoundsExactly`).
- vm/format.c:240-243. The branch for a parameter that begins with a closing brace is never reached, as the parameter ends at the
  first one: `{}}` is an empty parameter and a brace (`Format.ClosingBrace`, `Format.ParameterExactly`).
- modules/Sci/Sci.rip:22-31. A negative position, which an array takes, changes the wrong parents' sums, or raises halfway up
  (`Sampling.NegativePositionBreaks`; exactly: `Sampling.Sampler.Set`).

## Files

`NumberTheory`, `Probing`: squares modulo a prime and the slots a probe visits. `Keys`, `Values`: key equivalence, tagged
values, hashing. `TableSpec`, `TableProofs`, `TableRuns`, `HashTable`: the hash table. `DictSpec`, `Dict`, `DictRuns`,
`DictAnswers`: the dictionary. `TableArrays`: the arrays of both. `Exceptions`, `Unwinder`, `UnwinderProofs`,
`OneFlag`, `UnwinderTheorems`, `FinallyLimits`, `Clauses`: exceptions. `Sampler`. `MergeSort`, `SortedTies`. `Growth`,
`Views`. `Layout`, `LayoutTrees`, `LayoutPrinting`. `Genealogy`, `GenealogyTheorems`, `Completion`.
`Json`, `JsonRoundTrip`, `JsonLaws`, `JsonGrammar`. `Unboxed`. `Utf8`. `Format`, `Interpolation`. `Options` holds the option type.

## Model

| member | source | states |
|---|---|---|
| `Probing.UnwrappedExactCoverage` | vm/builtin/HashTable.c:18-48 | for an odd prime size and a sum that never wraps, the probe visits exactly (p+1)/2 slots |
| `Probing.Coverage` | vm/builtin/HashTable.c:18-48 | with 64-bit wrap-around it visits at least (p-1)/2 slots, and more exactly for the hashes that cover a majority |
| `Probing.MinusOneNeverCovers` | vm/builtin/HashTable.c:27-28 | the hash of -1 does not cover a majority in any prime size |
| `Values.OpEqual` | vm/ops.c:113-145 | true if and only if the two values have the same contents, at whatever addresses their strings and tuples are |
| `Values.EqualExactly` | vm/ops.c:113-135 | equality is equality of contents, by a type without addresses |
| `Values.OpHash` | vm/ops.c:72-101 | the loop over tuples computes the hash, modulo 2^64 |
| `Values.HashIs` | vm/ops.c:72-101 | a string hashes by its characters, a tuple to 89 and the sum of its elements' hashes modulo 2^64, an untagged word by its bytes |
| `Values.TaggedHash` | vm/ops.c:94-97 | a tagged word hashes to itself without the tag, shifted with its sign |
| `Values.EqualHash` | vm/ops.c:72-135 | equal values hash equally, nested tuples included |
| `Values.ValuesLawful` | vm/ops.c:72-145 | op_equal2 is an equivalence that op_hash respects, with hashes that fit a word |
| `Keys.GetAfterPut` | vm/builtin/HashTable.c:105-156 | what the finite map is: after a write the key's class reads the value and every other class what it read before, and there is at most one entry a class |
| `Keys.GetAfterDelete` | vm/builtin/HashTable.c:91-103 | after a removal the key's class reads nothing, and every other class what it read before |
| `TableProofs.FindMeaning` | vm/builtin/HashTable.c:18-48 | the probe ends at the key's own slot, or at a free slot on its path when no slot holds the key; it fails exactly when its whole walk is full of other keys |
| `TableProofs.StuckOnlyAtFullLoad` | vm/builtin/HashTable.c:18-48 | under the load bound a probe can only fail at exactly half load and for a hash that does not cover a majority, however many tombstones there are |
| `TableProofs.RehashCorrect` | vm/builtin/HashTable.c:50-75 | rehashing fails only for want of a larger size; otherwise it drops the tombstones and keeps the map |
| `TableProofs.OnlyLargestCannotGrow` | clib/dict.c:23-44 | map_prime gives out exactly at the last size it can return |
| `TableProofs.MapPrimeExactly` | clib/dict.c:23-44 | map_prime gives the least of its sizes above the number asked for |
| `TableProofs.InsertSize` | vm/builtin/HashTable.c:105-156 | a set counts a new key and no other; the table grows exactly when it would be half full, and to the size map_prime says |
| `TableProofs.SizeIsKeys` | vm/builtin/HashTable.c:91-156 | under the invariant the table's size is the number of keys of the map it stands for |
| `TableProofs.InsertCorrect` | vm/builtin/HashTable.c:105-156 | a set keeps the invariant (chains unbroken, one slot per key class, size counts the full slots, load below half) and puts the key into the map; it ends the program in two cases exactly |
| `TableProofs.RemoveCorrect` | vm/builtin/HashTable.c:91-103 | a removal keeps the invariant, deletes the key from the map and reports whether it was there |
| `TableProofs.QueryCorrect` | vm/builtin/HashTable.c:77-89 | a look-up answers as the map does |
| `TableRuns.RunRefines` | vm/builtin/HashTable.c:50-156 | over any run that does not end the program, the answers are those of a finite map modulo op_equal, and the table still stands for that map |
| `TableRuns.RunTotal` | vm/builtin/HashTable.c:18-156 | a run of any length whose hashes do not wrap early ends the program if and only if a new key comes to a map that already has as many keys as the largest table takes; tombstones never matter |
| `TableRuns.EveryRunAnswersIff` | vm/builtin/HashTable.c:18-156 | a search for a key succeeds in all tables of a size that runs from an empty set build, if and only if its hash covers a majority there |
| `TableRuns.ValueRunsAnswerIff` | vm/builtin/HashTable.c:18-156 | for keys that are values of the language, the same, and a key for every slot exists |
| `TableRuns.RunThatFails` | vm/builtin/HashTable.c:18-156 | for every size and every key whose hash does not cover a majority: a run of adds that succeeds, and then a look-up of the key that ends the program |
| `TableRuns.MinusOneFailsInEverySize` | vm/builtin/HashTable.c:18-156 | in every size, adds of integers that succeed lead to a table where looking up -1 reaches assert_never |
| `TableRuns.MinusOneEndsTheProgram` | vm/builtin/HashTable.c:18-48 | six integers added to a new set, and then a look-up of -1 that ends the program where a finite set would answer |
| `HashTables.Locate` | vm/builtin/HashTable.c:18-48 | the probe loop, with its first reusable slot, computes the search |
| `HashTables.HashTable.constructor` | vm/builtin/HashTable.c:158-174 | a new table is valid and empty, with values allocated or not; a set built from a literal has them and ignores them |
| `HashTables.HashTable.Query` | vm/builtin/HashTable.c:77-89 | looks the key up in the map the table stands for |
| `HashTables.HashTable.Put` | vm/builtin/HashTable.c:105-156 | in place, with growth: the map afterwards has the key, and all else as before |
| `HashTables.HashTable.Remove` | vm/builtin/HashTable.c:91-103 | in place: the map afterwards lacks the key, and all else is as before |
| `HashTables.HashTable.Clear` | vm/builtin/HashTable.c:176-181 | a set is emptied: valid, of size 0, standing for the empty map |
| `HashTables.HashTable.Rehash` | vm/builtin/HashTable.c:50-75 | the arrays are replaced by fresh ones that hold what the moving loop puts there |
| `DictSpec.FreshIsInsert` | clib/dict.c:99-153 | setting a key that is not there does to a dictionary exactly what the hash table does |
| `DictSpec.FreshSetCorrect` | clib/dict.c:99-153 | it adds the key to the map, keeps the invariant, and ends the program in two cases exactly |
| `DictSpec.OverwriteDuplicates` | clib/dict.c:117-153 | setting a key that is there stores it in a second bucket: the overwrite does not return |
| `DictSpec.SetKeepsMapExactly` | clib/dict.c:124-153 | a dictionary stays a map with one bucket a key if and only if the key set was not there |
| `DictRuns.FreshRunIsMap` | clib/dict.c:99-179 | over any run of fresh keys the dictionary stands for the map of what was set, and its size counts the keys |
| `DictRuns.FreshRunTotal` | clib/dict.c:99-153 | such a run, with hashes that do not wrap early, completes if and only if its keys fit the largest dictionary |
| `DictAnswers.EveryRunAnswers` | clib/dict.c:99-179 | over any run of dict_set that does not end the program, keys set again included, dict_query answers as the finite map of what was set |
| `DictAnswers.RunKeepsMapExactly` | clib/dict.c:99-153 | after a run there is one bucket a key, and the size counts them, if and only if all its keys were new and distinct |
| `DictAnswers.SetAgainExactly` | clib/dict.c:99-153 | setting a key again, where the dictionary need not grow, ends the program if and only if two empty buckets are not left on its walk |
| `DictAnswers.DictSetSize` | clib/dict.c:124-153 | a set always counts one more; the dictionary grows exactly when it would be half full, and to the size map_prime says |
| `DictRuns.FiveSetsEndTheProgram` | clib/dict.c:99-153 | setting one key four times succeeds and the fifth time ends the program, for every key whose walk does not wrap |
| `Dicts.Set` | clib/dict.c:99-122 | the loop in place: overwrites equal keys on the way and fills the first empty bucket |
| `Dicts.Dict.Query` | clib/dict.c:155-179 | the loop finds what the table's search finds |
| `Dicts.Dict.DictSet` | clib/dict.c:124-153 | the whole operation with its fall-through, in place and with growth |
| `Dicts.IterationIsContents` | clib/dict.c:236-271 | an iteration yields each key of the map exactly once, with its value |
| `Dicts.Collect` | clib/dict.c:236-271 | a whole pass with the iterator collects each key of the map exactly once, with its value, as many as the dictionary's size says |
| `Dicts.DictIter.Has` | clib/dict.c:244-255 | goes to the next full bucket without losing an entry, and says whether there is one |
| `Dicts.DictIter.GetPtrs` | clib/dict.c:265-271 | yields the next entry and leaves the rest |
| `Exceptions.ObjEqKlass` | vm/klass.c:232-240 | true for the object's class and for every class some number of parents up, and for no other |
| `Exceptions.IsAExactly` | vm/klass.c:232-240 | the ancestors that catch clauses, unwinding and the source's meaning go by are those that some number of steps up lead to |
| `Unwinder.StackerUnwindLoop` | lang/stacker.c:57-79 | the loop finds the n-th entry from the top if that and all above it are loops, and nothing otherwise |
| `Unwinder.JumpsExactly` | lang/stacker.c:57-79 | the compiler accepts a break or continue exactly where the innermost entries are that many loops, and a call exactly of a function there is |
| `UnwinderProofs.Sim` | lang/generator.c:201-257 | the code of any statement, run from any configuration inside a function, the flag set or not, reaches the configuration its outcome asks for |
| `UnwinderProofs.SimCatch` | lang/generator.c:353-423 | the same for try with a catch: the handler starts with the stacks of the try |
| `UnwinderProofs.SimFinally` | lang/generator.c:353-423 | the same for try with a finally: the block runs once on every way out but a return |
| `UnwinderProofs.ReachHandler` | vm/stack.c:112-140 | unwinding from a raise stops at the handler if its class is an ancestor of the raised one, with the calls of the try, and passes on if not |
| `UnwinderProofs.FromCallee` | vm/stack.c:78-92 | a callee's outcome as the caller sees it: handlers and calls are what they were before the call |
| `UnwinderTheorems.FlaggedPreserved` | lang/generator.c:353-423 | for every program the compiler accepts: the emitted code halts if and only if the meaning with one flag ends, and then with the same result, effects or uncaught exception |
| `OneFlag.FinallyExactly` | lang/generator.c:399-418 | a try with a finally whose parts mean the same means what the source says, flag included, if and only if it does not run through under a set flag, and its finally block does not leave by a return or jump while its body's exception is under way |
| `OneFlag.CatchExactly` | lang/generator.c:364-398 | a try with a catch whose parts mean the same means what the source says if and only if it does not catch under a set flag, unless its handler raises |
| `OneFlag.ReturnExactly` | vm/vm.h:110-115 | for a finally block without a try: the flag is left as it was if and only if it is not the case that the body raises and the finally block returns |
| `OneFlag.NoClashExactly` | vm/stack.c:112-140 | all statements of a run mean what the source says, flag included, if and only if the source's own run comes to no such clash |
| `UnwinderTheorems.MeaningPreserved` | lang/generator.c:353-423 | the emitted program of a source that never clashes halts if and only if the source program ends, and then with the same result, effects or uncaught exception |
| `UnwinderTheorems.PlainNeverClashes` | lang/generator.c:399-418 | a program whose finally blocks hold no try and no return never clashes |
| `Exceptions.PlainExactly` | lang/generator.c:399-418 | such programs are those whose finally blocks, nested ones too, count no try, no return and no call but of functions without a try |
| `UnwinderTheorems.MachineEndsAsFlagged` | vm/stack.c:112-140 | a machine that halts within k steps ended as the meaning with one flag does, which needs no more than k rounds and calls |
| `UnwinderTheorems.HandlerDiscipline` | vm/stack.c:72-92 | normal ends and jumps leave the handler stack as found, raises too, and a return from any depth of tries restores what was there before the annotation |
| `FinallyLimits.ReturnInFinallyFails` | vm/vm.h:110-115 | a return in a finally block leaves the unwinding flag set: a later, innocent finally block then raises the dead exception again |
| `FinallyLimits.TryInFinallyFails` | vm/stack.c:112-140 | a finished try inside a finally block resumes the unwinding early, and the rest of the finally block is skipped |
| `FinallyLimits.CatchInFinallyFails` | vm/stack.c:121-133 | a catch inside a finally block forgets the exception under way, and the program ends as if nothing had been raised |
| `Clauses.Combine` | lang/generator.c:446-503 | the folding loop nests one try per clause, for any number of clauses, and refuses a try without one |
| `Clauses.MultiClauseTry` | lang/generator.c:446-503 | when clause blocks end normally, an exception goes to the first matching clause in source order and finally clauses run at their places |
| `Sampling.Sampler.constructor` | modules/Sci/Sci.rip:7-19 | all levels are zero and each cell is the sum of its one or two children |
| `Sampling.Sampler.Set` | modules/Sci/Sci.rip:21-31 | any valid position, negative ones too, gets its weight; every cell is again the sum of its children if and only if the position is positive, or there are two outcomes, or the weight is the old one; exactly which negative positions raise; an index that is no index raises and changes nothing |
| `Sampling.Sampler.Sample` | modules/Sci/Sci.rip:33-58 | all indexes stay in bounds, and the outcome's share of the total holds the scaled x, for every x from 0 to 1 and positive total |
| `Sampling.LinearSearch` | modules/Sci/Sci.rip:33-58 | the plain search through prefix sums that the descent must agree with |
| `Sampling.OneShare` | modules/Sci/Sci.rip:33-58 | with weights that are not negative only one outcome's share holds a number, so the two searches agree |
| `Sampling.SumsAfterUpdate` | modules/Sci/Sci.rip:27-31 | changing a cell and its parent by the same amount keeps a level the sums of the one below |
| `Sampling.SumsAfterWrongUpdate` | modules/Sci/Sci.rip:27-31 | changing any cell but the parent does not |
| `Sampling.NegativePositionBreaks` | modules/Sci/Sci.rip:21-31 | three outcomes and a weight set at position -3: nothing raises, and the sums are wrong |
| `Sampling.RoundUp` | modules/Sci/Sci.rip:27-31 | one round of the loop: a positive position goes on to the parent, a negative one halves its distance and leaves the last level's sums wrong |
| `Sampling.NegativeMissesParent` | modules/Sci/Sci.rip:22-31 | a negative position, which arrays otherwise allow, never leads to the parent cell |
| `Sampling.IndexExactly` | modules/Array1/Array1.rip:220-244 | each cell has exactly two positions, one from either end |
| `MergeSort.MergeSort2` | modules/Array1/Array1.rip:9-58 | sorts one range in place as the merge of its sorted halves, touches nothing outside it and only the first b-a+1 cells of tmp, with at most n*ceil(log2 n) comparisons |
| `MergeSort.MergeInto` | modules/Array1/Array1.rip:24-52 | the merging loop leaves the merge of the two runs in tmp, with at most b-a comparisons |
| `MergeSort.SortInPlace` | modules/Array1/Array1.rip:249-273 | the same for the whole array |
| `MergeSort.ComparisonsAddUp` | modules/Array1/Array1.rip:20-52 | the comparisons of the halves and of the merge stay within n*ceil(log2 n) |
| `MergeSort.CeilLog2Exactly` | modules/Array1/Array1.rip:20-52 | the bound's logarithm is that of the least power of two that is large enough |
| `MergeSort.MiddleSplits` | modules/Array1/Array1.rip:20-22 | the middle halves any range, the larger half on the left |
| `SortedTies.SortSorted` | modules/Array1/Array1.rip:9-58 | the result is in order, for every comparison that respects a total preorder |
| `SortedTies.SortElements` | modules/Array1/Array1.rip:9-58 | the result has the same elements, for any comparison whatever |
| `SortedTies.TiesReversed` | modules/Array1/Array1.rip:258-273 | with a strict comparison, tying elements come out in exactly reversed order |
| `SortedTies.TiesKept` | modules/Array1/Array1.rip:9-58 | with "smaller or equal" they keep their order |
| `Growth.RunCost` | vm/builtin/Arrays.c:79-109 | over any run of pushes and pops the elements fit, and the slots copied are at most two an operation plus what was saved up before |
| `Growth.LiteralRunCost` | vm/builtin/Arrays.c:28-44 | from an array literal of n elements: at most n + 2m slots in m operations |
| `Growth.FewSlotsKept` | vm/builtin/Arrays.c:79-109 | over any run no more than four slots an element are allocated, two at the least |
| `Growth.TwoIsNeeded` | vm/builtin/Arrays.c:95-109 | no smaller constant will do: runs of any length that copy 2m - 4 slots in m pushes onto an empty array |
| `Growth.Array1.Push` | vm/builtin/Arrays.c:95-109 | appends in place, with the sizes and copies the cost function counts |
| `Growth.Array1.Pop` | vm/builtin/Arrays.c:79-93 | takes the last element off, or raises on an empty array |
| `Views.UtilIndexExactly` | modules/Array1/Array1.rip:220-244 | each position has exactly two indexes, one from either end |
| `Views.SliceExactly` | modules/Array1/Array1.rip:220-244 | the elements of a slice position by position, up or down, for bounds from either end |
| `Views.ViewsReadSlices` | modules/Array1/Array1.rip:220-244 | a tower of views reads, at every index and from either end, what the tower of slices holds |
| `Views.ViewsWriteSlices` | modules/Array1/Array1.rip:300-331 | writing through the tower changes that element of the slices and no other |
| `Views.IndexSet` | modules/Array1/Array1.rip:330-331 | one cell of the array at the bottom changes, or none and an exception |
| `Views.ViewsAnswerExactly` | modules/Array1/Array1.rip:300-331 | at any index whatever, a tower of views answers as the slices do, exceptions included, if and only if the index is one of theirs or leads out of the array at the bottom |
| `Views.ViewAnswersExactly` | modules/Array1/Array1.rip:300-331 | for one view, ascending or descending, the bad indexes it lets through as ranges of numbers |
| `Views.WholeViewExactly` | modules/Array1/Array1.rip:364-371 | a view of all n elements answers as the array except from -2n-1 to -n-2 |
| `Views.ViewDoesNotCheck` | modules/Array1/Array1.rip:364-371 | an index past the end of a view is not refused and reads outside it, where the slice raises |
| `Views.WholeViewSize` | modules/Array1/Array1.rip:300-310 | a view of a whole array has the array's size if and only if the array has elements; of an empty array it counts two |
| `BuildTree.Lexer.LexReadLine` | lang/build-tree.c:109-164 | the loop with its three counters reads one line with the lines that brackets and ellipses join to it |
| `LayoutPrinting.BracketsJoin` | lang/build-tree.c:109-151 | a line goes up to the first line end before which no kind of bracket has been opened more often than closed, and keeps all its tokens but the line ends inside |
| `LayoutPrinting.EllipsisExactly` | lang/build-tree.c:152-159 | an ellipsis joins the next line if only blanks come before the line end, and is an error otherwise and at the end of the input |
| `LayoutPrinting.EllipsisJoins` | lang/build-tree.c:109-164 | a line in two pieces with an ellipsis between them, where brackets opened in one may be closed in the other |
| `BuildTree.Lexer.PopLevels` | lang/build-tree.c:224-239 | the dedenting loop, with its error and its read below the array |
| `BuildTree.Lexer.DumpLine` | lang/build-tree.c:241-268 | blanks dropped, ';' made SEP, and every SEP at the end removed |
| `LayoutPrinting.ContentsExactly` | lang/build-tree.c:241-260 | token by token: blanks vanish, ';' becomes SEP, and nothing else changes |
| `LayoutPrinting.StripExactly` | lang/build-tree.c:262-270 | at the end of a line every SEP goes, and nothing but SEPs |
| `LayoutPrinting.BlankLinesVanish` | lang/build-tree.c:180-216 | empty lines and lines of blanks only deliver nothing |
| `BuildTree.Lexer.RcLex` | lang/build-tree.c:167-279 | each call delivers the next token of the stream that is laid out for the input, and keeps `indents` strictly increasing with its top equal to the previous indentation |
| `LayoutPrinting.LayoutInvertsPrinting` | lang/build-tree.c:167-279 | for every block tree, printed with any increasing indentations, the stream is exactly the tree's START, SEP and END tokens |
| `LayoutPrinting.LayoutAcceptsTrees` | lang/build-tree.c:167-279 | a source whose lines all say something is accepted if and only if its lines are those of a block tree, and the stream is that tree |
| `LayoutTrees.BuildBlock` | lang/build-tree.c:206-240 | reads the tree off accepted lines |
| `LayoutPrinting.LayoutBalances` | lang/build-tree.c:180-279 | for any input no END comes without its START, and a complete stream closes every block |
| `LayoutPrinting.DedentExactly` | lang/build-tree.c:224-239 | a dedent is accepted exactly when it matches an open level, refused exactly between levels, and read out of bounds exactly below the first |
| `LayoutPrinting.SilentLine` | lang/build-tree.c:241-275 | a line of blanks and ';' leaves nothing to deliver exactly when it stands at the level of the line before |
| `LayoutPrinting.BelowFirstReadsOutside` | lang/build-tree.c:224-225 | a word indented by one and then a line that is not indented: the lexer reads below its array |
| `LayoutPrinting.SilentReadsOutside` | lang/build-tree.c:264-275 | a word and then a line of ';': the lexer reads past the end of the line |
| `Genealogy.Genist.AddParent` | lang/genist.c:19-87 | the checks and the copying loops give the child what the parent has, or the error |
| `Genealogy.Genist.RunR` | lang/genist.c:89-123 | the coloured search on the shared table gives a class what the recursion on that class alone gives, or its error |
| `Genealogy.Genist.Run` | lang/genist.c:125-141 | whatever the order of the table, every class ends complete, or the error is that of a class that cannot be completed |
| `Genealogy.BelowIsIrrelevant` | lang/genist.c:89-123 | what a class is completed to does not depend on the classes that wait for it |
| `Completion.CompleteExactly` | lang/genist.c:19-141 | a class is completed if and only if its chain of parents ends in the table and its line of ancestors fits: mixins known, virtual and without accessors; nothing above c-data or with accessors; no fields above c-data; no method twice on the line, and no property up to the highest class with fields |
| `Completion.VerdictIs` | lang/genist.c:19-141 | otherwise which error comes: the first mixin problem from below, then the end of the chain, then the first parent problem from above; and kind, methods, properties and accessors of a completed class |
| `Completion.StopExactly` | lang/genist.c:89-123 | the chain of parents ends in the table, leads out of it or never ends, and the error says which |
| `GenealogyTheorems.CycleExactly` | lang/genist.c:94-97 | where mixins fit, a cycle is reported if and only if the chain of parents is cyclic; a class with a cyclic chain is never completed |
| `GenealogyTheorems.MethodsAreUnion` | lang/stran.c:480-503 | a completed class has exactly its own methods, its mixins' and those of its line of ancestors |
| `GenealogyTheorems.FieldFromAncestor` | lang/genist.c:46-49 | it has fields exactly when it or an ancestor has |
| `GenealogyTheorems.PropsAreUnion` | lang/stran.c:505-517 | its properties are exactly those of its line of ancestors |
| `Json.JsonLex` | modules/Json/json.c:44-142 | the lexer with its cursor returns the next token and the rest |
| `Json.JsonParseR` | modules/Json/json.c:180-252 | the parser with its cursor computes the recursive parse |
| `Json.JsonParseMap` | modules/Json/json.c:216-246 | the loop over a map's entries |
| `JsonGrammar.ParseExactly` | modules/Json/json.c:180-252 | a text is accepted, as a certain value and with certain tokens left, if and only if its tokens are those of a value that means it; of a key that comes twice the last entry counts |
| `JsonLaws.ParseByTokens` | modules/Json/json.c:180-252 | the result depends on the tokens alone, not on the spaces between them |
| `JsonLaws.SpacesVanish` | modules/Json/json.c:44-54 | spaces, tabs and line ends before a token vanish |
| `JsonLaws.SpacesDoNotMatter` | modules/Json/json.c:180-252 | a text with spaces before it parses alike |
| `JsonLaws.NumberExactly` | modules/Json/json.c:56-92 | how far a number goes, and when it is a double |
| `JsonLaws.OthersAreInvalid` | modules/Json/json.c:112-141 | a character that begins no token is an error |
| `JsonLaws.BrokenWordsAreInvalid` | modules/Json/json.c:117-135 | so is a word that begins like true, false or null and is none of them |
| `JsonLaws.WordsExactly` | modules/Json/json.c:117-135 | true, false and null are one token each, and what the printer writes |
| `JsonLaws.StringExactly` | modules/Json/json.c:94-107 | a string is what stands between two quotes, and the printer writes it so |
| `JsonLaws.SymbolsExactly` | modules/Json/json.c:108-115 | brackets, braces, commas and colons are tokens by themselves |
| `JsonLaws.ArraysExactly` | modules/Json/Json.rip:30-75 | how the printer writes arrays |
| `JsonLaws.MapsExactly` | modules/Json/Json.rip:30-75 | how the printer writes maps |
| `JsonLaws.PutExactly` | modules/Json/json.c:216-246 | the last value given to a key counts, no other key's value changes, and keys keep their places |
| `Json.EncodeToStringbuf` | modules/Json/Json.rip:30-75 | the printer appends the encoding to the buffer |
| `JsonRoundTrip.ValueBack` | modules/Json/json.c:180-252 | parsing an encoding gives the value back and uses up exactly the encoding, whatever follows it |
| `JsonRoundTrip.ParseClean` | modules/Json/json.c:44-252 | the parser can only return values with integers of 32 bits, strings without quotes and distinct keys |
| `JsonRoundTrip.RoundTripExactly` | modules/Json/Json.rip:25-75 | the round trip holds if and only if the value is of that kind |
| `Unboxed.KeptExactly` | riperipe/eval.rip:226-265 | where untyped operands hold no integers, code with and without types means the same, whatever the operators do on other operands, if and only if the expression is kept: its numbers survive C's int, and each comparison of numbers comes out as it does on 62 bits |
| `Unboxed.TypesKeepMeaning` | riperipe/eval.rip:380-407 | every expression over arithmetic and comparisons that is kept gives the same value with and without types, or raises alike |
| `Unboxed.NumbersExactly` | riperipe/eval.rip:226-252 | arithmetic on numbers gives the same if and only if wrapping its literal parts at 32 bits changes nothing modulo 2^62 |
| `Unboxed.OverflowIsHarmless` | riperipe/eval.rip:226-252 | so where no part over literals alone overflows an int; overflow anywhere else, at 62 or 64 bits, makes no difference |
| `Unboxed.ComparisonsExactly` | riperipe/eval.rip:254-265 | a comparison gives the same with and without types if and only if both sides go around the 62-bit range equally often, or comparing how often decides as the remaining bits do |
| `Unboxed.UnboxedRuns` | riperipe/eval.rip:226-252 | the unboxed text is a C number of the right width, and runs to the exact value with literal parts wrapped at 32 bits and the rest at 64 |
| `Unboxed.TaggedRuns` | vm/ops-gen/ops-gen.c:44-77 | the tagged text runs to the exact value in 62 bits |
| `Unboxed.TaggedOperators` | vm/ops-gen/ops-gen.c:44-77 | the tagged operators give the packed x + y, x - y and x * y for all x and y |
| `Unboxed.TaggedComparisons` | vm/ops-gen/ops-gen.c:93-104 | the tagged comparisons of 62-bit integers give VALUE_TRUE and VALUE_FALSE as <, <=, > and >= say |
| `Unboxed.COperators` | riperipe/eval.rip:226-252 | the C operators give x + y, x - y and x * y wrapped at the width of their type |
| `Unboxed.CComparisons` | riperipe/eval.rip:254-265 | and the boxed C comparisons VALUE_TRUE and VALUE_FALSE |
| `Unboxed.ComparisonRuns` | vm/ops-gen/ops-gen.c:93-104 | what a comparison of numbers gives in either code |
| `Unboxed.ComparisonIsLost` | riperipe/eval.rip:254-265 | `0 < 2305843009213693952` is true with types on and false with types off |
| `Unboxed.LiteralsOverflow` | riperipe/eval.rip:226-252 | `2147483647 + 1` is negative with types on |
| `Unboxed.FitsExactly` | vm/value_inline.c:80-87 | unpacking gives back the packed integer if and only if it fits 62 bits |
| `Utf8.Utf8Read` | clib/utf8.c:67-130 | decodes below the limit; a failure leaves the cursor unmoved |
| `Utf8.Utf8Write` | clib/utf8.c:132-177 | writes the whole encoding below the limit, or nothing |
| `Utf8.TextBack` | clib/utf8.c:67-177 | repeated writes and then reads give the text back and use up exactly the octets written |
| `Utf8.DecodeEncode` | clib/utf8.c:67-177 | the same for one character, whatever follows |
| `Utf8.EncodeExactly` | clib/utf8.c:132-177 | the octets in plain numbers, as section 3 of RFC 3629 lays them out |
| `Utf8.FailuresExactly` | clib/utf8.c:67-130 | exactly which octets give which failure, the limit being looked at first |
| `Utf8.TruncatedIsLimited` | clib/utf8.c:67-130 | a character cut short at any place is cut by the limit |
| `Utf8.BrokenIsInvalid` | clib/utf8.c:67-130 | a character with any later octet replaced by another kind of octet is invalid |
| `Utf8.NoLeadIsInvalid` | clib/utf8.c:130 | the octets that begin no character, whatever follows, are those from F8 on |
| `Utf8.EncodeDecodeExactly` | clib/utf8.c:67-130 | writing what was read gives the octets back if and only if they were no overlong form and no character beyond the last |
| `Utf8.InsideIsSeek` | clib/utf8.c:86-87 | a read begun inside a character gives ERROR_UTF8_SEEK |
| `Format.FormatParse` | vm/format.c:191-259 | the parsing loop ends on every input, with the elements or an error |
| `Format.ParameterExactly` | vm/format.c:200-246 | a parameter, with any spaces around it, is the next argument, the argument of its number, an opening brace, or an error |
| `Format.TextExactly` | vm/format.c:248-255 | text up to the next opening brace stands for itself |
| `Format.UnclosedIsError` | vm/format.c:200-206 | an opening brace that nothing closes is an error, wherever it stands |
| `Format.ClosingBrace` | vm/format.c:204-206 | `{}}` is an empty parameter and a brace, not a brace |
| `Format.CountOutput` | vm/format.c:101-134 | the first pass raises if and only if some number, cut to an int, names no argument; otherwise it counts the characters of what the cut numbers name |
| `Format.WriteOutput` | vm/format.c:151-167 | the second pass writes every piece and its terminating zero inside the buffer, until a number, not cut, lies outside the arguments |
| `Format.FormatToString` | vm/format.c:85-168 | for all elements: raises, reads out of bounds, returns an unwritten buffer, or gives the pieces and arguments in order, and exactly when each |
| `Format.PassesPartExactly` | vm/format.c:107-163 | what the first pass finds the second finds too, if and only if the number is from 1 to 2^31 or its low 32 bits name no argument |
| `Format.OutOfBoundsExactly` | vm/format.c:107-163 | a format string makes the second pass read out of bounds if and only if the low 32 bits of all its numbers name arguments and some number is not from 1 to 2^31 |
| `Format.ParseOfDigits` | vm/format.c:215-226 | every number that strtol reads off digits comes out of a format string |
| `Format.PassesPart` | vm/format.c:107-163 | "{4294967297}" with one argument passes the first pass and reads out of bounds in the second |
| `Interpolation.MorphString` | lang/tree-morph.c:18-72 | the loop cuts a backtick string into a template and its expressions |
| `Interpolation.EvenTicks` | lang/tree-morph.c:18-72 | a string is refused if and only if its backticks do not come in pairs |
| `Interpolation.InterpolationMeansWeaving` | lang/tree-morph.c:18-72 | the template, parsed and filled in with the values, gives the pieces and the values in order |

## Left out

- Primality of the table sizes in `map_prime` is a hypothesis, `TableProofs.SizesArePrime`; it is not proved here.
- `hash_bytes` is a parameter of `Values`: a string's hash is any function of its characters that fits 32 bits. Values are words, strings and tuples; other objects compare by address, as words.
- HashTables.HashTable.constructor: asks for a size that `map_prime` has; for larger ones the source stops. `ht_new_map` and `ht_new_set` are sequences of the operations modelled.
- HashTables.HashTable.Clear: is about sets. Only those call `ht_clear` (modules/Set/Set.rip:40); it would leave a map without values.
- Dictionary keys and values are of one type here; in the source they are blocks of bytes with callbacks for hash and equality.
- The exception model takes `setjmp` with the push after it as one step, treats the 2000-entry handler stack as unbounded and leaves out the garbage collector. While, for and switch are the loops and ifs they are rewritten to; the constructor's refusal of return is left out.
- UnwinderTheorems.MeaningPreserved: as in the code, a return leaves finally blocks unrun; the source meaning says the same. Where a run clashes with the flag, `FlaggedPreserved` says what the code does, and code and source may still happen to end alike.
- A program that calls a function that does not exist is not compiled; in `Exec` such a call is not given a meaning.
- Sampling.Sampler.constructor: asks for N >= 1, for which the source does not raise. Weights and x are real numbers: rounding is left out.
- Growth.Array1.Push: `array1_new`, whose recorded capacity is twice what it allocates, is left out; arrays start as literals.
- Array1's slice of an empty array with an open range reads outside the array; `Views` leaves out empty arrays but for the view's size.
- Layout takes the scanner's tokens as given; a comment or a string is already one token or none. `parsing_mode`'s first token is left out. A comment in lang/build-tree.c says that braces become START and END; the code only counts them, and so does the model.
- LayoutPrinting.LayoutAcceptsTrees: is about lines that hold a token other than ';'; `SilentLine` says what other lines do.
- Genealogy.Genist.Run: asks that classes used as mixins have no parent and no mixins. A mixin is copied as it stands at that moment, completed or not, so without that the order of the table would matter.
- Genealogy.Genist.AddParent: a parent with virtual getters or setters is an error, since the accessor's method has been copied already when it is added again. `num_props`, the number of properties, is left out.
- JSON leaves out doubles, and maps with arrays or maps for keys; both are errors of their own here. An integer beyond C's int is `IntOverflow`: `atoi` does not define it. A string is taken to hold no zero character.
- Json.JsonParseR: a map is the list of its entries; in the source it is a hash table, filled in that order.
- Unboxed.TypesKeepMeaning: signed overflow is taken to wrap at the width of its type, which C does not promise. What an operator does on operands that are not two integers, doubles among them, is a parameter. Division and operands typed as doubles are left out, and literals of 2^63 and more wrap.
- Unboxed.KeptExactly: the "only if" is for environments where what is not declared Integer holds no integer, since a tagged product with 0 would hide a difference.
- Utf8 leaves out the ban on D800 to DFFF, which the code does not check.
- `strtol` is a parameter of `Format`, and the arguments are given as strings, fewer than 2^31. Cutting a 64-bit number to an `int` is taken to keep its low 32 bits, which C leaves to the compiler.
- Interpolation.InterpolationMeansWeaving: is about pieces without `{`; a brace in a piece is a format parameter of its own.
- Files, processes, the parser's grammar, name escaping, symbol caches, Array2 and Array3 index formulas, `Num`, and the wrappers of foreign libraries are left out.
