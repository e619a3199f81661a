# Verified models of the kernel and its build tools

Dafny models of the algorithms at the core of the repository, and proofs about them for all
inputs, all runs and all reachable states.  `dafny verify dfyconfig.toml` checks everything.

What is modelled, in the order of the files:

- **unifdef** (`Preprocessor`, `UnifdefMachine`, `UnifdefSimplify`, `UnifdefDriver`, `UnifdefEval`, `CExpression`,
  `UnifdefMacros`, `UnifdefFile`).  The transition table and functions, the in-place driver, the three-valued expression evaluator and
  the classification of lines.  Main result: the compiler, which replaces symbols by texts and reads the result, and
  which takes definitions from the text it selects, selects from the output exactly the text it selects from the input.
  Symbols that are not on the command line may stand for any expression but a bare `||`, a conditional or a comma
  expression, and in strict mode for anything.  The meaning of
  conditional inclusion is section 6.10.1 of ISO/IEC 9899:1999, defined twice: a stack machine and the
  grammar of groups.  The files that the machine accepts are exactly those of the grammar, with the same meaning.
  Second main result: what is written is exactly the partial evaluation of the groups, so that no condition that can be
  told from the command line is left.
- **red-black tree** (`RbTree`, `RbInsert`, `RbErase`, `RbWalk`) on linked nodes with parent pointers, and
  the **VMA index** on top of it (`VmaIndex`): a tree, a list and a cache that stay in agreement, and the
  search for free address space.
- **kallsyms** (`TokenTable`, `KallsymsBuild`, `KallsymsImage`, `KallsymsKernel`, `KallsymsOrder`): the byte-pair compressor,
  the tables it writes, and the kernel code that reads them; a round trip across both programs.
- **ASN.1 compiler back end** (`AsnGrammar`, `AsnLayout`, `AsnRender`): two passes over shared element fields with a
  work queue whose links are not cleared in between.  `AsnLayout` says which stretches of opcodes are the code of which
  elements, without the rendering.
- **page allocator** (`BuddyBlocks`, `BuddyZone`) and the boot memory that feeds it (`Memblock`, `MemTiles`, `BootMemory`).
- **threads** (`Threads`): scheduler, counting semaphores and recursive locks as a step system.  What runs
  with interrupts off is one step; every other access to shared data is its own step; a timer interrupt may
  come between any two, and an interrupt handler may call `sema_up`.
- **FAT32 chains** (`FatChain`, `FatVolume`, `FatFile`): mirrored tables spread over sectors, chains, and the
  multi-level table of cluster numbers that a file keeps.
- **integers as text** (`Kstrtox`).

Places where the code does not do what its comments or its names promise; the models follow the code:

- The evaluator of unifdef computes in `int`: a symbol or a constant of 2^32 counts as false.
  `SoundExactlyWhenConstantsFit` gives the exact condition.
- Outside of strict mode it takes each symbol for one operand.  A symbol that stands for `1 || 0` makes it drop text that
  the compiler selects (`OrTextIsWrong`); `RightExactly` says which texts are safe.
- `page_is_buddy` only compares the recorded order, and zero is recorded for every page that starts no
  larger free block.  Freeing a single page therefore unlinks its buddy whether or not the buddy is free.
  `FreeOnePage` ends well exactly when the order is at least one or the buddy is a free single page.
- `mem_ffs` counts bits from one, so `__free_memory_core` starts from one order more than the page number is
  aligned to, and it looks at 32 bits only.  `AlignedExactlyWhenTidy` says for which ranges all blocks are
  aligned, and `FreeRange` which of them can be freed one after the other.  A block that is not aligned breaks the free lists.  The page count that the function
  returns is always zero.
- `file_extend` does not look at the result of `clusterAlloc`.  `FileExtend` is right exactly when there are
  enough free clusters above the last one; otherwise a zero gets into the table, also when a lower cluster is free.
- `_parse_integer` counts digits in the word that also holds the overflow bit.  The bit is right for all strings
  of n digits exactly when n is below 2^31; from there on zeros set it, and the count can clear it.
- The generator of kallsyms expands tokens into 128 bytes.  They fit for names of up to 127 bytes with their type;
  the program accepts two more.
- `compare_symbols` subtracts unsigned positions: it orders symbols as intended exactly where the difference fits
  an `int`, and two symbols 2^31 apart each come before the other.

## Model

| member | source | states |
|---|---|---|
| `UnifdefMachine.ProcessPreservesMeaning` | scripts/unifdef.c:418-502 | for every sequence of classified lines and every truth assignment that agrees with the classification: the run ends, never in `abort`, and if it finishes, the output nests and selects the text that the input selects |
| `UnifdefMachine.ProcessFinishesExactly` | scripts/unifdef.c:507-547 | without dodgy lines the run finishes exactly on files whose conditionals nest, are all closed, and stay within MAXDEPTH |
| `UnifdefMachine.StepInStep` | scripts/unifdef.c:458-502 | one line keeps the machine and a preprocessor that reads the input in step with one that reads the output |
| `UnifdefMachine.IfColumns` | scripts/unifdef.c:458-502 | what the table does with an `#if` line in every state: nothing is written where text is dropped; otherwise the line passes exactly if its condition is not known or it is dodgy, and its group is entered or skipped as the condition says; it is refused exactly if it is dodgy, known, not dropped, and dodgy lines are not allowed; the ignore flag goes with the types that ask for it |
| `UnifdefMachine.KeptColumns` | scripts/unifdef.c:458-502 | what it does with `#elif` and `#else` in a conditional whose directives are kept |
| `UnifdefMachine.GoneColumns` | scripts/unifdef.c:458-502 | the same for a conditional whose directives have been removed so far |
| `UnifdefMachine.PassColumns` | scripts/unifdef.c:458-502 | in a conditional that passes as it is, an `#elif` or `#else` keeps input and output alike; it is refused exactly if it is dodgy, known, and dodgy lines are not allowed |
| `UnifdefMachine.EndifColumns` | scripts/unifdef.c:458-502 | an `#endif` is printed exactly when the conditional's `#if` has been |
| `UnifdefMachine.CleanColumns` | scripts/unifdef.c:458-502 | directives on one line are refused exactly where the nesting forbids them |
| `UnifdefMachine.IgnoresExactly` | scripts/unifdef.c:425-456 | without dodgy lines text is ignored exactly from an `#ifdef` that asks for it up to the next `#elif` of its section, and in everything inside |
| `UnifdefSimplify.ProcessSimplifies` | scripts/unifdef.c:418-502 | for every file: if the run finishes, the file is a group of the grammar and the output is exactly its partial evaluation: groups known to fail are gone, the next one moves up, what follows a group known to hold is gone, and nothing is known of dodgy conditions |
| `UnifdefSimplify.CleanSimplifies` | scripts/unifdef.c:418-502 | the same for files without dodgy lines, where every mark is that of the line |
| `UnifdefSimplify.OnlyUntoldStays` | scripts/unifdef.c:418-502 | every condition in the output is that of an input line of an unknown or dodgy type |
| `UnifdefSimplify.ToldLeavesText` | scripts/unifdef.c:418-502 | if no condition is unknown or dodgy, the output is exactly the text that is selected from the input, without any directive |
| `UnifdefDriver.Driver.Process` | scripts/unifdef.c:583-596 | the loop over the two arrays and the depth gives the result and the output of the machine on values |
| `UnifdefDriver.Driver.Transition` | scripts/unifdef.c:583-596 | one table lookup and one transition are one step of the machine |
| `UnifdefDriver.Driver.OpenGroup` | scripts/unifdef.c:526-535 | `nest` pushes a level and reports too many levels exactly at MAXDEPTH |
| `UnifdefDriver.Driver.MoveGroup` | scripts/unifdef.c:507-547 | `ignoreoff` and `state` change the top level only, and abort at depth zero |
| `UnifdefDriver.Driver.CloseGroup` | scripts/unifdef.c:536-542 | `unnest` pops a level, and aborts at depth zero |
| `UnifdefEval.Eval3Sound` | scripts/unifdef.c:746-777 | a definite value is the value that C computes, for every assignment to unknown symbols, strict or not, if the constants fit an `int` |
| `UnifdefMacros.WideSymbolIsWrong` | scripts/unifdef.c:824-905 | with a symbol set to 2^32, the line that tests it is found false although the compiler finds it true |
| `UnifdefMacros.WideLiteralIsWrong` | scripts/unifdef.c:824-905 | so is a line with the constant 2^32 and an unknown symbol joined by `&&` |
| `UnifdefMacros.OrTextIsWrong` | scripts/unifdef.c:773-777 | with one symbol undefined and another standing for a logical or of 1 and 0, a line that joins them by `&&` is found false although the compiler finds it true |
| `UnifdefMacros.RightExactly` | scripts/unifdef.c:746-777 | all lines whose unknown symbols stand for expressions of a level are judged as the compiler does if and only if the mode is strict or the level is above that of the logical or |
| `UnifdefEval.SoundExactlyWhenConstantsFit` | scripts/unifdef.c:746-777 | all expressions over a set of constants are evaluated as in C if and only if each constant fits an `int` |
| `UnifdefEval.StrictIsWeaker` | scripts/unifdef.c:746-777 | a definite value in strict mode is the value in non-strict mode |
| `UnifdefEval.SettledIsDecided` | scripts/unifdef.c:746-905 | an expression whose names are all known, and are numbers where they are used as values, has a definite value, strict or not; in strict mode no other has |
| `UnifdefEval.VerdictNeverFlips` | scripts/unifdef.c:824-962 | defining more symbols never turns a definite result into the opposite one |
| `UnifdefMacros.VerdictSound` | scripts/unifdef.c:824-962 | a definite result of a whole `#if` line is what the compiler finds, which replaces the symbols by texts and reads the result, if the constants fit and, outside of strict mode, no unknown symbol stands for a bare logical or |
| `UnifdefEval.Evaluator.EvalUnary` | scripts/unifdef.c:824-905 | the recursive evaluator reads the tokens that the grammar consumes and returns the value of the tree, with the constant-expression flag |
| `UnifdefEval.Evaluator.EvalTable` | scripts/unifdef.c:912-945 | the same for the loop over the operators of one precedence level |
| `UnifdefEval.SkipArgs` | scripts/unifdef.c:1083-1103 | the loop skips the argument list, and rewinds if it does not close |
| `UnifdefEval.ArgsBalanced` | scripts/unifdef.c:1083-1103 | the argument list is balanced and no shorter prefix of it is; there is none exactly if the first parenthesis never closes |
| `UnifdefEval.IfEval` | scripts/unifdef.c:951-962 | the result is unknown for constant expressions, for syntax errors and for trailing text |
| `UnifdefFile.ClassifyAgrees` | scripts/unifdef.c:639-717 | the line type agrees with the truth of the condition under every set of definitions that extends the command line |
| `UnifdefFile.UnifdefPreservesMeaning` | scripts/unifdef.c:583-717 | end to end: the compiler selects the same text from the output of the whole program as from its input, where its definitions may change with the text selected so far |
| `UnifdefFile.UnifdefPreservesGroups` | scripts/unifdef.c:583-717 | the same over the grammar: input and output are groups, with the same meaning under all definitions that follow the command line |
| `UnifdefFile.DecidedIsTold` | scripts/unifdef.c:639-717 | an `#ifdef` of a symbol of the command line, and an `#if` over such symbols only, gets a known type |
| `UnifdefFile.IgnoredSymbols` | scripts/unifdef.c:676-691 | an `#ifdef` or `#ifndef` asks for it exactly if it names, with nothing behind, a symbol given by `-iD` or `-iU` |
| `UnifdefFile.UnifdefSimplifies` | scripts/unifdef.c:583-717 | end to end: the output of the program is the partial evaluation of its input, marked line by line with what the evaluator knows |
| `UnifdefFile.UnifdefRemovesDecided` | scripts/unifdef.c:583-717 | no condition that can be told from the command line is left in the output |
| `UnifdefFile.UnifdefLeavesText` | scripts/unifdef.c:583-717 | if all conditions can be told, the output is exactly the text that the compiler selects from the input |
| `Preprocessor.SelectIsMeaning` | scripts/unifdef.c:95-107 | the stack machine selects from a group of the grammar the text that is its meaning |
| `Preprocessor.SelectReadsGroups` | scripts/unifdef.c:95-107 | conversely, every file that the stack machine accepts is a group |
| `RbTree.RotateLeft` | lib/rbtree.c:3-21 | the heap holds the rotated tree in the same surroundings, parent links included |
| `RbTree.RotateRight` | lib/rbtree.c:23-41 | the mirror image |
| `RbInsert.InsertColor` | lib/rbtree.c:43-106 | from a tree with one red node that may sit under a red parent: a red-black tree with the same in-order sequence; the loop ends |
| `RbInsert.Insert` | include/xkernel/rbtree.h:27-36 | linking a node at an empty place and fixing up gives a red-black tree with the node at that place of the in-order sequence |
| `RbErase.EraseColor` | lib/rbtree.c:108-198 | from a tree that lacks one black node on one side: a red-black tree with the same in-order sequence; the loop ends |
| `RbErase.Erase` | lib/rbtree.c:200-272 | for every node of every red-black tree: the heap holds a red-black tree, with consistent parent links, whose in-order sequence is the old one without the node |
| `RbErase.Successor` | lib/rbtree.c:213-215 | the walk to the leftmost node of the right subtree, and the path to it |
| `RbWalk.RbNext` | lib/rbtree.c:298-311 | the first of the nodes after the given one |
| `RbWalk.RbPrev` | lib/rbtree.c:313-326 | the last of the nodes before it |
| `RbWalk.Neighbours` | lib/rbtree.c:298-326 | the two are the neighbours in the in-order sequence of the whole tree |
| `RbWalk.RbFirst` | lib/rbtree.c:274-284 | the first node of a tree, `NULL` if it is empty |
| `RbWalk.RbLast` | lib/rbtree.c:286-296 | the last node of a tree, `NULL` if it is empty |
| `VmaIndex.Mm.FindVma` | mm/mmap.c:47-81 | the lowest area that ends above the address, with or without the cache; the cache is that area afterwards, and stays if there is none |
| `VmaIndex.Mm.SearchTree` | mm/mmap.c:57-75 | the descent agrees with a scan over all areas |
| `VmaIndex.Mm.FindVmaPrepare` | mm/mmap.c:167-206 | either an area that holds the address, or the empty place for it with its neighbours in the list; nothing else is said of the out-parameters on the early return |
| `VmaIndex.Mm.LinkList` | mm/mmap.c:134-151 | the list has the new area at its place |
| `VmaIndex.Mm.LinkTree` | mm/mmap.c:152-154 | the tree has the new node at its place and is red-black |
| `VmaIndex.Mm.VmaLink` | mm/mmap.c:134-165 | tree, list and cache agree again, on the areas with the new one among them, and there is one more |
| `VmaIndex.Mm.MapArea` | mm/mmap.c:323-363 | every range that meets no area can be added, and the areas stay in address order |
| `VmaIndex.RoomExactlyWhenFree` | mm/mmap.c:323-363 | there is a place for a new area at which address order is kept if and only if its range meets no area |
| `VmaIndex.Mm.SearchFrom` | mm/mmap.c:113-130 | the lowest gap from an address on that is large enough, or -1 exactly when there is none |
| `VmaIndex.Mm.GetUnmappedArea` | mm/mmap.c:83-132 | a hint that fits is taken; otherwise the result is the lowest address at or above the cached one at which the range fits, and if there is none the lowest at or above TASK_UNMAPPED_BASE; then the cache is the end of the range, and in all other cases it stays; -1 exactly if neither exists; -ENOMEM exactly for lengths over the limit |
| `VmaIndex.PageAlignUp` | arch/loongarch/include/asm/page.h:40-40 | the hint is rounded up to the next page boundary, and to zero where there is none below 2^64 |
| `TokenTable.ReplaceExpands` | scripts/kallsyms.c:473-512 | replacing a pair by its token keeps the expansion of a name |
| `TokenTable.ReplaceAllShrinks` | scripts/kallsyms.c:532-558 | a round of replacements makes the table of names shorter by at least one if the pair occurs |
| `TokenTable.RoundSound` | scripts/kallsyms.c:532-558 | a slot refers to base characters and higher slots only, and every name expands to its original after the round |
| `KallsymsBuild.FindToken` | scripts/kallsyms.c:460-470 | the first place of the pair among the bytes searched, or that there is none |
| `KallsymsBuild.CompressSymbol` | scripts/kallsyms.c:473-512 | the in-place replacement is the replacement on values, although the search runs on into the zeros behind the name |
| `KallsymsBuild.Learn` | scripts/kallsyms.c:426-441 | every pair is counted up or down as often as it occurs |
| `KallsymsBuild.FindBestToken` | scripts/kallsyms.c:515-529 | the first of the pairs with the highest profit |
| `KallsymsBuild.Compressor.CompressSymbols` | scripts/kallsyms.c:473-512 | all names are replaced and the profits are the counts again |
| `KallsymsBuild.Compressor.ChooseToken` | scripts/kallsyms.c:532-558 | the pair chosen occurs most often; the loop stops exactly when no pair occurs |
| `KallsymsBuild.Compressor.UseToken` | scripts/kallsyms.c:540-558 | the slot holds the pair and all names have it replaced |
| `KallsymsBuild.Compressor.OptimizeResult` | scripts/kallsyms.c:532-558 | at every iteration the profits are the counts, names expand to their originals, and each token has saved at least one byte; the loop ends when no pair of codes occurs or no slot is free |
| `KallsymsBuild.Compressor.InsertRealSymbols` | scripts/kallsyms.c:561-574 | every name expands to itself; exactly characters that occur have slots, and all other slots are free |
| `KallsymsBuild.RemoveInvalid` | scripts/kallsyms.c:444-457 | what is left in the table are the valid symbols, in their order |
| `KallsymsBuild.Compressor.BuildInitialTable` | scripts/kallsyms.c:444-457 | the profits are the counts of all pairs of the names left |
| `KallsymsBuild.Compressor.OptimizeTokenTable` | scripts/kallsyms.c:577-590 | the three parts together |
| `KallsymsBuild.Compress` | scripts/kallsyms.c:577-590 | for every table of names without zeros, each compressed name expands to exactly its bytes, the total is smaller by at least the number of tokens, and no pair of codes or no slot is left |
| `KallsymsImage.ExpandSymbol` | scripts/kallsyms.c:301-324 | the recursive expansion, which ends, written into the buffer with its zero; it ends well if and only if both fit |
| `KallsymsImage.WriteNames` | scripts/kallsyms.c:378-405 | the stream of lengths and codes, with a marker for every 256th name |
| `KallsymsImage.WriteTokens` | scripts/kallsyms.c:407-421 | the expanded tokens one after the other, and their offsets, if and only if every token fits the buffer with its zero |
| `KallsymsImage.IndexFits` | scripts/kallsyms.c:418-421 | token offsets fit 16 bits |
| `KallsymsImage.TokensFit` | scripts/kallsyms.c:336-336 | every token fits the buffer, with its zero, if names have at most 127 bytes |
| `KallsymsImage.TokenTooLong` | scripts/kallsyms.c:411-414 | for 128 and 129 bytes, which the program accepts, a text symbol named by one letter repeated leaves a token that does not |
| `KallsymsImage.WriteAddresses` | scripts/kallsyms.c:356-368 | wherever the text is linked, what is written is the address of the symbol, moved with the text unless it is absolute |
| `KallsymsImage.Generate` | scripts/kallsyms.c:331-422 | the tables describe the valid names and their addresses, if and only if all tokens fit; they do for names of less than 128 bytes |
| `KallsymsKernel.ExpandName` | kernel/kallsyms.c:75-122 | the buffer receives the expanded name without its type byte and a zero: all of it if name and type together are no longer than the buffer, otherwise as many bytes as leave room for the zero; nothing for a buffer of size zero; the offset is that of the next name |
| `KallsymsKernel.SymbolOffset` | kernel/kallsyms.c:126-147 | marker and scan lead where a scan from the start leads |
| `KallsymsKernel.BinarySearch` | kernel/kallsyms.c:176-186 | the last address at or below the one searched |
| `KallsymsKernel.SymbolPos` | kernel/kallsyms.c:166-221 | the first of the symbols that share the greatest address at or below, with its offset and the distance to the next higher address |
| `KallsymsKernel.CoversUnique` | kernel/kallsyms.c:188-195 | there is only one such symbol |
| `KallsymsKernel.OffsetBelowSize` | kernel/kallsyms.c:195-221 | the offset is below the size whenever a higher address exists |
| `KallsymsKernel.Lookup` | kernel/kallsyms.c:234-255 | the original name of the covering symbol with a terminator, cut to 127 bytes if it is longer, its offset and its size |
| `KallsymsKernel.GenerateAndLookup` | kernel/kallsyms.c:234-255 | generator and kernel together: if the tokens fit, the name that went in comes out, all of it up to 127 bytes, with the offset and the distance to the next higher address; the offset is below that size whenever there is one |
| `KallsymsOrder.SortAndLookup` | kernel/kallsyms.c:234-255 | from the input on: however the symbols are sorted, the lookup gives the name of the first, in the order of the comparison, of the valid symbols at the greatest address at or below |
| `KallsymsOrder.BestUnique` | scripts/kallsyms.c:674-677 | there is only one such symbol |
| `KallsymsOrder.PositionsTooFar` | scripts/kallsyms.c:671-671 | positions 0 and 2^31: each of the two symbols is found to come before the other |
| `KallsymsOrder.CompareSymbols` | scripts/kallsyms.c:637-672 | the sign is the lexicographic order of address, weakness, linker-script name, leading underscores and input position, if and only if the difference of the positions fits an `int` where it decides |
| `KallsymsOrder.PrefixUnderscoresCount` | scripts/kallsyms.c:627-635 | the number of leading underscores |
| `KallsymsOrder.OneOrder` | scripts/kallsyms.c:674-677 | two sorted arrangements of the same symbols are equal, so the table does not depend on how `qsort` works |
| `KallsymsOrder.LookupFindsFirst` | kernel/kallsyms.c:188-193 | a sorted table has ascending addresses, and the symbol that a lookup finds precedes all others at its address |
| `KallsymsOrder.WeakNotFound` | scripts/kallsyms.c:652-656 | a symbol of type W or w is not found where one of type T or t has the same address |
| `KallsymsOrder.MadeNotFound` | scripts/kallsyms.c:592-625 | nor is a name of one of the five patterns of the linker script, of eight bytes or more, where a name of the same type that begins with no underscore has the same address |
| `KallsymsOrder.UnderscoresNotFound` | scripts/kallsyms.c:627-635 | nor is a name with more leading underscores than another of the same type that follows none of these patterns |
| `AsnGrammar.DrainCovers` | scripts/asn1_compiler.c:1330-1372 | every element that is jumped to gets a body |
| `AsnGrammar.RenderGrew` | scripts/asn1_compiler.c:1377-1555 | rendering an element appends opcodes and queue entries, and queues no element twice |
| `AsnLayout.RenderCode` | scripts/asn1_compiler.c:1377-1555 | what is rendered for an element is its code: match and tag with their flags, the code of what it contains or a jump, and then, by its kind, the end, the jump back to where its content starts, COND_FAIL, ACT and the action |
| `AsnLayout.BodyCode` | scripts/asn1_compiler.c:1330-1372 | a body is the code of the children, the end, the jump back to where the body starts, the action and RETURN |
| `AsnLayout.DrainBodies` | scripts/asn1_compiler.c:1330-1372 | the bodies of all queued elements stand one after the other, each once, where they start |
| `AsnLayout.PassJumps` | scripts/asn1_compiler.c:1294-1372 | the opcodes of a pass are the code of the root, COMPLETE and these bodies, and every jump leads to an element that has one |
| `AsnLayout.ProgramLoops` | scripts/asn1_compiler.c:1501-1519 | every jump back in such a program stands behind the end of a loop element and leads to just after its match and tag, or to the start of its body, and from there up to the end stands the code of what the element contains |
| `AsnRender.Renderer.RenderElement` | scripts/asn1_compiler.c:1377-1555 | the fields represent the state that rendering on values gives, in both passes |
| `AsnRender.Renderer.Enqueue` | scripts/asn1_compiler.c:1482-1486 | an element is appended to the linked queue, whatever its own link holds |
| `AsnRender.Renderer.TakeFacts` | scripts/asn1_compiler.c:1336-1339 | a link left over from the first pass is the link that the second pass needs |
| `AsnRender.Renderer.RenderOutOfLineList` | scripts/asn1_compiler.c:1330-1372 | the queue is emptied in the order of the pass on values, although links are stale |
| `AsnRender.Renderer.RunPass` | scripts/asn1_compiler.c:1294-1301 | one pass from the root element to the last body |
| `AsnRender.Renderer.RenderAllPasses` | scripts/asn1_compiler.c:1294-1315 | what the second pass prints is the code of the root, COMPLETE and the bodies of the elements jumped to; every jump target printed is the index at which the body of the element is printed, and every jump back that at which the content of its loop is printed; for grammars in which no element that rendering comes to contains itself in place |
| `BuddyBlocks.Buddies` | include/xkernel/memory.h:259-262 | the buddy relation is symmetric and stays inside the block of the next order |
| `BuddyBlocks.Combined` | mm/memory.c:558-561 | the conjunction of two buddies' numbers is the start of the block they make up |
| `BuddyBlocks.Halves` | mm/memory.c:558-561 | that block has exactly the pages of the two |
| `BuddyBlocks.FloorRange` | mm/memory.c:536-575 | a block is a range of pages |
| `BuddyBlocks.FreeBlocksDisjoint` | mm/memory.c:492-516 | the page ranges of different free blocks have no page in common |
| `BuddyBlocks.Insert` | mm/memory.c:500-516 | adding a block of pages that are not free keeps all blocks aligned, disjoint and without a free pair of buddies |
| `BuddyBlocks.Remove` | mm/memory.c:492-498 | taking a block away frees none of its pages any more, and changes no others |
| `BuddyZone.Zone.FindBuddy` | include/xkernel/memory.h:271-296 | from order one on the buddy is found exactly if it is a free block of this order; at order zero it is always found |
| `BuddyZone.Zone.MergeLikely` | mm/memory.c:520-534 | whether the buddy of the next larger block is free |
| `BuddyZone.Zone.DelPageFromFreeList` | mm/memory.c:492-498 | the block is unlinked, its recorded order cleared, the counter is the length of the list |
| `BuddyZone.Zone.AddToFreeList` | mm/memory.c:500-516 | the block is linked at the head or the tail, and recorded |
| `BuddyZone.Zone.Merge` | mm/memory.c:546-565 | the block grows as long as its buddy is free |
| `BuddyZone.Zone.FreeOnePage` | mm/memory.c:536-575 | ends well if and only if the order is at least one or the buddy is a free single page; then the invariant holds and exactly the pages of the block are free in addition; the block is the last of its list if that is asked for or the buddy of the next larger block is free, and the first otherwise |
| `BuddyZone.LonePage` | mm/memory.c:536-575 | a single page whose buddy is not free: the buddy is unlinked although it is on no list |
| `BuddyZone.Zone.FreeUnaligned` | mm/memory.c:536-575 | a block that is not aligned is merged with nothing, linked as it is, recorded and counted, and the invariant of the lists does not hold any more |
| `BuddyZone.Zone.Expand` | mm/memory.c:611-626 | the upper halves become free, each at the head of its list, until a block of the order is left; no other list changes |
| `BuddyZone.Zone.RmqueueSmallest` | mm/memory.c:630-654 | the first block of the smallest sufficient order, off its list, with its upper halves at the head of theirs and no other list changed; none exactly when no block is large enough; exactly the pages of the result are no longer free |
| `BuddyZone.Serve` | mm/memory.c:536-654 | over every sequence of allocations and frees: each hands out the block of the smallest sufficient order unless there is none, or makes the pages of its block free; free and handed-out pages together stay the same, blocks handed out are disjoint, and only the free of a single page with a buddy that is not free ends the run |
| `Memblock.NextMemRange` | mm/memblock.c:141-196 | from the cursor on, the next memory region and gap between reserved regions that meet, and that there is none between; without reserved regions, the next memory region |
| `Memblock.FreeRanges` | mm/memblock.c:234-242 | iterated to the end: ascending ranges without overlap whose union is memory without what is reserved |
| `MemTiles.FreeMemoryCore` | mm/memblock.c:206-232 | the blocks freed are those of the tiling, and the count returned is zero |
| `MemTiles.TilesExactly` | mm/memblock.c:216-229 | the blocks follow each other without gap from the first page to the last |
| `MemTiles.WholePages` | mm/memblock.c:209-210 | the pages are those wholly inside the range and below the limit, if and only if rounding up the start does not wrap around or nothing is below the limit |
| `MemTiles.AlignedExactlyWhenTidy` | mm/memblock.c:216-224 | all blocks are aligned to their size if and only if every size that fits at the start is aligned there and no multiple of 2^32 lies in the range with two more pages behind it |
| `MemTiles.UntidyRange` | mm/memblock.c:216-224 | three pages from page one: the first block is not aligned |
| `BootMemory.FreeRange` | mm/memblock.c:206-232 | a range of pages that are not free, freed into the zone block by block: exactly its pages become free and the invariant holds, if and only if all blocks are aligned, each end is even or has a free page beyond it, and no multiple of 2^32 other than zero has a page of the range behind it; after a block that is not aligned the invariant does not hold |
| `BootMemory.FreeLowMemory` | mm/memblock.c:234-242 | regions, ranges and blocks together, into an empty zone: exactly the pages that lie wholly in one of the ranges of memory that is not reserved are free afterwards, if and only if every range is tidy, begins and ends at even pages and holds no multiple of 2^32 other than zero |
| `BootMemory.FloorShift` | include/xkernel/memory.h:56-63 | page numbers of the map and page frame numbers have the same blocks |
| `Threads.Machine.Schedule` | thread/thread.c:258-290 | exactly one thread runs, the first of the ready list; the asserts hold, also for the idle thread on an empty list |
| `Threads.Machine.ThreadBlock` | thread/thread.c:292-305 | the running thread blocks and the first of the ready list runs, or the idle thread if the list is empty |
| `Threads.Machine.ThreadUnblock` | thread/thread.c:307-320 | a blocked thread goes to the front of the ready list; it is on it once |
| `Threads.Machine.ThreadYield` | thread/thread.c:330-338 | the running thread goes to the end of the ready list and the first one runs |
| `Threads.Machine.SemaDown` | thread/sync.c:13-27 | one round of the loop: through with the value counted down, or at the end of the wait list and blocked, with the next ready thread running |
| `Threads.Machine.SemaUp` | thread/sync.c:29-41 | the first waiting thread is woken and the 8-bit value counted up |
| `Threads.BlockKeeps` | thread/sync.c:17-24 | blocking keeps the wait lists right and loses no wakeup |
| `Threads.ThroughKeeps` | thread/sync.c:25-25 | passing keeps at least as many woken threads as may pass while others wait, also when a thread passes that was not woken |
| `Threads.WakeKeeps` | thread/sync.c:32-39 | waking keeps the same |
| `Threads.Machine.AcquireRead` | thread/sync.c:52-52 | the unsynchronised read finds the caller exactly when the caller owns the lock |
| `Threads.Machine.AcquireDown` | thread/sync.c:53-53 | who gets through owns the lock, and nobody gets through while it has an owner |
| `Threads.Machine.AcquireInc` | thread/sync.c:56-58 | the count follows the nesting depth |
| `Threads.Machine.ReleaseTest` | thread/sync.c:63-67 | neither the assert nor the check of the holder fires |
| `Threads.Machine.ReleaseUp` | thread/sync.c:70-70 | the lock has no owner and one thread may pass |
| `Threads.Machine.Step` | thread/sync.c:50-74 | any step of any thread keeps the invariant, and takes ready list, places, values, wait lists, holders and counts to exactly where one step of the machine on values takes them; only the running thread moves, in the order of the statements; it is refused exactly where the count of a lock would go beyond 32 bits |
| `Threads.Machine.Run` | thread/thread.c:258-338 | after every run the invariant holds and the state is the last stage of the machine on values; a run stops early exactly where a count would go beyond 32 bits |
| `Threads.NextMoves` | thread/sync.c:50-74 | in the machine on values a step moves only the running thread, to a statement that follows its own |
| `Threads.Machine.MutualExclusion` | thread/sync.c:50-74 | at most one thread is between its `sema_down` and its `sema_up` of a lock |
| `Threads.Machine.HolderHasLock` | thread/sync.c:50-74 | a thread recorded as the holder has the lock, and the count is the nesting depth of the owner |
| `Threads.Machine.OnOneList` | thread/sync.c:13-41 | a thread that waits is on one wait list and not on the ready list |
| `Threads.Machine.SomeoneIsOnTheWay` | thread/sync.c:13-41 | if a semaphore could be passed while threads wait, one of them is ready or running |
| `FatVolume.PlacesDiffer` | fs/fat32/cluster.c:26-37 | different entries, or entries of different copies, have different places on the disk |
| `FatVolume.SectorInTable` | fs/fat32/cluster.c:26-37 | every entry lies inside its copy of the table, before the data area |
| `FatVolume.EntryIsWord` | fs/fat32/cluster.c:26-37 | entry c of copy f is word c of the `fat_sz` sectors that start f times `fat_sz` after the reserved ones |
| `FatVolume.ClustersApart` | fs/fat32/cluster.c:16-20 | cluster 2 starts the data area, and every cluster starts where the one before ends |
| `FatVolume.BlankTable` | fs/fat32/cluster.c:26-37 | a volume on which nothing is stored has all copies alike and no chains |
| `FatVolume.Volume.FatWrite` | fs/fat32/cluster.c:79-92 | the entry changes in all copies, nothing else changes, and the copies stay alike |
| `FatVolume.Volume.FatRead` | fs/fat32/cluster.c:94-111 | the entry, and zero for numbers that are no cluster |
| `FatVolume.Volume.ClusterZero` | fs/fat32/cluster.c:116-133 | the sectors of the cluster are cleared, and no others |
| `FatVolume.Volume.ClusterAlloc` | fs/fat32/cluster.c:138-152 | the lowest free cluster after the given one is linked, marked as the end and cleared, and every other cluster holds what it held; zero and no change exactly when there is none |
| `FatVolume.Volume.ClusSequenceFree` | fs/fat32/filepnt.c:74-84 | the clusters of the chain become free, and no others; no data changes |
| `FatChain.NewChain` | fs/fat32/cluster.c:138-152 | a new chain keeps all chains disjoint, ascending and ended, and zero entries are exactly the unused ones |
| `FatChain.GrowChain` | fs/fat32/cluster.c:138-152 | so does a cluster appended to a chain |
| `FatChain.DropChain` | fs/fat32/filepnt.c:74-84 | so does a chain set free |
| `FatFile.PointerTable.SetVal` | fs/fat32/filepnt.c:9-30 | the slot has the value, on either level, and no other slot in use changes |
| `FatFile.PointerTable.GetClusByNo` | fs/fat32/filepnt.c:50-69 | the value of the slot; the asserts hold |
| `FatFile.File.FilepntInit` | fs/fat32/filepnt.c:31-49 | the table holds the chain that a walk through the allocation table gives |
| `FatFile.File.FileExtend` | fs/fat32/file.c:96-131 | chain and table grow to the clusters that the new size needs, and still agree, if and only if there are enough free clusters above the last one; otherwise a slot of the file holds zero; either way every cluster in use stays in use and holds what it held |
| `FatFile.VolumeFull` | fs/fat32/file.c:122-127 | on a volume of one cluster, growing to two puts a zero into the table |
| `FatFile.FreeBelow` | fs/fat32/file.c:122-127 | so does growing a file when the only free cluster is below its last one |
| `FatFile.Run` | fs/fat32/cluster.c:138-152 | over every sequence of new, extended and deleted chains: each operation takes the lowest free cluster from where it looks, or deletes its chain; at every stage chains are disjoint, ascending and ended, and all copies alike at the end; without deletions every cluster in use holds what it held |
| `Kstrtox.OverflowTest` | lib/kstrtox.c:58-62 | the test, which is skipped below 2^60, is exact for all bases up to 16 |
| `Kstrtox.ParseInteger` | lib/kstrtox.c:34-69 | result and word are what the digits give in 64 and 32 bits: the number and the count below 2^64 and 2^32 digits, the overflow bit and the count from 2^64 on below 2^31 digits |
| `Kstrtox.BitRightExactly` | lib/kstrtox.c:58-64 | for n below 2^32: the bit means overflow for all strings of n digits if and only if n is below 2^31 |
| `Kstrtox.ZerosOverflow` | lib/kstrtox.c:58-64 | from 2^31 zeros on the bit is set although the number is zero |
| `Kstrtox.WrappedAway` | lib/kstrtox.c:58-64 | a one and 2^31 zeros in base 16 overflow, and the bit is clear |
| `Kstrtox.ReadExactly` | lib/kstrtox.c:71-89 | all strings of n digits are read as what they mean, with and without sign, if and only if n is below 2^31 |
| `Kstrtox.KstrtoullDigits` | lib/kstrtox.c:71-89 | prefix, digits, one newline at most, and the errors; what the string means, below 2^31 digits |
| `Kstrtox.Kstrtoull` | lib/kstrtox.c:106-111 | the same after an optional plus sign |
| `Kstrtox.Kstrtoll` | lib/kstrtox.c:128-149 | exactly the numbers from -2^63 to 2^63 - 1 are accepted, below 2^31 digits |
| `Kstrtox.Itoa` | command/printf.c:50-64 | the digits of the number are written, and nothing else |
| `Kstrtox.PrintedValue` | command/printf.c:50-64 | the digits write the number, without leading zeros |
| `Kstrtox.RoundTrip` | command/printf.c:50-64 | every 64-bit number printed in a base from 2 to 16 is read back in that base |
| `Kstrtox.RoundTripAnyBase` | lib/kstrtox.c:10-24 | decimal numbers are also read back when the base is to be found out |
| `Kstrtox.RoundTripHex` | lib/kstrtox.c:10-24 | hexadecimal numbers are read back after 0x, in base 16 and when the base is to be found out |
| `Kstrtox.RoundTripOctal` | lib/kstrtox.c:10-24 | octal numbers are read back after 0 when the base is to be found out |
| `Kstrtox.CapitalsRead` | lib/kstrtox.c:34-69 | capital letters, in the prefix and as digits, read like small ones, in every string |
| `Kstrtox.NewlineRead` | lib/kstrtox.c:71-89 | one newline at the end of a string without newlines changes neither its value nor its error |
| `Kstrtox.RoundTripSigned` | lib/kstrtox.c:128-149 | the same for signed numbers |

## Left out

- unifdef: reading of lines, comments and continuation lines, the options that list symbols, complement or blank out lines, and `#line` output; expressions are token lists, conditions are compared by their tokens.
- unifdef: suffixes of integer constants and unsigned arithmetic; a constant is a number.
- `UnifdefFile.UnifdefPreservesMeaning`: files that define or undefine a symbol of the command line themselves, and symbols that stand for something that is no expression or only a part of one.
- kallsyms: parsing of `nm` output, which symbols are valid, the sorting algorithm, and quoting in the assembler text; what an expansion beyond the buffer overwrites.
- kallsyms kernel side: module symbols, the checks that an address belongs to the kernel image, and lookup by name.
- ASN.1 compiler: tokeniser, parser, action tables, indentation and comments of the output, and the error exit for SET.
- red-black tree: `rb_replace_node`.
- `VmaIndex.Mm.MapArea`: a fixed range that meets an area; there is no place for it, and where the address lies in an area the code uses variables that are not set.
- VMA index: merging, unmapping, page tables and files; `rb_entry` is a map from tree nodes to areas, so address arithmetic inside an area is not modelled.
- page allocator: migrate types other than the one in use, zones, watermarks, and the retry loops around `__rmqueue_smallest`, which do not end when memory is used up.
- page allocator: what `list_del` does to a page that is on no list; the model stops there.
- boot memory: how regions are added, and memory in the last page of the address space, where rounding up wraps around.
- `BootMemory.FreeRange`: what the allocator does with a block that is not aligned, or with a buddy that is on no list; the model stops there.
- threads: creation and exit of threads, sleeping, `thread_preempt`, the counting of interrupt levels, and fairness.
- `Threads.Machine.AcquireInc`: a lock nested 2^32 times by one thread; `Run` stops before the count would wrap.
- FAT32: directories, file contents, shrinking, and the buffer cache, which is a plain store of sectors here; the upper four bits of an entry, which the code does not mask either; pages of the pointer table are values and start as zeros.
- `FatFile.File.FileExtend`: files of more clusters than the pointer table has room for, sizes from 2^31 on, which the `int` parameter cannot hold, and files whose chain is longer than their size needs.
- `FatFile.File.FilepntInit`: chains of more clusters than the pointer table has room for.
- kstrtox: the narrower variants of the conversions.
- Drivers, interrupt and context-switch code, ext4, timers, signals, mounting and path lookup.
