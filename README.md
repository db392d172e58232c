# re1-rust core in Dafny

A model of the core of re1-rust, a Rust port of Russ Cox's re1. A parsed
regular expression (`Regexp`) is compiled into a bytecode program (`Inst`:
`Char`, `Any`, `Match`, `Jmp`, `Split`, `Save`). The program is then run
against an input by four engines:

- a recursive backtracker, in its fully recursive form and its loop form;
- an explicit-stack backtracker with a 1000-thread cap;
- the Thompson NFA simulation, which gives only a verdict and the end offset of the match;
- the Pike VM, which carries a capture store per thread.

The lexer's char-to-token map and the `Display` of a token are modelled too.

The model is split into modules as follows:

- `Syntax` (syntax.dfy): the pattern and the bytecode, `Prog`, the unanchored wrapper, the well-formedness predicate every engine requires, and the slot count `Prog::nsaved` computes.
- `Utf8` (utf8.dfy): the input as a `seq<char>` addressed by UTF-8 byte offsets, as Rust's `&str` is.
- `Cursor` (cursor.dfy): the `VM` cursor, a class whose `pc` and `offset` fields the engines step.
- `Captures` (captures.dfy): the capture store `Sub`, by value.
- `Compile` (compile.dfy):
  - `ProgBuilder`, a class whose `insts` buffer grows by appends and is backpatched by index;
  - `Emit`, the fragment a pattern compiles to, which specifies the builder;
  - `CountInsts` and `NSub`.
- `Recursive` (recursive.dfy):
  - the two forms of `match_recursive`, both proved equal to the function `Rec`;
  - the fact that a larger step budget does not change a finished run.
- `Backtrack` (backtrack.dfy): `match_backtrack` as the source's two nested loops. It is proved equal to the functions `Run`/`Resume`, and those are proved equal to `Rec` on a well-formed program whose store has a slot for every `Save`, whenever the stack does not overflow.
- `Marks` (marks.dfy): the per-generation `visited` marks and the bookkeeping that bounds a generation.
- `Thompson`, `Pike` (thompson.dfy, pike.dfy):
  - `add_thread` as a recursive method over a `visited` array, and the drain loop and the main loop as methods with loop invariants;
  - each proved equal to spec functions (`Closure`, `Step`, `Run`).
- `Agreement` (agreement.dfy): Thompson and Pike give the same verdict on every input, for every well-formed program whose store has a slot for every `Save`.
- `Lex` (lex.dfy): `Lexer::next` on a class holding the iterator's position, `Display for Token`, and the spans.

Every engine requires `WellFormed(insts)` or works on any program:

- What `WellFormed` demands: the program ends in `Match`, and every branch target is an instruction.
- `Compile.Compile` establishes it.
- The Thompson and Pike closures index `insts[pc]` and `insts[pc + 1]` without a check, so those engines require it.
- The recursive engines and the backtracker handle any program. The backtracker and the Pike VM also require `sub_out` to have a slot for every `Save`, that is `SlotCount(insts) <= |sub_out|`. The Save arms of src/backtrack.rs:64-66 and src/pike.rs:95-98 call `update` without a bound check, and what `update` does for `n >= len` is left unspecified.

Three behaviours of the code that the model keeps:

- The Thompson engine sets slot 0 to 0, not to the start of the match (src/thompson.rs:29-32). Slot 1 holds the offset before the char read in the generation where a `Match` was reached.
- The explicit-stack backtracker returns false as soon as the pc leaves the program (src/backtrack.rs:33-36), even with deferred threads left. The recursive engine treats the same case as the failure of one branch. The two are proved equal only on well-formed programs, where this cannot happen.
- The engines start from the cursor's current pc and offset, not from 0. Thompson and Pike start their first closure at pc 0. The backtracker starts at pc 0 and at the cursor's offset.

## Model

| member | source | states |
|---|---|---|
| Syntax.ParseWrapped | src/regexp.rs:31-36 | a parse error passes through unchanged; a parsed `re` becomes exactly `Cat(Star(false, Dot), Paren(0, re))` |
| Syntax.Prog.Inst | src/regexp.rs:61-63 | None exactly when `pc >= len`, otherwise the instruction at `pc` |
| Syntax.Prog.NSaved | src/regexp.rs:65-73 | the loop computes `SlotCount`: 0 iff there is no `Save`, and every `Save(n)` has `n < count` |
| Syntax.SlotCountIsLeastBound | src/regexp.rs:65-73 | `SlotCount` is the least bound: every `Save(n)` is below it, it is 0 iff there is no Save, and otherwise some `Save(count - 1)` exists |
| Syntax.SaveBelowSlotCount | src/regexp.rs:65-73 | the slot written by any `Save` is below the slot count |
| Utf8.Utf8Len | src/regexp.rs:112 | a char's UTF-8 length is 1 to 4 bytes: 1 exactly below 0x80, and 4 exactly from 0x10000 |
| Utf8.DecodeSuffix | src/regexp.rs:110 | the text from a char boundary `off` is a suffix of the input, and `off` is the byte length of the chars before it |
| Utf8.DecodePrefix | src/regexp.rs:110 | the byte length of any prefix of whole chars is a boundary, where exactly the remaining chars start |
| Utf8.BoundaryWithin | src/regexp.rs:110-112 | a boundary is at most the input's byte length, and equals it exactly when nothing is left to read |
| Utf8.DecodeAdvance | src/regexp.rs:110-112 | stepping past the first char at a boundary reaches the next boundary, with the rest of the chars after it |
| Utf8.NextChar | src/regexp.rs:109-114 | from a boundary: None exactly at the end of the input, and then the offset is unchanged; otherwise the char at the offset, with the offset advanced by its UTF-8 length to a boundary |
| Utf8.BoundaryIffPrefix | src/regexp.rs:110-112 | the char boundaries are exactly the byte lengths of the char prefixes of the input |
| Utf8.NextCharAt | src/regexp.rs:109-114 | after `k` whole chars, `next_char` reads char `k` and moves to the boundary after `k + 1` chars, or reports the end |
| Captures.NewSub | src/backtrack.rs:25 | `Sub::new(n)` has `n` slots, all unset |
| Captures.Update | src/pike.rs:96 | `update(n, off)` sets slot `n` to `off` and leaves every other slot, and the width, unchanged |
| Cursor.VM.constructor | src/regexp.rs:87-95 | the cursor starts at pc 0 and offset 0 on the program's instructions and the input |
| Cursor.VM.Clone | src/recursive.rs:36 | a fresh cursor with the same program, input, pc and offset |
| Cursor.VM.Inst | src/regexp.rs:117-119 | None exactly when `pc >= len`, otherwise the instruction at `pc` |
| Cursor.VM.NextInst | src/regexp.rs:97-106 | in range: returns `insts[pc]` and advances `pc` by exactly 1; past the end: None, and `pc` unchanged |
| Cursor.VM.NextChar | src/regexp.rs:109-114 | returns the next char and advances `offset` by its UTF-8 length; at the end it returns None with `offset` unchanged; `offset` stays a char boundary within the input |
| Cursor.VM.SetOffset | src/backtrack.rs:30 | a resumed thread puts the cursor at its saved boundary |
| Cursor.VM.SetPc | src/regexp.rs:127-129 | `pc` becomes the target and nothing else changes |
| Cursor.VM.Reset | src/regexp.rs:137-140 | `pc` and `offset` become 0 and the program and input are untouched |
| Compile.EmitLength | src/compile.rs:20-31 | `count_insts(r)` (the function `Compile.CountInsts`) is the exact length of `r`'s fragment |
| Compile.EmitTargets | src/compile.rs:40-92 | every Jmp/Split target of a fragment starting at `base` lies in `base..base + count_insts(r)` |
| Compile.EmitSlots | src/compile.rs:57-62 | the slot count of a fragment is `NSub(r)`: 2·(largest group id + 1), or 0 without groups |
| Compile.EmitCat | src/compile.rs:51-54 | Cat emits nothing of its own: left's fragment, then right's |
| Compile.ParenSaves | src/compile.rs:57-60 | a group's fragment starts with `Save(2n)` and ends with `Save(2n + 1)` |
| Compile.GreedyOnlySwapsSplit | src/compile.rs:63-89 | greedy and non-greedy Quest, Star and Plus differ only in the operand order of one Split; greedy is `Split(body, after)` |
| Compile.FragmentJumps | src/compile.rs:43-81 | Star ends with a Jmp to its own Split; Alt's Jmp goes to the instruction just after the right operand |
| Compile.NoPlaceholderLeft | src/compile.rs:94-98 | no `Split(usize::MAX, usize::MAX)` placeholder survives compilation |
| Compile.ProgBuilder.constructor | src/compile.rs:10-13 | an empty buffer with slot count 0 |
| Compile.ProgBuilder.PushSplitPlaceholder | src/compile.rs:94-98 | appends the placeholder and returns its index |
| Compile.ProgBuilder.PushRegexp | src/compile.rs:40-92 | returns the old buffer length, appends exactly `Emit(r, pc)` leaving earlier instructions as they were, and raises `nsub` to `NSub(r)` |
| Compile.ProgBuilder.PushAlt | src/compile.rs:43-50 | the Alt arm: both placeholders patched by index give `Split(x, y)`, left, `Jmp(end)`, right |
| Compile.ProgBuilder.PushCat | src/compile.rs:51-54 | the Cat arm: left's fragment then right's |
| Compile.ProgBuilder.PushParen | src/compile.rs:57-62 | the Paren arm: `Save(2n)`, the group, `Save(2n + 1)`, and `nsub` raised to `2(n + 1)` |
| Compile.ProgBuilder.PushQuest | src/compile.rs:63-71 | the Quest arm: the placeholder patched to the greedy or non-greedy Split around the operand |
| Compile.ProgBuilder.PushStar | src/compile.rs:72-81 | the Star arm: Split, operand, Jmp back to the Split |
| Compile.ProgBuilder.PushPlus | src/compile.rs:82-89 | the Plus arm: operand, then a Split back to its start |
| Compile.Compile | src/compile.rs:9-17 | the program is the fragment plus `Match`: `count_insts + 1` instructions, ending in Match, well formed, with `nsub` equal to the slot count `nsaved` finds |
| Recursive.Rec | src/recursive.rs:9-55 | a finished run spends at least one step, keeps the store's width, and on failure hands back exactly the store it was given |
| Recursive.MatchRecursive | src/recursive.rs:9-55 | the fully recursive form computes `Rec` from the cursor's pc and offset |
| Recursive.MatchRecursiveLoop | src/recursive.rs:57-97 | the loop form computes the same `Rec`, so both forms agree on verdict and store |
| Recursive.RecAtSplit | src/recursive.rs:34-41 | at a Split, y is tried only when x fails, from the same offset and with what x handed back |
| Recursive.RecAtSave | src/recursive.rs:42-53 | at an in-range Save, a failure of the rest restores the slot's old value |
| Recursive.RecMoreFuel | src/recursive.rs:9-55 | a run that finishes within a step budget finishes the same way with any larger budget |
| Backtrack.Run | src/backtrack.rs:32-67 | a match found from the running thread has the store's width |
| Backtrack.Resume | src/backtrack.rs:28-31 | resuming the most recently deferred thread finds stores of the same width |
| Backtrack.MatchBacktrack | src/backtrack.rs:20-71 | the two loops compute `Resume` from one thread at pc 0, the cursor's offset and all slots unset; `sub_out` is written only on a match, with that thread's store |
| Backtrack.RunIsRec | src/backtrack.rs:28-70 | without overflow, on a well-formed program, a thread runs exactly as `Rec`, and its failure resumes the deferred threads (LIFO) |
| Backtrack.BacktrackAgreesWithRecursive | src/backtrack.rs:20-71 | without overflow, on a well-formed program whose store has a slot for every `Save`, the backtracker and `match_recursive` agree on match, store, no-match and running out of steps |
| Marks.AllClear | src/thompson.rs:26 | `vec![false; n]`: `n` marks, all clear |
| Marks.Clear | src/thompson.rs:41 | `visited.fill(false)` clears every mark |
| Marks.MarkOne | src/thompson.rs:84-86 | marking an unvisited pc leaves one fewer unvisited, which bounds the closure's recursion |
| Marks.GrowsRecords | src/thompson.rs:82-87 | a closure keeps a generation duplicate-free and within its marks |
| Thompson.Closure | src/thompson.rs:81-98 | the number of unmarked pcs does not grow, and the width of the marks is kept; that marks are only added is `ClosureGrows` |
| Thompson.ClosureGrows | src/thompson.rs:81-98 | the closure keeps the list as a prefix, lists only newly marked pcs, each once, puts an unvisited pc first, and adds nothing for a visited pc |
| Thompson.AddThread | src/thompson.rs:81-98 | the recursive method over the `visited` array computes `Closure` |
| Thompson.StepGrows | src/thompson.rs:42-70 | draining adds to the next generation only what closures add |
| Thompson.StepAtEnd | src/thompson.rs:51-56 | at the end of the input no thread advances |
| Thompson.StepGeneration | src/thompson.rs:41-70 | no generation holds a pc twice, so none is longer than the program |
| Thompson.FirstGeneration | src/thompson.rs:26-27 | the first generation starts with pc 0, is duplicate-free and no longer than the program |
| Thompson.Run | src/thompson.rs:35-76 | once a Match has been seen the verdict stays true; the store keeps its width |
| Thompson.Start | src/thompson.rs:29-32 | after the reset, slot 0 is 0 when there is one, and the rest are unset |
| Thompson.First | src/thompson.rs:26-27 | the first generation lists only pcs of the program |
| Thompson.Drain | src/thompson.rs:41-70 | the drain loop computes `Step`: closures of the accepting Char/Any successors, stopping at the first Match |
| Thompson.MatchThompson | src/thompson.rs:22-78 | the engine computes `Run` from the first generation, in at most (chars left + 1) rounds |
| Thompson.RunSlots | src/thompson.rs:35-76 | each round keeps slot 0 at 0, the other slots unset, and slot 1 set exactly after a Match, to a char boundary |
| Thompson.ThompsonSlots | src/thompson.rs:29-63 | the final store has slot 0 = 0, slot 1 set exactly on a match to a char boundary, and every other slot unset |
| Pike.Closure | src/pike.rs:82-101 | the number of unmarked pcs does not grow, and the width of the marks is kept; that marks are only added is `ClosureGrows` |
| Pike.AddsSave | src/pike.rs:95-98 | threads whose stores came after a Save differ from the store before it only in slots set to the offset |
| Pike.ClosureGrows | src/pike.rs:82-101 | the closure lists each newly marked pc at most once and only waiting threads (Char, Any, Match), whose stores differ from the incoming one only in slots set to the offset |
| Pike.AddThread | src/pike.rs:82-101 | the recursive method over the `visited` array computes `Closure` |
| Pike.StepGrows | src/pike.rs:41-66 | draining adds only waiting threads with stores of the right width, and a claimed store has that width |
| Pike.First | src/pike.rs:30-32 | the first closure runs from pc 0 at offset 0 with every slot unset, and its threads are well formed |
| Pike.Drain | src/pike.rs:41-66 | the drain loop computes `Step`: successors closed at the offset after the char, stopping at the first Match thread and claiming its store |
| Pike.MatchPike | src/pike.rs:24-79 | the engine computes `Run` from the first generation; `sub_out` becomes the last claimed store, or all unset without a match |
| Pike.StepGeneration | src/pike.rs:40-66 | a generation lists each pc at most once, is no longer than the program, and holds only Char, Any and Match threads |
| Pike.FirstGeneration | src/pike.rs:30-32 | the first generation is duplicate-free, no longer than the program, and holds only waiting threads |
| Pike.ClosureCaptured | src/pike.rs:95-98 | a Save writes a char boundary, so every store a closure lists holds only boundaries |
| Pike.StepCaptured | src/pike.rs:44-59 | draining keeps every slot of every store a char boundary |
| Pike.RunCaptured | src/pike.rs:35-72 | a claimed store has the right width and holds only char boundaries |
| Pike.PikeCaptures | src/pike.rs:30-78 | the result keeps `sub_out`'s width; every set slot is a char boundary, and with no match every slot is unset |
| Agreement.ClosureAgree | src/pike.rs:82-101 | both closures make the same marks, and Pike lists exactly Thompson's waiting pcs, in order |
| Agreement.StepNothingWaiting | src/thompson.rs:42-70 | a Thompson generation with no waiting pcs drains to nothing |
| Agreement.StepAgree | src/thompson.rs:42-70 | draining corresponding generations gives corresponding next generations and the same hit |
| Agreement.RunAgree | src/thompson.rs:35-76 | corresponding main loops reach the same verdict |
| Agreement.ThompsonAgreesWithPike | src/thompson.rs:22-78 | `match_thompsonvm` and `match_pikevm` give the same verdict on every well-formed program and input |
| Lex.TokenOf | src/lex.rs:41-51 | the eight punctuation chars get their own tokens, and every other char `c` gets `Char(c)`; displaying the token gives the char back |
| Lex.DisplayRoundTrip | src/lex.rs:56-70 | `Display for Token` (the function `Lex.Display`): lexing a token's display gives back the token, except for a literal of a punctuation char |
| Lex.Tokens | src/lex.rs:37-53 | the lexer yields exactly one token per input char |
| Lex.TokenSpans | src/lex.rs:39-53 | spans start at 0, are contiguous, end at the input's byte length, and each is its char's UTF-8 length (1 to 4) |
| Lex.SpanLengths | src/lex.rs:52 | each span is `(i, i + len_utf8(ch))` |
| Lex.SpansContiguous | src/lex.rs:40 | the next token starts where the previous one ends |
| Lex.SpansEnds | src/lex.rs:29-33 | the first span starts at 0 and the last ends at the input's byte length |
| Lex.Lexer.constructor | src/lex.rs:29-33 | the lexer starts at offset 0 |
| Lex.Lexer.Next | src/lex.rs:39-53 | yields the next entry of `Tokens(s)`, spanning from the current offset to the new one; at the end it yields None and does not move; it never yields an error |

## Left out

- `Regexp::parse` and the lalrpop parser: not part of this model. `ParseWrapped` takes the parser's result as its input.
- src/main.rs and src/lib.rs: the command-line driver and the module declarations. `Prog::new(b.insts, b.nsub)` is called at src/compile.rs:16, but `Prog` (src/regexp.rs:50-52) has only `insts` and no `new`. The model's `Prog` adds `nsub`.
- The `Display` impls of `Regexp`, `Inst`, `Prog` and `VM`, and the debug `println!` in `next_inst`: debug output with no stable format. The `debug` flag of `VM` is left out with them.
- Lex.Display: `Display for Token` is modelled as the char it writes through `write_char`, not as a formatter. The `Infallible` error of the lexer's items cannot occur, so an item is modelled without its `Ok`.
- `Sub` is imported from the crate root (src/backtrack.rs:8) and defined outside the modelled code. It is modelled from its uses (`new`, `reset`, `len`, `get`, `set`, `update`, `clone_from`, `clone_into`), by value as a sequence of optional offsets. So the `Rc` sharing of stores and the copy-on-write `update` are not modelled, and neither is physical sharing. That one handle's update never changes another holds by construction.
- Captures.Update: requires `n < |sub|`, because what `update` does for `n >= len` is left unspecified. The recursive engines check `n >= sub.len()` themselves, and the model keeps that branch.
- Backtrack.MatchBacktrack, Pike.MatchPike: inherit that precondition as `SlotCount(insts) <= |sub_out|`. A `sub_out` narrower than the program's Save slots is accepted by src/backtrack.rs:25,65 and src/pike.rs:32,96, but is not modelled.
- Recursive.MatchRecursive, Recursive.MatchRecursiveLoop, Backtrack.MatchBacktrack: run within a step budget (`fuel`), because the Rust code need not terminate on empty loops. Running out of steps is a separate outcome. Host call-stack overflow is not modelled.
- Backtrack.MatchBacktrack: the `panic!` on a full stack is the outcome `Overflow`, not a process abort.
- Ghost `pos` fields in `VM` and the backtracker's `Thread` count the chars before `offset`. They exist only in the proof and are not in the Rust structs. The `pos` field of `Lex.Lexer` is not ghost: it is the model's stand-in for the position of the `char_indices` iterator.
- The engines are module-level methods taking the `VM`, not methods of it, because a Dafny class cannot be extended from another module.
- Compile.ProgBuilder.PushRegexp: its match arms are split into one method per arm (`PushAlt` … `PushPlus`), which `PushRegexp` dispatches to. The code is the same.
- Thompson.Drain and Pike.Drain: the `for t in curr_threads.drain(..)` loops are separate methods. The `mem::swap` and `clear` of the generation lists are plain reassignments. `sub_out` is passed in and returned by value.
- Thompson.MatchThompson: proves the `#chars + 1` round bound, not linear time. No performance claim is modelled.
- Rust's `usize` is modelled as unbounded `nat`, and the `usize::MAX` of the placeholder is kept as a constant. Group ids and slot numbers are assumed small enough that `2 * n`, `2 * n + 1` and `2 * (n + 1)` (src/compile.rs:58-61) and `n + 1` (src/regexp.rs:69) fit in a `usize`. A group id of 2^63 or more, or a `Save(usize::MAX)`, overflows in Rust, while the model's `Save(2n)`, `NSub` and `SlotCount` stay exact. Instruction counts and offsets are likewise assumed to fit.
- No lemma connects the backtracking engines (Recursive.Rec, Recursive.MatchRecursive, Recursive.MatchRecursiveLoop, Backtrack.MatchBacktrack) to the automaton engines (Thompson.MatchThompson, Pike.MatchPike). Their agreement on match or no-match is not proved, not even for runs that finish within their step budget, and neither is agreement on captures. What is proved: the backtracker equals the recursive engine, and Thompson agrees with Pike on the verdict.
