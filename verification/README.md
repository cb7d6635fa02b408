# The regular expressions of regexp.h, verified

`include/regexp.h` is a whole regular-expression engine in a header.
`compile` turns pattern text into byte code in a buffer of the caller.
`advance` runs that code against a subject by recursive backtracking.
`step` searches a subject for the leftmost match.
This project models the three of them in Dafny, with the state they share, and proves what they compute.
A second, small part models the option walk of `include/xti.h`.

Check everything with `dafny verify dfyconfig.toml`.

## How the model is built

| file | what it holds |
|---|---|
| `Bytes.dfy` | bytes, bit operations, and sets of bytes as bitmaps |
| `Semantics.dfy` | what an expression means: a *path* gives every item its number of copies, and `Follow` says where a path ends and what it captures; `Search` is the backtracking search as a function |
| `SearchTheorems.dfy` | what `Search` finds, when it ends, and that captures left behind do not matter |
| `Cuts.dfy` | what a match is without following a path: the subject cut into one piece for each item |
| `Hanging.dfy` | a pattern that fails the check on starred back-references hangs on some subject |
| `Past.dfy` | back-references inside their own group make the outcome depend on earlier searches |
| `Program.dfy` | instructions, their bytes, their meaning, and in-place patching of opcodes |
| `Scanning.dfy` | the inner loops of `advance` that change no variable of the engine |
| `Syntax.dfy` | patterns as trees, the sets bracket expressions stand for, and the program of a pattern |
| `Parse.dfy` | how pattern text is read, as a function |
| `Spelling.dfy` | which texts stand for which tokens and patterns, with the characters by their numbers |
| `Intervals.dfy` | which numbers of copies an interval allows, and an open one as a star |
| `Emit.dfy`, `Buffer.dfy` | the writes of `compile`: bitmaps built cell by cell, instructions appended and patched in an array |
| `Engine.dfy` | the class `Regexp`: `compile`, `advance`, `step` and `getrnge` over the variables of the header |
| `Groups.dfy`, `Accepted.dfy`, `Print.dfy` | what holds of every pattern `compile` accepts; printing patterns and reading them back |
| `EndToEnd.dfy` | compiling a pattern and searching with the result |
| `Limits.dfy` | concrete patterns that show which premises are needed |
| `Options.dfy` | the option buffer of `include/xti.h` |

The main results, in the order in which they build on each other:

1. Whatever `locs` is, the search ends on the greatest *event*: a path that is followed without meeting `locs` and that either matches everything or runs into a scan that never ends. With `locs` outside the subject this says that the search succeeds exactly when some choice of counts matches, and that it picks the lexicographically largest choice.
2. The search does not depend on captures written by abandoned branches or by earlier searches, as long as every back-reference names a group closed before it. A back-reference inside the group it names, behind some text of that group, always makes it depend on them.
3. `advance`, as imperative code over the byte code and the capture arrays, delivers exactly that search. Every read of the subject is at or before its NUL: the subject is a sequence that ends there, and every index is proved to be inside it.
   What a match is, is also said without following anything: the text can be cut into consecutive pieces, one for each item, of the form the item asks for, and the captures are the cuts at the marks.
4. `compile`, as imperative code over a buffer, succeeds exactly when the pattern can be parsed and its code fits. The buffer then holds exactly the code of the parsed pattern, and nothing else was written. A run that fails may write one byte too many, at `endbuf` itself: `Compile` says for every pattern whether it does and which byte it is. It happens exactly when an item of two bytes, or an interval that gets as far as its second limit, starts in the last cell. No run writes anywhere else. Which texts can be parsed is said a second time from the side of the writer, with the characters by their numbers and for every delimiter, and the two agree on all texts.
5. That code means what the pattern means. Together: compiling a pattern and running `step` reports exactly the leftmost, greediest match of the pattern, and its captures, on every subject on which the search ends. Whether every search with a pattern ends is decided by a check on the pattern alone, and for every accepted pattern `advance` can run the check is exact.

Byte code is described by predicates that quantify over a value equal to the one they speak of. That is only a way to keep long encodings folded up in proofs that do not look inside them.

## Model

| member | source | states |
|---|---|---|
| `SearchTheorems.SearchFindsGreatest` | include/regexp.h:340-556 | for any `locs`: the outcome is an event of its kind, and no event beats it; if there is any event, something is found (or the search hangs on one at least as great) |
| `SearchTheorems.SearchDecides` | include/regexp.h:340-556 | with `locs` outside the subject, a search that ends succeeds if and only if some choice of repetition counts matches from there |
| `SearchTheorems.FoundIsAMatch` | include/regexp.h:340-556 | soundness for any `locs`: what is found is a match |
| `SearchTheorems.FoundIsGreediest` | include/regexp.h:408-551 | every other accepting vector of counts is lexicographically smaller than the one found |
| `SearchTheorems.HangsExactlyWhen` | include/regexp.h:492-504 | the search never ends if and only if it can run into a starred back-reference to an empty capture before any better match |
| `SearchTheorems.ProgressiveNeverHangs` | include/regexp.h:492-504 | a check on the pattern alone after which no search with it can hang, on any subject; `Hanging.ProgressiveExactlyWhen` is the converse |
| `SearchTheorems.SearchIgnoresStale` | include/regexp.h:544-551 | two sets of captures that agree on the groups passed so far give the same outcome |
| `SearchTheorems.FollowErasesStale` | include/regexp.h:398-405 | captures left behind by abandoned branches are overwritten on the successful path: position and captures at the end are the same as without them |
| `SearchTheorems.CapturesAreSpans` | include/regexp.h:398-405 | after a match, each array entry is the position at which the path passed that mark |
| `SearchTheorems.MatchesRegardless` | include/regexp.h:481-489 | whether a pattern matches does not depend on the contents of the arrays on entry |
| `SearchTheorems.LeftmostDecides` | include/regexp.h:307-338 | the scan stops at the leftmost start with a match, or nowhere if there is none |
| `SearchTheorems.LeftmostIsGreediest` | include/regexp.h:307-338 | at that start, the greediest match is chosen |
| `SearchTheorems.ProgressiveScanEnds` | include/regexp.h:307-338 | the scan ends for every pattern that passes the check of `ProgressiveNeverHangs` |
| `Cuts.FollowIsCutting` | include/regexp.h:340-556 | a path leads from one point to another if and only if the text between them can be cut into one piece for each item: so many characters of its set, nothing for a mark, nothing and the NUL behind it for `$`, so many copies of the captured text for a back-reference; the captures are the cuts at the marks and otherwise as before |
| `Cuts.MatchesExactlyWhen` | include/regexp.h:340-556 | an expression matches from a point if and only if some text from there on can be cut that way |
| `Cuts.BarredExactly` | include/regexp.h:544-551 | `locs` keeps a count from being tried if and only if the item is a repeated byte test and an allowed run of no fewer characters ends at `locs` |
| `Cuts.DollarIsEnd` | include/regexp.h:365-368 | an expression followed by `$` leads where the expression leads if that is the end of the subject, and nowhere otherwise |
| `Hanging.HangsSomewhere` | include/regexp.h:492-504 | for every pattern that fails the check, with `$` nowhere but at the end, there is a subject on which every search with it hangs |
| `Hanging.ProgressiveExactlyWhen` | include/regexp.h:492-504 | the check accepts a pattern, with `$` nowhere but at the end, if and only if no search with it can hang |
| `Past.DependsOnThePast` | include/regexp.h:481-504 | for every expression whose first back-reference inside its own group comes behind some text of that group: a subject and two sets of captures, all of them positions in it, with which the searches have different outcomes; the check passes up to there, and every byte test that must match accepts some byte |
| `Bytes.PlaceAdds` | include/regexp.h:56 | PLACE turns the cell of a set into the cell of the set with the character added |
| `Bytes.IsThereTests` | include/regexp.h:57 | ISTHERE is true exactly of the members of the set |
| `Bytes.XorComplements` | include/regexp.h:205-210 | flipping a cell, and clearing the lowest bit of cell 0, gives the cell of the complement without NUL |
| `Bytes.OrOneAddsNul` | include/regexp.h:211-215 | setting the lowest bit of cell 0 adds NUL |
| `Program.PatchedOpcode` | include/regexp.h:138-143 | setting STAR or RNGE in an opcode in place gives the opcode of the repeated item, also when it was flagged before |
| `Program.OpcodeNumbers` | include/regexp.h:40-52 | the numbers of the opcodes, of the two flags and of the end mark |
| `Program.DecodeUnique` | include/regexp.h:40-52 | no buffer can be read as two different runnable programs, whatever follows the end mark |
| `Program.OperandsFollow` | include/regexp.h:351-541 | the operands of an instruction stand where `advance` looks for them |
| `Program.CodeHasCode` | include/regexp.h:349-373 | a buffer that holds the bytes of a program can be read instruction by instruction up to its end mark |
| `Scanning.TestWide` | include/regexp.h:376-383 | the test of a 32-byte class accepts exactly its set |
| `Scanning.TestNarrow` | include/regexp.h:385-395 | the test of a 16-byte class accepts exactly its set, or, negated, everything else including all eight-bit characters |
| `Scanning.RefuseNarrow` | include/regexp.h:458-474 | the inverted test used in intervals refuses exactly what the other one does not accept |
| `Scanning.StarChr` | include/regexp.h:514-519 | stops one past the end of the longest run of the character |
| `Scanning.StarDot` | include/regexp.h:507-511 | stops one past the terminating NUL, the end of the longest run |
| `Scanning.StarWide` | include/regexp.h:522-528 | stops one past the end of the longest run of the set |
| `Scanning.StarNarrow` | include/regexp.h:531-541 | the same for both kinds of 16-byte class |
| `Scanning.SameText` | include/regexp.h:58 | true exactly when the text at the second place, within the subject, is the text at the first |
| `Scanning.StarBack` | include/regexp.h:492-497 | runs over the greatest number of copies of a nonempty capture: no further copy follows |
| `Engine.Regexp.GetRange` | include/regexp.h:558-563 | `low` copies are required and `low + size` allowed; `size` is 20000 if the second byte is 255 and otherwise the difference; it is not negative on every compiled pair |
| `Engine.Regexp.RangeChr` | include/regexp.h:408-419 | fails exactly when fewer than `low` copies are there; otherwise `curlp` and `lp` are where the shared exit expects them, on both exits of the second loop |
| `Engine.Regexp.RangeDot` | include/regexp.h:424-434 | the same for any character |
| `Engine.Regexp.RangeWide` | include/regexp.h:439-453 | the same for a 32-byte class |
| `Engine.Regexp.RangeNarrow` | include/regexp.h:458-476 | the same for both kinds of 16-byte class |
| `Engine.Regexp.ScanRange` | include/regexp.h:408-478 | for every interval instruction: fails exactly when the minimum cannot be met, else stops one past the greatest allowed run; `ep` is past the operands |
| `Engine.Regexp.ScanStar` | include/regexp.h:507-541 | for every starred byte test: stops one past the longest run; `ep` is past the operands |
| `Engine.Regexp.AdvanceByte` | include/regexp.h:353-395 | each of the five byte tests accepts exactly the bytes of its set, and moves `lp` and `ep` past one byte and its operands |
| `Engine.Regexp.AdvanceOnce` | include/regexp.h:353-405 | an unrepeated instruction succeeds exactly when one copy of its meaning is there, moves `lp` and `ep` past it and records group marks |
| `Engine.Regexp.Retry` | include/regexp.h:544-551 | trying the rest of the program with captures left behind by failed attempts gives the outcome, the end and the captures of a clean attempt |
| `Engine.Regexp.Star` | include/regexp.h:544-551 | giving back one byte at a time, and stopping at `locs`, delivers the search through all counts from the longest run down |
| `Engine.Regexp.AdvanceBackStar` | include/regexp.h:492-504 | the same for a starred back-reference, one copy at a time; `locs` plays no part |
| `Engine.Regexp.AdvanceRepeated` | include/regexp.h:408-551 | a repeated byte test followed by the rest of the program delivers the search |
| `Engine.Regexp.Advance` | include/regexp.h:340-556 | for every sound program, subject and start: returns whether the search succeeds; then `loc2` and the capture arrays are the end and the captures of the path found; on failure `loc2` is unchanged and only entries of the program's own groups may have changed; terminates |
| `Engine.Regexp.StepRegular` | include/regexp.h:331-337 | delivers the leftmost hit: `loc1`, `loc2` and captures; on failure `loc1` and `loc2` are unchanged |
| `Engine.Regexp.StepFast` | include/regexp.h:317-329 | the first-character path delivers the very same hit |
| `Engine.Regexp.Step` | include/regexp.h:307-338 | anchored: the search at the start of the subject, with `loc1` there; otherwise the leftmost hit; on failure `loc2` is unchanged |
| `Syntax.MembersAreListed` | include/regexp.h:166-198 | a character is in the set of a bracket expression exactly when it is written there or lies in one of its (possibly chained) ranges |
| `Syntax.DenotesExactly` | include/regexp.h:151-220 | a byte is in the set of a bracket expression if and only if it is written there, lies between a character written in front of a dash and the one behind it, or is a dash at the end; negated, if it is none of these and not NUL |
| `Syntax.AcceptsExactly` | include/regexp.h:353-395 | the bytes a term tests for: its character, any but NUL for a dot, or those of its bracket expression |
| `Syntax.ClassMeaning` | include/regexp.h:151-220 | all three encodings of a bracket expression accept exactly the bytes it stands for, and never NUL |
| `Syntax.LoweringPreservesMeaning` | include/regexp.h:111-303 | the program of a supported pattern is one `advance` can run and means what the pattern means |
| `Parse.LexInterval` | include/regexp.h:241-275 | an interval that is accepted has a lower limit of at most 254 and an upper limit not below it |
| `Spelling.TokenExactlyWhen` | include/regexp.h:111-303 | a text is read as a token of so many bytes if and only if these are a spelling of it: every character, escape, bracket expression and interval, for every delimiter and whatever follows |
| `Spelling.AcceptedExactlyWhen` | include/regexp.h:75-305 | a text is parsed to a result if and only if, after an optional `^`, it consists of spellings of tokens that lead to it, and then the delimiter, or a newline unless `sed` is set |
| `Spelling.AppliesExactlyWhen` | include/regexp.h:225-291 | tokens can be applied one after the other if and only if there is no tenth opening, no closing without an opening, no `\d` in front of the d-th closing and no interval at the start; the counters count openings and closings |
| `Spelling.AcceptedTexts` | include/regexp.h:75-305 | so a text is accepted if and only if it is spelled by such tokens with as many openings as closings |
| `Spelling.RangeClass` | include/regexp.h:151-220 | `[a-b]` is read as a class that stands for exactly the bytes from a to b |
| `Spelling.LiteralBrace` | include/regexp.h:241-243 | `\{` at the start, or after `^`, is the character itself, for every delimiter and whatever follows |
| `Spelling.LiteralStar` | include/regexp.h:138-143 | `*` at the start or after a mark is the character itself |
| `Intervals.WrittenLimits` | include/regexp.h:241-275 | `\{m\}`, `\{m,n\}` and `\{m,\}` allow exactly m, from m to n, and from m to m + 20000 copies |
| `Intervals.OpenTakes` | include/regexp.h:408-478 | on a run of n bytes an open interval can take exactly the counts from m to the smaller of n and m + 20000 |
| `Intervals.OpenIsStar` | include/regexp.h:558-563 | on every subject of at most 20000 characters `x\{m,\}`, whatever follows it, leads exactly where m times x, `x*` and the same rest lead, with the same captures |
| `Emit.Place` | include/regexp.h:56 | the bitmap in the buffer gains one member, the rest of the buffer is unchanged |
| `Emit.PlaceRange` | include/regexp.h:191-194 | the bitmap gains the characters from the one before the dash up to the end of the range |
| `Emit.Widen` | include/regexp.h:170-177 | the switch to 32 bytes keeps the set |
| `Emit.NegateWide` | include/regexp.h:205-210 | the bitmap becomes that of the complement without NUL |
| `Emit.NegateNarrow` | include/regexp.h:211-215 | the bitmap gains NUL, so that the negated test refuses it |
| `Emit.AddElem` | include/regexp.h:170-197 | one character or range: the bitmap is that of the elements read so far, widened when the first eight-bit character comes; refused only if it then does not fit |
| `Emit.CompileBody` | include/regexp.h:160-198 | reads exactly the elements up to the closing bracket and leaves their bitmap |
| `Emit.CompileClass` | include/regexp.h:151-220 | leaves exactly the opcode and the bitmap of the bracket expression; fails only if there is none or it does not fit |
| `Emit.ReadNumber` | include/regexp.h:246-254 | reads a number up to the character after it, or fails exactly when there is none |
| `Emit.CompileUpper` | include/regexp.h:258-270 | writes the upper limit, or fails exactly when it is not well-formed; and what it has written in that case |
| `Emit.CompileInterval` | include/regexp.h:241-275 | writes exactly the pair of limits, or fails exactly when the interval is not well-formed; and what the second cell holds in that case |
| `Buffer.CodeSizeIs` | include/regexp.h:111-303 | the number of bytes a pattern takes, counted without encoding it |
| `Buffer.WrittenStar` | include/regexp.h:138-143 | after the flag is set the buffer is the code of the pattern whose last term is starred, and `lastep` is still at its opcode |
| `Buffer.WrittenInterval` | include/regexp.h:241-275 | the same for an interval and its two bytes, also after other repetitions |
| `Buffer.PutStar` | include/regexp.h:138-143 | `*` stands for itself at the start and after a mark and otherwise patches the last opcode; the buffer is the code of the new list of terms |
| `Buffer.PutInterval` | include/regexp.h:241-275 | an interval patches the last opcode and appends its limits; the buffer is the code of the new list of terms |
| `Buffer.PutClass` | include/regexp.h:151-220 | a bracket expression is appended; refused only if it is none or its code does not fit |
| `Buffer.ParseGrows` | include/regexp.h:112-113 | reading on never shortens the code, so that giving up when the buffer is full loses nothing |
| `Buffer.SpilledIsRefused` | include/regexp.h:112-113 | a byte is written at `endbuf` only if the pattern is refused |
| `Engine.Regexp.PutOpen` | include/regexp.h:225-231 | the mark carries the next group number, which goes on the stack; refused exactly at the tenth group; `bracketp` stays inside its array |
| `Engine.Regexp.PutClose` | include/regexp.h:233-239 | the mark carries the number of the innermost open group; refused exactly when none is open |
| `Engine.Regexp.PutBack` | include/regexp.h:284-291 | refused exactly when fewer groups are closed than its number asks for |
| `Engine.Regexp.CompileEscape` | include/regexp.h:222-293 | one escape: the buffer is the code of the terms after it and `lastep`, the stack and the counters agree with them, and the rest of the pattern is what is left to parse; fails only if the pattern cannot be parsed; the cell at `endbuf` holds what is promised |
| `Engine.Regexp.CompileCharacter` | include/regexp.h:123-149 | the same for `.`, `*`, `$` and every character that stands for itself |
| `Engine.Regexp.CompileBracket` | include/regexp.h:151-220 | the same for a bracket expression |
| `Engine.Regexp.CompileEnd` | include/regexp.h:117-137 | the end mark completes the code; the delimiter is read and leaves `nodelim` as it was; a newline is left unread and sets `nodelim`, unless `sed` is set, when it is refused; an open group is refused |
| `Engine.Regexp.CompileItems` | include/regexp.h:111-303 | succeeds exactly when the pattern can be parsed and its code fits; the buffer then is its code with one end mark, and nothing else was written; `nodelim` tells whether the delimiter or a newline ended the pattern; the array may end at `endbuf` whenever nothing is written there |
| `Engine.Regexp.Compile` | include/regexp.h:75-305 | the same for a whole pattern, with `circf` and `nbra`; `nodelim` is set if the pattern ends at a newline and kept if it ends at its delimiter, whatever follows; a successful run writes only in front of `endbuf`; on every run no cell before `ep` or beyond `endbuf` changes, and the cell at `endbuf` holds exactly what `Buffer.Spilled` says; an empty pattern leaves the program as it was and is refused exactly when there is none |
| `Groups.ParseNests` | include/regexp.h:225-239 | in every accepted pattern openings are numbered in order, closings match the innermost opening, and no group is left open |
| `Groups.MarksAreBalanced` | include/regexp.h:225-239 | the group marks of every accepted pattern form a balanced word: they are the marks of some forest numbered in preorder, of at most nine trees in all |
| `Groups.BalancedIsForest` | include/regexp.h:225-239 | what a stack can read to the end is the word of a forest |
| `Groups.ForestIsBalanced` | include/regexp.h:225-239 | and the word of every forest can be read that way |
| `Groups.BackrefsNameOpenedGroups` | include/regexp.h:284-291 | every accepted back-reference names a group opened before it |
| `Groups.ScopedExactlyWhen` | include/regexp.h:284-291 | the groups named are all closed already if and only if no back-reference stands inside the group it names |
| `Groups.FlatGroupsScoped` | include/regexp.h:284-291 | which is so whenever no group is inside another |
| `Accepted.AcceptedTerms` | include/regexp.h:111-303 | every accepted pattern has `$` as an anchor only at its end, and consists of terms `advance` can run if and only if no interval follows a mark, a back-reference or another interval and no character is NUL |
| `Accepted.NulFreeExactlyWhen` | include/regexp.h:111-303 | no character of an accepted pattern is NUL if and only if no byte of its text in front of the delimiter is; the delimiter, and what follows it, may be NUL |
| `Accepted.CodeLength` | include/regexp.h:111-303 | the code has at most 11 bytes for each byte of the pattern between `^` and the delimiter, plus one; and which of delimiter and newline ended it |
| `Print.IntervalLexed` | include/regexp.h:241-275 | reading a printed interval gives back its limits |
| `Print.ClassLexed` | include/regexp.h:151-220 | reading a printed bracket expression gives back the expression |
| `Print.ParseUndoesPrint` | include/regexp.h:111-303 | for every printable pattern, whatever follows the delimiter, reading its printed and escaped text stops right after the delimiter with exactly that pattern |
| `Print.AcceptedIsPrintable` | include/regexp.h:111-303 | every text that is accepted as a supported pattern, whatever its delimiter, is accepted as a printable one |
| `Print.PrintableExactlyWhen` | include/regexp.h:111-303 | the printable patterns are exactly the supported patterns that `compile` accepts, also with NUL as the delimiter |
| `Print.LongestCode` | include/regexp.h:151-190 | for every k, a pattern of k classes of one eight-bit character, 3 * k bytes long, meets the bound of `CodeLength` |
| `EndToEnd.CompiledDecodesUniquely` | include/regexp.h:111-303 | the code of a supported pattern can be read as no other runnable program |
| `EndToEnd.ReportedIsCut` | include/regexp.h:307-338 | what is reported is a cutting of the text between `loc1` and `loc2`, with the captures at its cuts; a pattern that ends in `$` is found only up to the NUL |
| `EndToEnd.StepCompiled` | include/regexp.h:307-338 | `step` on the code of a pattern, on a subject on which the search ends, succeeds exactly when the pattern matches somewhere (at the start if anchored); `loc1` is the leftmost start, `loc2` and the arrays are those of the greediest match there; if the pattern ends in `$`, `loc2` is the end of the subject |
| `EndToEnd.CompileAndStep` | include/regexp.h:75-338 | any pattern text is accepted exactly when it can be parsed and fits; a search with it reports what it means, provided the pattern can be run and the search ends |
| `EndToEnd.PrintCompileAndStep` | include/regexp.h:75-338 | for every printable pattern tree whose back-references name closed groups: its text is accepted whenever its code fits, and a search that ends reports what the tree means |
| `EndToEnd.ProgressiveSearchEnds` | include/regexp.h:307-338 | the search ends on every subject if the pattern passes the check on starred back-references |
| `EndToEnd.AlwaysEndsExactlyWhen` | include/regexp.h:307-338 | for every accepted pattern that can be run: it passes the check if and only if the search ends on every subject |
| `EndToEnd.EndsRegardless` | include/regexp.h:307-338 | whether a search ends does not depend on the captures left by earlier ones |
| `EndToEnd.SelfReferenceDependsOnThePast` | include/regexp.h:284-291 | the result of `Past.DependsOnThePast` for every accepted pattern of supported terms |
| `Limits.SelfAccepted` | include/regexp.h:284-291 | `compile` accepts a back-reference inside the group it names |
| `Limits.SelfDependsOnThePast` | include/regexp.h:481-489 | on "aa" that pattern is found after a search for `\(a\)` and not found after a search for `\(aa\)`, whatever the arrays held before |
| `Limits.EmptyStarNeverEnds` | include/regexp.h:492-504 | `compile` accepts a starred back-reference to an empty group, and every search with it hangs |
| `Limits.BarrierHidesMatch` | include/regexp.h:544-551 | with `locs` inside the subject the search can fail although there is a match |
| `Limits.TwoIntervalsAccepted` | include/regexp.h:241-275 | `compile` accepts an interval right after an interval, for which `advance` has no case, whatever the character and the limits are |
| `Limits.OneByteTooMany` | include/regexp.h:297-301 | with room for one byte, any ordinary character at the start of a pattern has its second byte written at `endbuf` |
| `Options.MaskRoundsDown` | include/xti.h:423-424 | in any width, masking with ~3 rounds down to a multiple of four |
| `Options.AlignUpWraps` | include/xti.h:423-424 | the macro gives the least aligned address not below its operand, less the size of the address space if that lies beyond its end |
| `Options.StepsInsideExactlyWhen` | include/xti.h:451-456 | for every header in an aligned buffer, whatever its length: NEXTHDR ends the walk, or goes on inside the buffer and behind the option, if and only if no sum of the macro wraps around or the next header would start exactly at the end of the address space, which is NULL |
| `Options.NextMovesOn` | include/xti.h:451-456 | a step that does not stray in that way goes forward exactly when the option has a length |
| `Options.VisitsStayInside` | include/xti.h:444-458 | as long as no step before it strays, a header visited is aligned and wholly inside |
| `Options.StaysInsideExactlyWhen` | include/xti.h:444-458 | on every aligned buffer, whatever it holds, the whole walk goes forward inside the buffer if and only if none of its steps strays |
| `Options.EndsExactlyWhen` | include/xti.h:444-458 | on every aligned buffer, whatever it holds, a walk of which no step strays ends if and only if it meets no header of length zero |
| `Options.FarFromTheEnd` | include/xti.h:444-458 | no step strays if the buffer lies further from the end of the address space than the longest option is long |
| `Options.WalkUndoesLayout` | include/xti.h:444-458 | for every list of options written one after the other, FIRSTHDR and NEXTHDR visit exactly their headers, in order, and then end, if and only if there is no room for another header and one would not lie beyond the end of the address space, or would start exactly there; a buffer at NULL has no headers |
| `Options.FullBufferIsReadBack` | include/xti.h:444-458 | so a buffer that ends with its last option is read back, unless it lies at the very end of the address space |
| `Options.DataFollowsHeader` | include/xti.h:448-449 | the data of an option start 16 bytes behind its header, inside the buffer |
| `Options.FieldsAreInside` | include/xti.h:293-299 | length, level, name and status of every header visited before the walk strays are aligned and inside the buffer, and the data start right behind the status |
| `Options.FirstIsWhole` | include/xti.h:444-446 | FIRSTHDR gives the start of a buffer that is not NULL exactly when all fields of a header there lie inside it |
| `Options.LeavesTheBuffer` | include/xti.h:451-456 | in 64 bits, a buffer near the end of the address space and a length with which NEXTHDR leads out of it |
| `Options.CirclesForever` | include/xti.h:451-456 | in any width, a family of buffers, none of them at NULL, on which the walk never ends although no header has length zero |
| `Options.NeverEndsIn32Bits` | include/xti.h:451-456 | in 32 bits, an ordinary buffer of that family |

## How the source is read

- Addresses are indices, and -1 stands for a null `lastep`. Characters are the numbers 0 to 255; where the C code compares two `char` values, both have the same sign extension, and where it masks with 0200 or 0377 the model does the same on numbers.
- The subject is a sequence that ends in its only NUL.
- GETC, PEEKC and UNGETC are a cursor into a sequence of bytes. Running out of input is a failure; ERROR never returns; both are the one result `Error`. PEEKC at the end of the input gives nothing.
- The manual page `share/man/man5/regexp.5` calls `endbuf` one more than the highest address where the code may be placed. The test at the head of the loop of `compile` is made once for each item, so the code can write at `endbuf`. The model follows the code: the array must reach beyond `endbuf` if, and only if, that is going to happen.
- The switches of `compile` and `advance` are split into one method for each group of cases, called from the loop. The shared exit at the label `star` is the method `Star`.
- `advance` and `step` read the code from a sequence, because they never write it.
- In `include/xti.h`, addresses have any number of bits not less than the lengths have, so that 32 and 64 are included. A header has four fields of four bytes, and `t_scalar_t` and `int32_t` have four. Every sum of the macros wraps around at the end of the address space, the one with the size of the header too, and address 0 is NULL. A buffer ends in front of the end of the address space, as in C, where the address behind an object compares greater than those inside it.

## Left out

- Advance: a program must be sound, that is, made of instructions `advance` has a case for; on other opcodes the source goes on reading the next byte as an opcode, which is not modelled. `Accepted.AcceptedTerms` says exactly which accepted patterns are concerned.
- Advance: back-references must name groups closed before them; otherwise the length of the text to be compared comes from an end and a start that belong to different searches, and can be negative. `Groups.ScopedExactlyWhen` says exactly when this holds of an accepted pattern.
- DependsOnThePast: does not speak of patterns in which nothing need lie between the opening of the group and the back-reference, which then can be compared with itself and match whatever the old end is; nor of those in which a starred back-reference to a group that can be empty comes first, because a search with them can hang before the captures matter. The searches compared start at the beginning of the subject, and where an old end lies in front of the new start they count this as no match.
- Advance: searches that never end are excluded by a precondition. `SearchTheorems.HangsExactlyWhen` says exactly which they are.
- Compile: the numbers of the errors are not modelled, only success and failure; of a failed call it is stated what it wrote at `endbuf` and that it wrote nothing outside the buffer otherwise, not what it left inside.
- ReadNumber: the accumulated number is unbounded; the overflow of the C `int` on very long digit strings is not modelled.
- PrintCompileAndStep: printing covers supported patterns and delimiters that are no metacharacters, no digits from 1 to 9, no brackets of groups or intervals, not `n` and not a newline; other delimiters can be given to `CompileAndStep`.
- The bodies of INIT, RETURN and the other macros supplied by the including program.
- Everything else in `include/xti.h`: structures, states, names and prototypes, which have no behaviour.
- The rest of the repository: the other headers declare libraries that are not part of it, `bin/beadm/beadm.c` parses options and calls such libraries, and `bin/banner/banner.c` prints fixed glyphs; they would only add easy members.
