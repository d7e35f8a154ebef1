# A Dafny model of boreal

boreal compiles YARA rules into conditions and byte matchers, and evaluates them on bytes. This project models four
parts of it, and proves what they promise.

**The regex pipeline.** A regex is a tree (`Hir`). Its meaning is a relation between a tree and two positions of a
memory: `Hir.Matches(h, dotAll, mem, i, j)`. A loop over an explicit stack walks the tree and drives four visitors.
`Visitor` proves that the loop produces the events of a structural recursion (`Walk`), for any visitor. Then `Analysis`
counts the words of the tree, `OnlyLiterals` lists them, `Widener` rewrites the tree for two-byte text, and `Atoms`,
`Literals`, `PrePost` and `Split` pick literals to look for and the two regexes that validate what surrounds them.
`Branches` says when this validation is exact, and `WideSplit` that it carries over to two-byte text. `Choice` says which
literals are picked: the best candidate of all that the tree offers. `Preference` orders the matches at a position as
greedy and lazy repetitions prefer them, and shows that widening keeps this order. `Matching` covers plain strings and
their modifiers, `Base64` the encoding of a string at an offset, `Bitmaps` the sets of bytes, `Bits` integers bit by bit.

**Conditions.** `Sources` holds parsed conditions and gives them a meaning with an environment of names (`Meaning`).
`Compiling` is the compiler as a function, from typed sources to expressions that address loop variables by their index
on a stack; `RuleCompiler` is the compiler as the object it is, proved against that function. `Expressions` evaluates
(`Eval`) in a logic with two poisons: *undefined*, and *a match is needed*. `Evaluator` is the evaluator as the object it
is. `Soundness` proves types sound, `Scoping` proves that names resolve to the values they stand for, `Agreement` that a
verdict reached before any string is looked for is the verdict reached afterwards, under two conditions given below,
`Selection` that a loop that stops
early answers what it had to. `RuleCompiling` bounds the depth of conditions. `References` says which rules a compiled
condition refers to. `Namespaces` is the compiler of whole sets of rules, and `Scanning` the two passes of a scan over
them.

Some modules state what these functions compute a second time, without them. `Typing` is a declarative type system, in
which an operator fits its operands when no values of their types make it stuck, and shows that the compiler accepts
exactly what has a type. `Shapes` relates a source to its compiled form constructor by constructor. `Patterns` says what
sets of variables and rules stand for, and `Acceptance` which rules are added and what they then mean. `Laws` and
`LoopLaws` say what conditions answer: comparisons, machine integers, strings, variables, loops and module paths.

**Memory.** `Memories` (Memory.dfy) reads a range out of regions that may leave holes. `Digests` computes over such a
range piece by piece, and says for which digests the cut does not matter.

**Kernels.** `ToInt` parses numbers, `VarMatches` searches sorted lists of matches.

A visitor, the evaluator, the rule compiler, the compiler of rule sets, the digests and the regions of a memory are
classes whose methods update their fields. Each method is proved equal to a step of a specification function, and the
lemmas speak about these functions. `Driving` walks a tree with a visitor object and reads it at the end.

A *well-formed* tree (`Hir.WellFormed`) is one that the regex parser can produce: no alternation is empty or stands
directly in a concatenation, and masks cover one half of a byte, with a value inside that half. Classes may be empty.
The condition on alternations is needed: after a dot, one that stands directly in a concatenation would make
`hir_to_only_literals` pop an empty stack (`AlternationInConcatPanics`); the parser puts it under a group. Three more
conditions, which can be read off the tree, are `Has(h, NotLiteral)` (a dot, an assertion, a repetition or a negated mask
somewhere), `Has(h, EmptyClass)` and `Has(h, BoundaryAssertion)`.

## What the code does not promise

Some promises hold of the code only under a condition. Each is given with an input that fails, and with a condition under
which it holds, which is proved to be exact unless the entry says what is proved instead.

- *Listing a language.* A class can be empty: `[^\x00-\xff]`. `hir_to_only_literals` returns the list of words exactly
  when no class is empty (`ResultIsWordsIff`, `EmptyClassWitness`). As a set the list never misses a word. Without an
  alternation it is the language exactly when no class is empty (`ResultIsLanguage`); with one, an empty class may be
  harmless (`HarmlessClass`), and that no class is empty is only sufficient.
- *Ranking atoms.* A part of a run makes the rank of some window go below zero, next to parts that are not empty, exactly
  when it is an empty class (`UnderflowIff`); `UnderflowTree` is such a regex.
- *Splitting around an alternation.* When atoms come from an alternation whose branches have several lengths, both halves
  may be validated where the regex does not match. The exact condition on the branches is `Mergeable`
  (`BranchSplitExactIff`, `NotSoundWitness`).
- *Widening.* A widened regex matches wide text where the regex without its word boundaries matches the text
  (`WidenedMatchesErased`). Widening is exact exactly for the regexes whose boundaries rule out no match
  (`WidensExactlyIff`, `BoundaryWitness`).
- *Deciding without matches.* A loop over a list that holds an undefined element may be decided otherwise by the full pass
  (`UndefinedItemWitness`, `ListAgreesIff`). The comment at `boreal/src/evaluator/mod.rs:155-156` lets a needed match be
  dropped only where no match could change the result.
- *The entry point.* In fragmented memory the entry point is found between the two passes
  (`boreal/src/scanner/mod.rs:569-582`), so that `not defined entrypoint` is decided true, and false later
  (`EntrypointWitness`). All conditions whose lists are defined are decided alike exactly when both passes see the same
  entry point (`EntrypointAgreesIff`); one that does not evaluate it is, in any case (`FirstPassIsFinal`).
- *Reporting without matches.* When a global rule is false, the full pass reports nothing. The pass without matches reports
  the public global rules that came before it. Both report the same exactly when there are none (`ReportsAgreeIff`,
  `KeptGlobalWitness`).
- *Reading a range.* `on_range` is documented to fail only when the range has a hole. A region that starts after the end of
  the range makes it fail too, when the range is not covered (`FarRegionFails`, `FarRegionWitness`). `OnRangeMeans` says
  exactly when it succeeds.
- *Cutting digests.* The digest of `monte_carlo_pi` depends on the cut, unless the first piece is a multiple of six bytes,
  or both pieces together do not complete the block that the first one left open (`MonteOfChunksIff`).
- *Writing numbers.* `to_string` in octal and hexadecimal writes negative numbers in two's complement, which `to_int` does
  not read back (`RoundTripIff`).
- *Lining up variables.* The compiler lists variables in the order of the rules. The scanner hands them out to global rules
  first. They line up exactly when no global rule with variables was added after a rule with variables that is not global
  (`VariablesLineUpIff`, `OutOfOrderWitness`).
- *Global rules.* They are evaluated before any other rule has a result, and yet one can refer to such a result
  (`GlobalRefersForward`). None does exactly when no name and no set of rules in their conditions stands for a rule with
  an index (`GlobalRefersIff`, and `GlobalsSafeIff` for whole runs).

## Model

| member | source | states |
|---|---|---|
| Visitor.Visit | boreal/src/regex/visitor.rs:47-97 | for any visitor, the heap-stack loop ends in the state that the structural recursion (pre, children with alternation-in between branches, post) leaves, Skip and childless compounds included; it terminates by the nodes not visited |
| Visitor.BuildStackFrame | boreal/src/regex/visitor.rs:127-147 | a frame holds the first child and the others in order, and exists iff there are children |
| Visitor.Next | boreal/src/regex/visitor.rs:113-123 | the next frame loses no sibling, and exists iff one is left |
| Bitmaps.MembersSpec | boreal/src/bitmaps.rs:63-66 | the listing of a set is strictly increasing, has exactly its members, and is as long as the set |
| Bitmaps.Bitmap.constructor | boreal/src/bitmaps.rs:13-15 | a new bitmap is empty |
| Bitmaps.Bitmap.Get | boreal/src/bitmaps.rs:39-43 | the two halves answer membership in the set that the bitmap stands for |
| Bitmaps.Bitmap.Set | boreal/src/bitmaps.rs:46-50 | adds that byte to the set and no other |
| Bitmaps.Bitmap.Invert | boreal/src/bitmaps.rs:53-56 | the new set is the complement in the 256 bytes |
| Bitmaps.Bitmap.OrAssign | boreal/src/bitmaps.rs:70-73 | the new set is the union |
| Bitmaps.Bitmap.CountOnes | boreal/src/bitmaps.rs:59-61 | the count of bits is the cardinality of the set |
| Bitmaps.Bitmap.Next | boreal/src/bitmaps.rs:81-96 | takes out the least member, or says that the set is empty |
| Bitmaps.Bitmap.Iterate | boreal/src/bitmaps.rs:63-96 | iteration lists the members in increasing order |
| Hir.MatchesLeaves | boreal/src/regex/hir.rs:14-70 | a tree matches exactly where the sequence of its leaves does |
| Hir.MatchesLocal | boreal/src/regex/hir.rs:14-70 | without assertions a match depends only on the bytes matched, in any memory |
| Hir.LeavesAreLeaves | boreal/src/regex/hir.rs:14-70 | leaves are neither groups nor concatenations, and are well formed when the tree is |
| Analysis.HirAnalyser.VisitPre | boreal/src/matcher/analysis.rs:83-139 | the update of the flags, the count and the alternation stack on entering a node is the step of the specification |
| Analysis.HirAnalyser.VisitAlternationIn | boreal/src/matcher/analysis.rs:141-151 | the count of a branch goes to the innermost alternation |
| Analysis.HirAnalyser.VisitPost | boreal/src/matcher/analysis.rs:153-166 | leaving an alternation multiplies what was before it by the sum of its branches |
| Analysis.WalkIsAfter | boreal/src/matcher/analysis.rs:83-166 | on a well-formed tree the visitor with its stack is a recursion over the tree, the stack is given back as it was, and no pop fails |
| Analysis.FlagAfter | boreal/src/matcher/analysis.rs:83-136 | a flag is set after a tree iff it was before or such a node is anywhere in the tree |
| Analysis.CountAfter | boreal/src/matcher/analysis.rs:83-166 | the count is multiplied by the number of words of the tree, and is unset iff the tree is not countable or a checked step overflows |
| Words.MatchesIsWord | boreal/src/matcher/only_literals.rs:5-8 | the list of words, defined by products and unions, is exactly the language of the match relation |
| Words.WordsCounted | boreal/src/matcher/analysis.rs:49-69 | there are as many words as the analysis counts |
| Words.MaskBytesSpec | boreal/src/matcher/only_literals.rs:38-48 | the loop bounds and the step of a mask produce the bytes that agree with it, and no other |
| Words.ProductAssociative | boreal/src/matcher/only_literals.rs:69-84 | cartesian products of words may be regrouped, with the order of the words kept |
| OnlyLiterals.FlatMap | boreal/src/matcher/only_literals.rs:75-83 | the nested loops compute the cartesian product in its order |
| OnlyLiterals.Extractor.AddMaskedByte | boreal/src/matcher/only_literals.rs:38-48 | all words so far are extended by every byte of the mask |
| OnlyLiterals.Extractor.AddClass | boreal/src/matcher/only_literals.rs:50-67 | all words so far are extended by every byte of the class, in increasing order |
| OnlyLiterals.Extractor.ProductInPlace | boreal/src/matcher/only_literals.rs:69-84 | the list becomes its product with the suffixes, unless the extraction has failed |
| OnlyLiterals.Extractor.CommitInPlace | boreal/src/matcher/only_literals.rs:86-97 | the buffer is appended to every word, or becomes the only word of an empty list, and is emptied |
| OnlyLiterals.Extractor.VisitPre | boreal/src/matcher/only_literals.rs:103-156 | entering a node is the step of the specification |
| OnlyLiterals.Extractor.VisitAlternationIn | boreal/src/matcher/only_literals.rs:158-171 | the words of a branch join those of the alternation, and the next branch starts afresh |
| OnlyLiterals.Extractor.VisitPost | boreal/src/matcher/only_literals.rs:173-182 | leaving an alternation multiplies what was before by its branches, and pops the stack even when the walk was skipped |
| OnlyLiterals.Extractor.Finish | boreal/src/matcher/only_literals.rs:184-187 | the buffer is committed to the result |
| OnlyLiterals.WalkIsAfter | boreal/src/matcher/only_literals.rs:103-182 | on a well-formed tree the visitor is a recursion over the tree, its stack is given back as it was, and no pop fails |
| OnlyLiterals.AfterMeans | boreal/src/matcher/only_literals.rs:103-182 | the extraction fails iff a node is not literal, and otherwise multiplies the current words by those of the tree |
| OnlyLiterals.AlternationInConcatPanics | boreal/src/matcher/only_literals.rs:173-182 | why trees are well formed: an alternation directly in a concatenation, after a dot, pops an empty stack |
| OnlyLiterals.ResultIsWordsIff | boreal/src/matcher/only_literals.rs:5-8 | the list is the words of the tree iff no class is empty, and is never shorter |
| OnlyLiterals.ResultIsLanguage | boreal/src/matcher/only_literals.rs:5-8 | no word is ever missed; without an alternation the list is the language, as a set, iff no class is empty |
| OnlyLiterals.EmptyClassWitness | boreal/src/matcher/only_literals.rs:50-84 | an empty class before a byte gives that byte as a literal, though nothing matches |
| OnlyLiterals.HarmlessClass | boreal/src/matcher/only_literals.rs:158-182 | with an alternation an empty class may leave the language right |
| Widener.HirWidener.constructor | boreal/src/matcher/widener.rs:52-57 | the stack starts empty and nothing is built |
| Widener.HirWidener.AddNode | boreal/src/matcher/widener.rs:59-68 | a node joins the innermost level, or becomes the result |
| Widener.HirWidener.AddWideNode | boreal/src/matcher/widener.rs:70-88 | a byte and its NUL join a concatenation flat, and are grouped elsewhere |
| Widener.HirWidener.VisitPre | boreal/src/matcher/widener.rs:99-116 | entering a node is the step of the specification |
| Widener.HirWidener.VisitPost | boreal/src/matcher/widener.rs:118-196 | leaving a node rebuilds it from its level, under the state in which no expectation of the code fails; that a repetition stays greedy or lazy is what `Preference.WidenedEnds` needs |
| Widener.HirWidener.PopLevel | boreal/src/matcher/widener.rs:155-194 | exactly the innermost level is popped |
| Widener.WalkAdds | boreal/src/matcher/widener.rs:51-197 | for every tree the stack machine ends with the widened tree added to the level it started at, and no expectation of the code fails |
| Widener.EvenLength | boreal/src/matcher/widener.rs:59-197 | every match of a widened tree, in any memory, has an even length |
| Widener.TextToWide | boreal/src/matcher/widener.rs:59-197 | a match in a text is a match of the widened tree in the wide text, word boundaries included |
| Widener.WideToText | boreal/src/matcher/widener.rs:59-197 | the converse, without word boundaries |
| Widener.WidenedLanguage | boreal/src/matcher/widener.rs:59-197 | without assertions the widened tree matches in any memory exactly the wide forms of what the tree matches |
| Widener.WidenedMatchesErased | boreal/src/matcher/widener.rs:133-153 | a widened tree matches wide text exactly where the tree matches the text once its word boundaries are erased |
| Preference.EndsAreMatches | boreal/src/regex/hir.rs:14-70 | the ends of matches listed in order of preference, greedy repetitions longest first and lazy ones shortest first, are the ends of the match relation |
| Preference.WidenedEnds | boreal/src/matcher/widener.rs:59-197 | from each position the widened tree prefers, in wide text, twice what the tree without boundaries prefers in the text: greediness and the order of branches are kept |
| Preference.GreedyFirst | boreal/src/matcher/widener.rs:166-170 | why this tells greedy from lazy: on two equal bytes `b+` ends at 2 first, and `b+?` at 1 |
| Widener.WidensExactlyIff | boreal/src/matcher/widener.rs:133-153 | widening is exact for a tree iff erasing its word boundaries adds no match |
| Widener.WithoutBoundaries | boreal/src/matcher/widener.rs:5-14 | in particular for trees without word boundaries |
| Widener.BoundaryWitness | boreal/src/matcher/widener.rs:133-153 | a widened word boundary matches inside a wide word, where the boundary does not |
| Widener.WordsOfWidened | boreal/src/matcher/widener.rs:5-14 | listing the words of a widened tree and widening each word of the tree give the same list |
| Widener.WidenLiteral | boreal/src/matcher/mod.rs:404-411 | a NUL follows each byte |
| Atoms.ComputeAtomRank | boreal/src/atoms.rs:57-85 | the loop with its set of seen bytes computes the rank |
| Atoms.AtomRankNoUnderflow | boreal/src/atoms.rs:57-93 | the penalty for one repeated common byte is never more than the sum |
| Atoms.BestWindowIsMax | boreal/src/atoms.rs:38-51 | the rank of a long literal is that of its best four bytes: one window has it, and none has a higher one |
| Atoms.AtomsRankIsMin | boreal/src/atoms.rs:38-51 | the rank of some literals is that of the worst of them |
| Atoms.RankOfOne | boreal/src/atoms.rs:57-93 | the rank of every atom of one byte: the four very common bytes, lower-case letters, and all others |
| Atoms.KnownRanks | boreal/src/atoms.rs:57-93 | the ranks of some atoms of two and four bytes, repeated and different |
| Atoms.GenerateLiterals | boreal/src/matcher/literals.rs:184-209 | the generated list is the product of the parts |
| Atoms.WordsOfPartsMember | boreal/src/matcher/literals.rs:184-209 | a word is generated iff it takes one byte of each part |
| Atoms.ComputeScore | boreal/src/matcher/literals.rs:260-333 | the loop sums ranks and counts distinct bytes as the specification does |
| Atoms.GetPartsRank | boreal/src/matcher/literals.rs:260-333 | the rank of the parts; none when their combinations are too many |
| Atoms.PartsRankNoUnderflow | boreal/src/matcher/literals.rs:260-333 | when no class is empty the subtraction never goes below zero |
| Atoms.WindowIsAtom | boreal/src/matcher/literals.rs:260-333 | a window of single bytes has the rank of the atom that it is |
| Atoms.MinRankIsMin | boreal/src/matcher/literals.rs:260-333 | a class counts as its worst byte |
| Atoms.RanksOfClasses | boreal/src/matcher/literals.rs:260-333 | the ranks of windows of one or two classes of rare bytes, for all classes: more combinations make them worse from two on, again from a hundred on, and impossible when there are too many |
| Atoms.UnderflowWitness | boreal/src/matcher/literals.rs:260-333 | an empty class and a NUL are a window whose rank wraps around |
| Atoms.UnderflowIff | boreal/src/matcher/literals.rs:260-333 | a part makes some admissible window underflow, whose other parts are not empty, iff it is an empty class |
| Atoms.FindBestWindow | boreal/src/matcher/literals.rs:219-234 | the nested loops keep a window among the admissible ones |
| Atoms.Upscale | boreal/src/matcher/literals.rs:236-249 | the window grows over adjacent literals, and stops only at a class or at an end |
| Atoms.GrownCombinations | boreal/src/matcher/literals.rs:236-249 | growing the window leaves the number of combinations unchanged |
| Atoms.RunAtomsOptimal | boreal/src/matcher/literals.rs:219-257 | nothing is picked iff no window is admissible; else the rank is maximal among all admissible windows, the window is the first of that rank, and at most 256 literals are generated, as many as before growing |
| Atoms.RunAtomsSlice | boreal/src/matcher/literals.rs:219-257 | what is picked is a slice of the parts, at their positions |
| Atoms.ComputeRunIntoAtoms | boreal/src/matcher/literals.rs:219-257 | the method picks what these lemmas are about |
| Literals.Extractor.AddPart | boreal/src/matcher/literals.rs:111-119 | a part joins the run at the current position |
| Literals.Extractor.VisitAlternation | boreal/src/matcher/literals.rs:121-149 | the branches are tried as atoms iff all are literal |
| Literals.Extractor.TryAtomsInPlace | boreal/src/matcher/literals.rs:151-157 | the best atoms change only for a higher rank; that what is left at the end is the best of all is `Choice.ExtractedIsBest` |
| Literals.Extractor.CloseRunInPlace | boreal/src/matcher/literals.rs:159-168 | the run is tried and emptied |
| Literals.Extractor.VisitPre | boreal/src/matcher/literals.rs:338-390 | entering a node is the step of the specification |
| Literals.Extractor.VisitPost | boreal/src/matcher/literals.rs:392-396 | the position advances on leaves and on no other node |
| Literals.WalkIsFold | boreal/src/matcher/literals.rs:335-405 | the visitor sees a tree exactly as its sequence of leaves |
| Literals.ExtractedValid | boreal/src/matcher/literals.rs:335-405 | the final position counts the leaves, and the atoms stand for the leaves between their positions |
| Literals.UnderflowTree | boreal/src/matcher/literals.rs:260-333 | the extraction of `[^\x00-\xff]\x00` ranks such a window |
| Literals.RunMatches | boreal/src/matcher/literals.rs:338-390 | a run of one-byte leaves matches iff each of its parts accepts its byte |
| Literals.BranchLiteralsMatch | boreal/src/matcher/literals.rs:121-149 | an alternation of literals matches iff the bytes are one of the literals |
| Literals.AtomsMatch | boreal/src/matcher/literals.rs:171-182 | the leaves between the positions of the atoms match iff the bytes are one of the literals |
| Literals.RunAtomsLength | boreal/src/matcher/literals.rs:219-257 | literals picked in a run have equal lengths |
| Choice.BranchLiteralsAre | boreal/src/matcher/literals.rs:121-149 | an alternation is tried iff each branch is a byte, or a concatenation of bytes, and its literals are these bytes |
| Choice.ExtractedIsBest | boreal/src/matcher/literals.rs:151-182 | the atoms extracted are the best candidate of all that the leaves offer, the earliest of those of the highest rank; there are none iff nothing is offered |
| Choice.DetailsAreBest | boreal/src/matcher/literals.rs:6-66 | the literals and both halves are those of such a candidate |
| PrePost.PrePostExtractor.PushStack | boreal/src/matcher/literals.rs:451-454 | both stacks get an empty level |
| PrePost.PrePostExtractor.AddNodeTo | boreal/src/matcher/literals.rs:465-480 | a node joins the innermost level of its side, or the top that must be unset, and leaves the other side alone |
| PrePost.PrePostExtractor.VisitPre | boreal/src/matcher/literals.rs:486-506 | entering a node is the step of the specification |
| PrePost.PrePostExtractor.VisitPost | boreal/src/matcher/literals.rs:508-543 | leaving a node rebuilds it on each side that kept something of it |
| PrePost.WalkRestricts | boreal/src/matcher/literals.rs:483-548 | for every tree the visitor adds the restriction of the tree to each side, gives the stacks back, and never meets a top level that is already set |
| PrePost.RestrictLeaves | boreal/src/matcher/literals.rs:456-543 | the restriction has exactly the kept leaves, in order, and is absent iff none is kept |
| PrePost.KeptBefore | boreal/src/matcher/literals.rs:456-463 | the leaves of the first half are the prefix up to the end of the literals, or none |
| PrePost.KeptAfter | boreal/src/matcher/literals.rs:456-463 | the leaves of the second half are the suffix from the start of the literals, or none |
| Split.SplitHalves | boreal/src/matcher/literals.rs:37-66 | a half is absent iff the literals are at that end, and else holds exactly the leaves up to, or from, the literals |
| Split.SplitComplete | boreal/src/atoms.rs:3-10 | every match has, inside it, a literal around which both halves match |
| Split.ValidatedChoices | boreal/src/matcher/literals.rs:37-66 | what both halves validate: each chooses a literal of its own |
| Split.RunSplitSound | boreal/src/matcher/literals.rs:219-257 | with literals of a run, two validated halves are a match |
| Split.RunSplitExact | boreal/src/matcher/literals.rs:6-66 | with literals of a run, a tree matches iff some literal is validated on both sides |
| Branches.EqualLengthsMerge | boreal/src/matcher/literals.rs:121-149 | literals of equal lengths are mergeable |
| Branches.BranchSplitExactIff | boreal/src/matcher/literals.rs:121-149 | the literals of an alternation are mergeable iff validated halves are a match in every regex whose atoms they are |
| Branches.NotMergeableWitness | boreal/src/matcher/literals.rs:121-149 | `ab`, `a` and `b` are not mergeable |
| Branches.NotSoundWitness | boreal/src/matcher/literals.rs:121-149 | between `a{1}?` and `b{1}?`, the alternation of `ab`, `a` and `b` does not match on `ab`, and both halves accept its literal `ab` |
| WideSplit.WidenedLeaves | boreal/src/matcher/widener.rs:59-197 | a widened tree matches where its leaves, each widened, match in sequence |
| WideSplit.WideAtomsMatch | boreal/src/matcher/mod.rs:389-411 | the leaves of the literals, widened, match exactly the wide literals, in any memory |
| WideSplit.WideSplitComplete | boreal/src/matcher/mod.rs:138-170 | every match of the widened tree has, inside it, a wide literal around which both widened halves match |
| WideSplit.WideSplitExact | boreal/src/matcher/mod.rs:138-170 | with literals of a run, the widened tree matches iff some wide literal is validated by both widened halves |
| Driving.Drive | boreal/src/regex/visitor.rs:47-97 | the loop that calls the methods of a visitor object leaves the object in the state of the structural recursion, and meets no failed expectation when that one meets none |
| Driving.VisitorAbsorbs | boreal/src/regex/visitor.rs:47-97 | a panic of any of the five visitors is never undone, so that the loop may be reasoned about as if it ran to its end |
| Driving.AnalyzeHir | boreal/src/matcher/analysis.rs:30-46 | each flag says iff such a node exists; the count when set is the number of words, and with no empty class it is unset only for an uncountable node or a number over the integer width |
| Driving.HirToOnlyLiterals | boreal/src/matcher/only_literals.rs:5-8 | a list is returned iff every node is literal; with no empty class its members are exactly the words matched anywhere, and its length is the analysis count |
| Driving.WidenHir | boreal/src/matcher/widener.rs:5-14 | what the loop returns matches wide text exactly where the tree matches the text once its word boundaries are erased, everywhere the tree does, and only at even lengths; at each position the ends of its matches, in order of preference, are twice those of the erased tree |
| Driving.GetLiteralsDetails | boreal/src/matcher/literals.rs:6-35 | the result is that of the best candidate: of all the admissible windows of the maximal runs of one-byte leaves, and all the alternations of literals, the one of highest rank, the earliest of those; nothing is extracted iff there is no candidate |
| VarMatches.BinarySearch | boreal/src/evaluator/variable.rs:49-95 | the search of the standard library, as its contract allows it |
| VarMatches.FindAt | boreal/src/evaluator/variable.rs:73-77 | true iff some match starts at that address |
| VarMatches.FindIn | boreal/src/evaluator/variable.rs:80-95 | true iff some match starts between both addresses |
| VarMatches.CountMatchesIn | boreal/src/evaluator/variable.rs:49-70 | the number of matches that start between both addresses, in any order of these |
| Selection.SelectByCounts | boreal/src/evaluator/mod.rs:925-971 | the verdict depends only on how many results are true, false and unknown, whenever the loop stops |
| Selection.SelectIsCertain | boreal/src/evaluator/mod.rs:925-971 | a boolean is returned iff every completion of the unknown results gives it |
| Selection.SelectAnyOrder | boreal/src/evaluator/mod.rs:740-759 | the order of the results does not matter |
| Selection.SelectMonotone | boreal/src/evaluator/mod.rs:925-971 | a verdict does not change when unknown results become known |
| Laws.CompareIntegers | boreal/src/evaluator/mod.rs:196-206 | on integers, the flags of a comparison choose less, at most, greater and at least of the operands in order |
| Laws.CompareBytes | boreal/src/evaluator/mod.rs:481-496 | on bytes, less is lexicographic: at the first difference the byte is smaller, or the left is a proper prefix |
| Laws.CompareFloats | boreal/src/evaluator/mod.rs:196-206 | on doubles, and integers converted to them, the order of the scan on the operands in order |
| Laws.EqualValues | boreal/src/evaluator/mod.rs:889-902 | integers, bytes and booleans are equal iff they are the same, and the other way round when negated |
| Laws.EqualFloats | boreal/src/evaluator/mod.rs:889-902 | a double against a converted integer |
| Laws.AddSubMul | boreal/src/evaluator/mod.rs:160-181 | sums, differences and products are the exact ones modulo 2^64 |
| Laws.CongruentIsUnique | boreal/src/evaluator/mod.rs:160-181 | an integer of 64 bits is known by that |
| Laws.DivMod | boreal/src/evaluator/mod.rs:361-394 | quotients are truncated towards zero and remainders have the sign of the dividend; both are undefined iff the divisor is zero, or the least integer is divided by -1 |
| Laws.FloatArithmetic | boreal/src/evaluator/mod.rs:160-181 | an operation with a double is that of the scan, on the operands in order |
| Laws.Negations | boreal/src/evaluator/mod.rs:343-351 | the opposite, modulo 2^64 or as a double |
| Laws.BitwiseOperators | boreal/src/evaluator/mod.rs:396-410 | each of the 64 bits of the result from the two bits at its place |
| Laws.BitwiseComplement | boreal/src/evaluator/mod.rs:411-414 | each of the 64 bits flipped |
| Laws.Shifts | boreal/src/evaluator/mod.rs:415-436 | undefined for a negative amount and zero from 64 on; to the left modulo 2^64, to the right the quotient by the power of two rounded down |
| Laws.StringTests | boreal/src/evaluator/mod.rs:509-538 | containing, starting, ending and being equal, exactly or up to the case of letters, by the place where the bytes are read |
| Laws.NotOf | boreal/src/evaluator/mod.rs:549-552 | the negation of what counts as true; a poison stays |
| Laws.DefinedOf | boreal/src/evaluator/mod.rs:544-548 | a value is defined, an undefined one is not, and a needed match stays needed |
| Laws.Connectives | boreal/src/evaluator/mod.rs:438-479 | a conjunction is false iff some operand is false or undefined, and else waits iff some operand does; a disjunction is true iff some operand is, and else waits iff some operand does |
| Laws.ScanValues | boreal/src/evaluator/mod.rs:252-269 | the size of the file cut at the greatest integer, and the entry point, undefined above it |
| Laws.ReadAndMatch | boreal/src/evaluator/mod.rs:271-273 | integers are read at addresses that are not negative; a regex is matched against the bytes |
| Laws.Constants | boreal/src/evaluator/mod.rs:667-682 | constants, results of rules and external symbols stand for themselves |
| Laws.PoisonOfOperands | boreal/src/evaluator/mod.rs:246-590 | the poison of the first operand in error takes the place of the value |
| Laws.PoisonOfOperand | boreal/src/evaluator/mod.rs:246-590 | so does that of a single operand |
| Laws.Counts | boreal/src/evaluator/mod.rs:275-301 | the number of matches, and of those between two addresses, modulo 2^32 |
| Laws.Occurrences | boreal/src/evaluator/mod.rs:302-343 | the address and the length of the n-th match, counted from one, undefined when there is none or it does not fit |
| Laws.Variables | boreal/src/evaluator/mod.rs:554-590 | whether a variable matches, at an address, or between two that are not negative |
| Laws.VariablesWait | boreal/src/evaluator/mod.rs:554-571 | without matches these wait, unless the address is negative |
| Laws.OccurrencesWait | boreal/src/evaluator/mod.rs:302-343 | and occurrences, unless the number is below one |
| Laws.RangesWait | boreal/src/evaluator/mod.rs:275-292 | and ranges, unless reversed or negative where that decides |
| LoopLaws.SelectedIsCertain | boreal/src/evaluator/mod.rs:685-760 | the answer of a selection is a boolean iff it is the same whatever the waiting bodies turn out to be, as the selection counts them, and otherwise waits |
| LoopLaws.ForVariables | boreal/src/evaluator/mod.rs:592-608 | so is that of a loop over variables, on the body with each selected in turn |
| LoopLaws.LoopOnRange | boreal/src/evaluator/mod.rs:822-850 | and over a range, with every integer from the first bound to the last, both included |
| LoopLaws.LoopOnValues | boreal/src/evaluator/mod.rs:772-820 | and over an array with each value, or over a dictionary with each key and its value |
| LoopLaws.LoopOnList | boreal/src/evaluator/mod.rs:852-887 | and over a list whose items are all integers or bytes |
| LoopLaws.ListStops | boreal/src/evaluator/mod.rs:852-887 | an item without a value ends the loop: what the bodies before it make certain is the answer, or else its poison, which is false unless it waits |
| LoopLaws.NoTurns | boreal/src/evaluator/mod.rs:762-850 | what a loop answers when its bounds are undefined or reversed, or its module value is undefined |
| LoopLaws.LoopOnRules | boreal/src/evaluator/mod.rs:640-662 | a set of rules is selected over by the rules matched already and the verdicts of the others |
| LoopLaws.ModuleValues | boreal/src/evaluator/module.rs:59-197 | a module expression has a value iff its arguments do, and the path leads, through fields, items, first entries of keys and calls, to a scalar that is a number if it is a double |
| Agreement.FullPassDecides | boreal/src/evaluator/mod.rs:110-129 | with matches at hand no condition needs a match |
| Agreement.NoScanBelow | boreal/src/evaluator/mod.rs:246-683 | an expression whose lists settle and whose entry points stay evaluates, without matches, to the need for one or to its later value with any matches |
| Agreement.PassesAgree | boreal/src/evaluator/mod.rs:110-129 | an expression whose lists have no undefined element, and that evaluates no entry point seen otherwise later, is decided alike by the pass without matches and by a later full pass, in any environment |
| Agreement.FirstPassIsFinal | boreal/src/scanner/mod.rs:401-445 | a rule decided by the first pass is decided equally by the full pass, whose scan may have found an entry point that the condition does not evaluate; the full pass decides every rule |
| Agreement.EntrypointAgreesIff | boreal/src/scanner/mod.rs:569-582 | the first pass is final for all conditions whose lists are defined iff both passes see the same entry point |
| Agreement.EntrypointWitness | boreal/src/evaluator/mod.rs:258-269 | `not defined entrypoint` is true before the memory is scanned, and false once an entry point was found |
| Agreement.ItemsBelow | boreal/src/evaluator/mod.rs:852-887 | a list loop keeps agreeing while the full pass runs ahead of the first one |
| Agreement.ListAgreesIff | boreal/src/evaluator/mod.rs:852-887 | a list loop agrees for all results of its waiting bodies iff its items settle: no undefined item is met while a lower threshold is still open |
| Agreement.ListOfVariableAgreesIff | boreal/src/evaluator/mod.rs:852-887 | the same for `($x)` as the body and all matches |
| Agreement.UndefinedItemWitness | boreal/src/evaluator/mod.rs:852-887 | `for any i in (1, 1 \ 0) : ($a)` is false without matches and true when `$a` matches |
| Evaluation.EvaluateOps | boreal/src/evaluator/module.rs:121-175 | the loop that drains the arguments computes the value of the operations |
| Evaluation.EvaluateOp | boreal/src/evaluator/module.rs:131-172 | one operation takes its own arguments and no more |
| Evaluation.FirstErrorWins | boreal/src/evaluator/mod.rs:352-436 | when the left operand fails its error is the result, so the right one need not be evaluated |
| Evaluation.ForSelectionEvaluator.AddResultAndCheck | boreal/src/evaluator/mod.rs:930-961 | the thresholds move in place as in the specification whose verdict is proved certain |
| Evaluation.ForSelectionEvaluator.End | boreal/src/evaluator/mod.rs:963-971 | the end is a boolean unless results were missing |
| Evaluation.Evaluator.EvaluateExpr | boreal/src/evaluator/mod.rs:246-683 | evaluates to the value of the expression, which the laws of `Laws` and `LoopLaws` describe; the stack of bound values and the selected variable are restored on every exit, errors included |
| Evaluation.Evaluator.EvaluateOperator | boreal/src/evaluator/mod.rs:246-590 | the operands from left to right, stopping at the first error, give the value of the operator, as the laws of `Laws` describe it |
| Evaluation.Evaluator.EvaluateAnd | boreal/src/evaluator/mod.rs:438-458 | false wins over a needed match on either side of it, and stops the loop |
| Evaluation.Evaluator.EvaluateOr | boreal/src/evaluator/mod.rs:459-479 | true wins over a needed match on either side of it, and stops the loop |
| Evaluation.Evaluator.EvaluateForSelection | boreal/src/evaluator/mod.rs:685-729 | the selection gives its verdict or the thresholds that the loop starts with; the float that a percentage is rounded to is a parameter |
| Evaluation.PercentSelects | boreal/src/evaluator/mod.rs:704-726 | when the percentage is rounded up exactly, n percent of the elements is met iff the true ones are at least that part of all |
| Evaluation.Evaluator.EvaluateForVar | boreal/src/evaluator/mod.rs:731-760 | each variable is selected in turn, and the loop ends as soon as it is certain |
| Evaluation.Evaluator.EvaluateForRules | boreal/src/evaluator/mod.rs:640-662 | the results of rules with those already matched are selected over |
| Evaluation.Evaluator.EvaluateTurn | boreal/src/evaluator/mod.rs:762-887 | a body is evaluated with its values on the stack, which is cut back afterwards |
| Evaluation.Evaluator.EvaluateTurns | boreal/src/evaluator/mod.rs:772-850 | the loop over turns ends as soon as it is certain |
| Evaluation.Evaluator.EvaluateList | boreal/src/evaluator/mod.rs:852-887 | items are evaluated one by one, interleaved with the bodies, and an undefined one ends the loop |
| Evaluation.Evaluator.EvaluateForIterator | boreal/src/evaluator/mod.rs:762-887 | modules, ranges and lists give the loop the turns of the specification |
| Evaluation.Evaluator.CountMatchesInRange | boreal/src/evaluator/mod.rs:275-292 | the count over signed bounds, of which negative ones are read as zero |
| Evaluation.Evaluator.FindVariableAt | boreal/src/evaluator/mod.rs:556-571 | a negative address matches nothing, and needs no match to say so |
| Evaluation.Evaluator.FindVariableIn | boreal/src/evaluator/mod.rs:573-590 | a negative or reversed range matches nothing, and needs no match to say so |
| Evaluation.Evaluator.EvaluateModule | boreal/src/evaluator/module.rs:59-119 | the arguments first, then the value the kind of expression starts from, then the operations |
| Evaluation.Evaluator.EvaluateArguments | boreal/src/evaluator/module.rs:64-75 | all arguments in order, or the first error |
| Evaluation.EvaluateRule | boreal/src/evaluator/mod.rs:110-129 | a rule is decided unless a match is needed; what is undefined is false |
| Soundness.Sound | boreal/src/compiler/expression.rs:370-891 | what is compiled to a type evaluates, in every run that fits its scope, to that type or a poison, and no mismatched arm is taken at it or below |
| Soundness.RuleSound | boreal/src/compiler/expression.rs:361-368 | a compiled condition with any matches has its type, and no part of it takes a mismatched arm |
| Soundness.BuildSound | boreal/src/compiler/expression.rs:905-960 | every operator that the type table accepts gives the type of the table |
| Typing.BuildsIff | boreal/src/compiler/expression.rs:905-960 | an operator gets a type iff no values of the types of its operands make it stuck and some give that type, and no bytes stand for a boolean when warnings fail; unknown variables included |
| Typing.FollowsIff | boreal/src/compiler/module.rs:425-606 | a path is accepted iff each access fits the type reached, the same for static values and for dynamic ones |
| Typing.VariablesIff | boreal/src/compiler/expression.rs:1007-1055 | a set of variables is accepted iff each pattern chooses some variable |
| Typing.RulesIff | boreal/src/compiler/expression.rs:1057-1106 | a set of rules is accepted iff each pattern chooses some rule |
| Typing.AddedIff | boreal/src/compiler/rule.rs:169-187 | the names of a loop are accepted iff they are new and differ; each then has its type |
| Typing.Accepted | boreal/src/compiler/expression.rs:370-891 | the compiler accepts a condition, with a type, iff the condition has that type in the declarative type system and is nested less than the limit |
| Shapes.CompiledMirrors | boreal/src/compiler/expression.rs:370-891 | a compiled condition has the shape of its source: the same operators, flags and selections on the same parts in the same order, the variables and rules that are chosen, the indexes of names and the steps of paths; what starts at a static value may be folded |
| Shapes.ArgumentsSpread | boreal/src/compiler/module.rs:256-325 | the arguments of a path are those of its accesses, in order |
| Soundness.ArityOfPath | boreal/src/compiler/module.rs:256-325 | the operations of a path take exactly as many arguments as were compiled for it |
| Soundness.StepSound | boreal/src/compiler/module.rs:425-529 | one access that the types accept leads to a value of the next type, or to nothing |
| Soundness.PathSound | boreal/src/compiler/module.rs:256-325 | so does a whole path, with all of its arguments |
| Soundness.StaticSteps | boreal/src/compiler/module.rs:328-381 | folding static values while compiling gives what evaluation would compute |
| Soundness.DynamicSteps | boreal/src/compiler/module.rs:256-325 | from a dynamic value every access is kept for evaluation |
| Soundness.BindFits | boreal/src/compiler/rule.rs:169-187 | adding names to the scope while values are pushed keeps every name at a value of its type |
| Soundness.UseSound | boreal/src/compiler/module.rs:137-230 | the use of a bound name or a module evaluates to the type it ends with |
| Soundness.IteratorSound | boreal/src/compiler/expression.rs:1119-1218 | every turn of an accepted iterator pushes as many values as there are names, of their types |
| Soundness.LoopSound | boreal/src/compiler/expression.rs:832-862 | a loop is boolean, and its body is safe in each turn |
| Scoping.AddDense | boreal/src/compiler/rule.rs:169-187 | the indexes of the bound names are 0 to n-1 after each addition |
| Scoping.AddAllDense | boreal/src/compiler/expression.rs:1119-1218 | and after all the names of a loop |
| Scoping.BindAgrees | boreal/src/compiler/rule.rs:169-187 | after names and values are added, each name denotes the value at its index |
| Scoping.SelectRules | boreal/src/compiler/expression.rs:1057-1106 | counting global rules apart from the indexed ones selects as all rules in their order do |
| Scoping.UseMeans | boreal/src/compiler/module.rs:137-230 | a compiled use evaluates to what its names denote, whether folded while compiling or not |
| Scoping.TurnsMean | boreal/src/compiler/expression.rs:1119-1218 | a compiled loop over any iterator answers as the loop over names does |
| Scoping.Means | boreal/src/compiler/expression.rs:370-891 | a compiled condition evaluates with its stack to what the source means with its names |
| Scoping.RuleMeans | boreal/src/compiler/expression.rs:361-368 | so does the condition of a rule, for any matches |
| RuleCompiling.DepthBounded | boreal/src/compiler/expression.rs:370-382 | the nesting of a source that compiles stays below the limit, wherever it starts |
| RuleCompiling.LoopEffects | boreal/src/compiler/expression.rs:832-862 | the variables and wildcards a loop uses are those of its selection, iterator and body under its names |
| Patterns.VariablesChosen | boreal/src/compiler/expression.rs:1007-1055 | a set of variables holds a variable as often as a pattern chooses it: by its prefix, or as the first of its name |
| Patterns.AllVariables | boreal/src/compiler/expression.rs:1007-1055 | the set of all variables holds each once |
| Patterns.RulesChosen | boreal/src/compiler/expression.rs:1057-1106 | a set of rules holds an index as often as patterns choose rules that have it |
| Patterns.UsesIff | boreal/src/compiler/rule.rs:138-166 | a variable is used iff the condition, or one inside it, names it or has it in a set |
| Patterns.WildcardsIff | boreal/src/compiler/expression.rs:1057-1106 | a wildcard is recorded iff a set of rules inside the condition has it |
| RuleCompiling.AddedKeys | boreal/src/compiler/rule.rs:169-191 | the scope of a body has exactly the names of the loop added |
| RuleCompilers.RuleCompiler.constructor | boreal/src/compiler/rule.rs:96-129 | nothing bound, nothing used, depth zero |
| RuleCompilers.RuleCompiler.FindNamedVariable | boreal/src/compiler/rule.rs:151-166 | the index of that name, marked as used; nothing else is marked |
| RuleCompilers.RuleCompiler.FindVariable | boreal/src/compiler/rule.rs:138-148 | the anonymous variable has no index and marks nothing |
| RuleCompilers.RuleCompiler.AddBoundedIdentifier | boreal/src/compiler/rule.rs:169-186 | a name is refused iff bound already, and takes the next index; indexes stay dense |
| RuleCompilers.RuleCompiler.RemoveBoundedIdentifiers | boreal/src/compiler/rule.rs:189-191 | exactly these names are removed |
| RuleCompilers.RuleCompiler.AddWarning | boreal/src/compiler/rule.rs:193-200 | a warning is an error iff warnings are to fail |
| RuleCompilers.RuleCompiler.ToBoolExpr | boreal/src/compiler/expression.rs:893-903 | every type passes as a condition, bytes with a warning |
| RuleCompilers.RuleCompiler.CompileVariableSet | boreal/src/compiler/expression.rs:1007-1055 | the indexes selected by names and wildcards in order, all marked as used |
| RuleCompilers.RuleCompiler.CompileRuleSet | boreal/src/compiler/expression.rs:1057-1106 | the indexes of normal rules and the number of global ones; each wildcard is recorded |
| RuleCompilers.RuleCompiler.CompileExpression | boreal/src/compiler/expression.rs:370-891 | succeeds with a type iff the condition has that type in the declarative type system and is nested less than the limit; then what is compiled has the shape of its source, the depth and the bound names are as before, and exactly the variables and wildcards of the source were recorded |
| RuleCompilers.RuleCompiler.CompileOperator | boreal/src/compiler/expression.rs:382-766 | refused iff an operand is, or for a warning, or because some values of the types of the operands make the operator stuck; else its type is one that such values show |
| RuleCompilers.RuleCompiler.CompileForSelection | boreal/src/compiler/expression.rs:988-1005 | the number of a selection must be an integer |
| RuleCompilers.RuleCompiler.CompileFor | boreal/src/compiler/expression.rs:767-831 | the selection, the variables and the body with their effects |
| RuleCompilers.RuleCompiler.CompileForRules | boreal/src/compiler/expression.rs:864-872 | the selection and the rules with their effects |
| RuleCompilers.RuleCompiler.CompileForIdentifiers | boreal/src/compiler/expression.rs:832-863 | names are bound for the body alone, and unbound after it |
| RuleCompilers.RuleCompiler.CompileForIterator | boreal/src/compiler/expression.rs:1119-1218 | the types of the turns match the number of names, or the loop is refused |
| RuleCompilers.RuleCompiler.CompileModulePath | boreal/src/compiler/module.rs:153-157 | access after access gives the path of the specification, with the effects of its arguments |
| RuleCompilers.RuleCompiler.CompileModuleUse | boreal/src/compiler/module.rs:137-230 | bound names hide modules, and static values hide dynamic ones |
| RuleCompilers.RuleCompiler.CompileIdentifier | boreal/src/compiler/expression.rs:1241-1292 | the names are looked up as bound name, module, rule and symbol, in this order |
| RuleCompilers.ModuleUse.AddOperation | boreal/src/compiler/module.rs:256-325 | an access is accepted iff the types allow it; the arguments and operations grow by what it needs |
| Namespaces.AddKeeps | boreal/src/compiler/mod.rs:295-456 | every component added to any namespace keeps: indexes point at the rule of that name, names are distinct, imports point at their modules, rules refer back |
| Namespaces.RunKeeps | boreal/src/compiler/mod.rs:295-456 | so does every run |
| Namespaces.EveryRunIsGood | boreal/src/compiler/mod.rs:295-456 | and every compiler reached from an initial one has it |
| Namespaces.IndexesDiffer | boreal/src/compiler/mod.rs:375-456 | no two names in any namespaces share a rule index |
| Acceptance.AddedIff | boreal/src/compiler/mod.rs:375-456 | a rule is added iff no wildcard forbids its name, no rule of the namespace has it, its tags and the names of its variables differ, its condition has a type that may stand for a boolean and is nested less than the limit, and each variable is valid, and used or named with an underscore |
| Acceptance.AddedMeans | boreal/src/compiler/rule.rs:203-258 | the rule that is added evaluates, in any scan that serves its scope and for any matches, to what its source means |
| Acceptance.VerdictIs | boreal/src/evaluator/mod.rs:110-129 | the verdict of a rule is whether its condition is true, unless that waits for matches |
| Acceptance.RunModules | boreal/src/compiler/mod.rs:334-374 | after any run the modules of a namespace are as they were made available, and are those that were imported into it |
| References.CompiledRefsIff | boreal/src/compiler/expression.rs:370-891 | for any n, a compiled condition refers only to rules below n iff its source reads none from n on: no name, unless bound or a module, and no set of rules stands for one |
| References.CompiledRefs | boreal/src/compiler/expression.rs:1057-1106 | every rule that a compiled condition refers to is below the index that the next normal rule takes |
| References.UseKeepsArguments | boreal/src/compiler/module.rs:342-371 | when a path is folded into a static value, it had no argument to evaluate |
| Namespaces.RefusedChangesNothing | boreal/src/compiler/mod.rs:375-456 | a refused component changes no rule, no variable, no index and no import |
| Namespaces.RunKeepsWildcard | boreal/src/compiler/mod.rs:376-389 | once a prefix is forbidden no later run adds a name that starts with it |
| Namespaces.WildcardIsFinal | boreal/src/compiler/mod.rs:375-456 | after a rule uses a wildcard, the rules that match it are those there were, and the rule itself if its name does, after any run |
| Namespaces.LayoutsAgreeIff | boreal/src/scanner/mod.rs:424-478 | the variables of rules with the globals put first are in the order of the rules iff no rule with variables that is not global is followed by a global one with variables |
| Namespaces.VariablesLineUpIff | boreal/src/scanner/mod.rs:424-478 | after any run, walking globals and then rules meets each rule's own variables iff the rules were added in such an order |
| Namespaces.OutOfOrderWitness | boreal/src/scanner/mod.rs:424-478 | a rule and then a global rule, with one variable each: they are added, and do not line up |
| Namespaces.GlobalRefersForward | boreal/src/compiler/expression.rs:1264-1279 | `rule a { condition: true } global rule b { condition: a }` are added from an initial state, and the condition of b reads past the end of the results |
| Namespaces.GlobalRefersIff | boreal/src/compiler/expression.rs:1264-1279 | a global rule that is added refers to no result iff no name and no set of rules of its condition stands for a rule with an index |
| Namespaces.GlobalsSafeIff | boreal/src/compiler/mod.rs:295-456 | after a whole run no global rule refers to a result iff this holds of each at the time it was added |
| Namespaces.Compiler.constructor | boreal/src/compiler/mod.rs:162-178 | a new compiler is an initial one |
| Namespaces.Compiler.AddModule | boreal/src/compiler/mod.rs:184-197 | a module is added iff its name is free |
| Namespaces.Compiler.DefineSymbol | boreal/src/compiler/mod.rs:479-491 | a symbol is added iff its name is free, and names stay distinct |
| Namespaces.Compiler.AddComponent | boreal/src/compiler/mod.rs:295-456 | the whole new state is the step of the specification whose runs are safe |
| Namespaces.Compiler.AddImport | boreal/src/compiler/mod.rs:334-374 | a module is located once, for all namespaces |
| Namespaces.Compiler.AddRule | boreal/src/compiler/mod.rs:375-456 | the checks come in the order of the code, and nothing is changed before they pass |
| Namespaces.CompileRuleIn | boreal/src/compiler/rule.rs:203-258 | a rule is refused for a repeated variable, a bad condition or an unused variable, and reports the wildcards it used |
| Scanning.EvaluateWithoutMatches | boreal/src/scanner/mod.rs:487-528 | the scan ends at the first global rule known not to match, with the public ones known to match before it; else the matches are needed iff some rule needs them, and else the public rules that match are reported, in order |
| Scanning.EvaluateWithMatches | boreal/src/scanner/mod.rs:424-480 | nothing is reported when a global rule does not match; else exactly the public rules that match, in order, each evaluated with the results of those before it |
| Scanning.FirstPassIs | boreal/src/scanner/mod.rs:487-528 | what the pass without matches answers, by the verdicts of its rules |
| Scanning.FullPassIs | boreal/src/scanner/mod.rs:424-480 | what the full pass reports, by those of its rules with their matches |
| Scanning.VerdictStays | boreal/src/scanner/mod.rs:401-445 | whatever the results of the rules before, a rule decided by the first pass matches alike in the full pass |
| Scanning.FullPassReports | boreal/src/scanner/mod.rs:401-480 | when the first pass ends the scan, the full pass would report the same rules, or none if a global rule is false |
| Scanning.ReportsAgreeIff | boreal/src/scanner/mod.rs:401-528 | when the first pass ends the scan, it reports what the full pass would iff no public global rule is true before the first false one |
| Scanning.KeptGlobalWitness | boreal/src/scanner/mod.rs:495-508 | of the global rules `true` and `false` the first is reported without matches, and neither by the full pass |
| Memories.ReachIsFirstHole | boreal/src/memory.rs:177-239 | the reach of an address is the first address from it on that no region holds |
| Memories.VisitMeans | boreal/src/memory.rs:195-239 | started anywhere in its run, the loop succeeds iff some slice was or is passed, every region met can be fetched, and none is listed after a hole in the range; its slices are then the content up to the end or the first hole |
| Memories.OnRange | boreal/src/memory.rs:177-239 | the slices passed to the callback, and the result, are those of the specification |
| Memories.OnRegions | boreal/src/memory.rs:195-239 | the loop with its cursor, `start` and `has_called_cb` does what the recursion over the regions does |
| Memories.OnRangeMeans | boreal/src/memory.rs:177-239 | on sorted disjoint regions: it succeeds iff the start is covered, every region met can be fetched, and the range is covered up to its end or no region is listed after the hole; the slices together are then the content from the start to the end or the first hole |
| Memories.FarRegionFails | boreal/src/memory.rs:140-176 | a region beyond the end makes a range that is not covered fail |
| Memories.FarRegionWitness | boreal/src/memory.rs:140-176 | regions `[0; 1[` and `[5; 6[` and the range `[0; 2[`: one slice is passed, and the whole fails |
| Memories.TilesAgreeWithDirect | boreal/src/memory.rs:177-239 | regions that tile a buffer give the result and the bytes of the buffer |
| Memories.GetContiguous | boreal/src/memory.rs:88-122 | the bytes of one region or buffer, or none |
| Memories.WithinRegion | boreal/src/memory.rs:101-121 | the loop finds the region as the recursion does |
| Memories.WithinMeans | boreal/src/memory.rs:74-122 | the bytes returned are the content of the range, all in one fetched region |
| Memories.WithinFinds | boreal/src/memory.rs:74-122 | a range inside a region that can be fetched is always found |
| Memories.ContiguousIsRange | boreal/src/memory.rs:88-239 | when the bytes can be had in one piece, reading the range succeeds with the same bytes |
| Memories.FragmentedMemory.Next | boreal/src/memory.rs:247-252 | regions are listed one after the other |
| Memories.FragmentedMemory.Fetch | boreal/src/memory.rs:254-264 | the last region listed, if it can be read |
| Memories.FragmentedMemory.Reset | boreal/src/memory.rs:266-277 | the listing starts again |
| Digests.Mean.Update | boreal/src/module/math.rs:386-392 | the saturating loop is the saturated total |
| Digests.MeanOfChunks | boreal/src/module/math.rs:374-396 | two updates are one update with both pieces, saturation included |
| Digests.Distribution.Update | boreal/src/module/math.rs:591-596 | each counter grows by the occurrences of its byte |
| Digests.DistributionOfChunks | boreal/src/module/math.rs:584-599 | two updates are one update with both pieces |
| Digests.SerialCorrelation.Update | boreal/src/module/math.rs:435-451 | the loop with its previous byte adds products, bytes and squares |
| Digests.SerialOfChunks | boreal/src/module/math.rs:435-451 | two updates are one update with both pieces, empty ones included |
| Digests.SerialIsCircle | boreal/src/module/math.rs:401-468 | the three sums are those of the formula, with the last byte next to the first one |
| Digests.MonteCarloPi.Update | boreal/src/module/math.rs:502-517 | whole blocks of six bytes are counted, and the rest is dropped |
| Digests.MonteCarloPi.Hits | boreal/src/module/math.rs:504-515 | a block hits iff the point of its two 24-bit coordinates is in the circle of radius 256^3 - 1 |
| Digests.MonteOfChunks | boreal/src/module/math.rs:501-529 | two updates are one when the first piece is a multiple of six bytes, or no block is completed across the cut |
| Digests.MonteOfChunksIff | boreal/src/module/math.rs:501-529 | for two lengths, all pieces of these lengths may be cut there iff so |
| Digests.FeedIsWhole | boreal/src/module/math.rs:536-545 | such a digest of any number of pieces is that of the bytes together |
| Digests.DigestOfTiles | boreal/src/module/math.rs:531-545 | such a digest of a range of tiled regions is that of the range of the buffer |
| Digests.MeanIsInvariant | boreal/src/module/math.rs:374-396 | the mean is such a digest |
| Digests.DistributionIsInvariant | boreal/src/module/math.rs:584-599 | and the distribution |
| Digests.SerialIsInvariant | boreal/src/module/math.rs:408-451 | and the serial correlation |
| Base64.EncodeBase64 | boreal/src/matcher/base64.rs:23-78 | returns the characters whose six bits are all in the string at this offset, or nothing for a string too short for it |
| Base64.ContextFree | boreal/src/matcher/base64.rs:23-78 | whatever precedes and follows the string, and for any alphabet, these are the characters of the base64 of the whole that lie wholly inside it, all of them and no other |
| Base64.WhollyInsideIs | boreal/src/matcher/base64.rs:23-78 | which characters of the whole have all their bits in the string |
| Base64.NothingInside | boreal/src/matcher/base64.rs:23-78 | when nothing is returned, no character lies wholly inside the string |
| Base64.SixInside | boreal/src/matcher/base64.rs:23-78 | six bits inside the string do not depend on what surrounds it |
| ToInt.ReadDigits | boreal/src/module/string.rs:85-103 | the loop of checked steps returns the signed value iff it fits at the end |
| ToInt.NumberGrows | boreal/src/module/string.rs:89-102 | a prefix is never a greater number |
| ToInt.OverflowLasts | boreal/src/module/string.rs:89-102 | a step that overflows means that the whole number does |
| ToInt.ToInt | boreal/src/module/string.rs:34-104 | a number is returned iff the base is valid and the text is a notation of it: spaces, a sign, a prefix that tells the base when none is given, and figures or letters of either case |
| ToInt.ValueIff | boreal/src/module/string.rs:34-104 | a text has a value iff it is a notation of that number |
| ToInt.NotationParses | boreal/src/module/string.rs:46-84 | a notation is parsed into its sign, its base and its digits |
| ToInt.RoundTrip | boreal/src/module/math.rs:350-366 | in base ten every number is read back, the minimum included |
| ToInt.RoundTripAnyBase | boreal/src/module/math.rs:350-366 | also when the base is to be detected |
| ToInt.RoundTripIff | boreal/src/module/math.rs:350-366 | in bases 8 and 16 a number is read back iff it is not negative |
| Matching.NewBytes | boreal/src/matcher/mod.rs:176-260 | the literals of a string are all its versions under its modifiers, in order; what they are under `xor` and `base64` is said by `XorLiteralsAre`, `Base64Complete` and `Base64Sound` |
| Matching.XorLiterals | boreal/src/matcher/mod.rs:190-203 | every key of the range for each literal |
| Matching.EncodeLiterals | boreal/src/matcher/mod.rs:216-242 | the literals of the three offsets of each version, wide before plain; that none is missing is `Base64Complete` |
| Matching.XorLiteralsAre | boreal/src/matcher/mod.rs:190-203 | under `xor` the literals are the versions of the text under every key of the range, and nothing else |
| Matching.XorBits | boreal/src/matcher/mod.rs:190-203 | each bit under a key is flipped iff it is set in the key |
| Matching.XorTwice | boreal/src/matcher/mod.rs:190-203 | the same key twice gives the text back |
| Matching.Base64Complete | boreal/src/matcher/mod.rs:216-242 | wherever a version of the text stands in what is encoded, if a character lies wholly inside it, the characters that do are a literal, in each form asked for |
| Matching.Base64Sound | boreal/src/matcher/mod.rs:216-242 | and every literal is such a slice, after any text of one length modulo 3 |
| Matching.ApplyAsciiWide | boreal/src/matcher/mod.rs:389-402 | plain literals are kept iff both are wanted, and precede the wide ones |
| Matching.TypeTells | boreal/src/matcher/mod.rs:262-287 | the type confirmed from the index of a literal is its own: that literal is the text, or the wide text, under some key; it is the standard wide type iff only the wide text is asked for |
| Matching.ConfirmTells | boreal/src/matcher/mod.rs:262-287 | a literal is confirmed iff the bytes found read like it, up to case when that does not count; then the type given is that of a text they read like |
| Matching.SameWide | boreal/src/matcher/mod.rs:270-276 | ignoring the case of wide texts is ignoring that of the texts |
| Matching.SameIgnoringCaseIs | boreal/src/matcher/mod.rs:270-276 | two texts are the same up to case iff each letter is, in upper or lower case, and all else is equal |
| Matching.FullwordIs | boreal/src/matcher/mod.rs:363-387 | what is found is a full word iff neither neighbour is a letter or a figure |
| Matching.FullwordOfWide | boreal/src/matcher/mod.rs:363-387 | a match in wide text is a full word iff it is one in the text |

## Left out

- Matching of regexes by `regex_automata`, the automaton that finds atoms, the validators and `memmem`: foreign engines. The relation `Matches` takes their place.
- The grammar, spans, diagnostics, statistics, tags and metadata of rules, and included files: conditions and regexes are trees.
- Compiling a regex and its warnings: a regex in a condition is an opaque value with a match oracle.
- PE, ELF, Mach-O, hash, console and time modules, processes and the command line: a module is a typed value with functions as oracles.
- Floats: an abstract type with oracles for its operations, none of which is said to round. What the digests do at their end in floats is left out; their integer sums are exact.
- Integers read from the scanned memory and the value of the entry point are parameters of a scan. So is the float that a percentage is rounded to: seven percent of a hundred is eight in floats, so that an exact ceiling would not be what the code computes.
- Timeouts: none fires.
- Negating the least integer, and a rank below zero, wrap around as in a release build.
- Static floats of modules are taken not to be NaN, without which folding could not be compared.
- Analysis, extraction and ranking keep exact numbers where the code has bounded ones, except for the count of literals, whose checked arithmetic is modelled.
- The definition that a class keeps beside its bitmap, and its case flag, do not matter here.
- Which matcher `Matcher::new_regex` picks, `process_ac_match`, and `pick_atom_in_literal`, which cuts long literals.
- Matching.TypeTells: strings with a base64 modifier are excluded; their literals keep no order, as the code says at `boreal/src/matcher/mod.rs:224-225`.
- Hash maps are maps, and where they are iterated any order is allowed.
- Order of compilation errors: a refused source gives no result; which error it reports is not modelled.
- Evaluation.Evaluator.EvaluateExpr: an arm that only a mismatched type or a bad index reaches gives the poison `Stuck`; `Soundness.Sound` proves that no compiled condition gets there.
- Evaluation.Evaluator.EvaluateForRules: a rule index out of range is a result of false; compiled indexes are in range.
- RuleCompiling.DepthBounded: speaks about the source; the compiled condition can nest deeper, since negations and comparisons add nodes.
- RuleCompilers.RuleCompiler.CompileIdentifier: accesses after the name of an external symbol are ignored, as the code does.
- RuleCompilers.RuleCompiler.AddWarning: warnings are counted, not kept.
- Visitor.Visit: threads the state of its visitor as a value, for any visitor. `Driving.Drive` is the same loop on objects, for the five visitors of the crate.
- VarMatches.BinarySearch: any result that the contract of the standard library allows would do for its callers.
- Digests.Distribution.Update: counters are unbounded, as are those of `MonteCarloPi`.
- Agreement.FirstPassIsFinal: the entry point is the only thing that a scan finds between its two passes when the first one runs at all, by `boreal/src/scanner/mod.rs:605-613`; what else may change is not modelled.
- Scanning.EvaluateWithMatches: an index past the results of the rules, on which the code panics, is a false verdict; which rules can have one is `References.CompiledRefsIff`. Each rule is given its own matches; `Namespaces.VariablesLineUpIff` says when the scanner does that.
- Namespaces.RefusedChangesNothing: a refused component may still create its empty namespace, as the code does.
