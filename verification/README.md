# AfterStep base algorithms, modelled and proved

A Dafny model of the self-contained algorithms of AfterStep's base library (`libAfterBase`) and of the glyph
code of its image library (`libAfterImage`). Code that changes things in place is modelled in that form:
linked nodes are class instances whose links are rewritten, buffers are arrays, loops carry invariants. Beside
each such method stands a specification that does not mention its steps, and lemmas about that specification.

`dafny verify dfyconfig.toml` checks the whole project.

| files | component |
|---|---|
| `Common` | what several components share: options, bytes, lists with one more or one less, the pool of discarded nodes |
| `CharClass`, `PatternLanguage`, `PatternParser`, `CompiledPattern`, `PatternCompiler`, `PatternPrinter` | wildcard patterns: their language, parser, compiled form and printer |
| `PatternSyntax` | what texts of patterns look like, and that the parser reads them as they are meant |
| `PatternRoundTrip`, `PatternCounting`, `PatternBackslash` | printing and parsing again: when it works, and why only then |
| `MatchAnswer`, `MatchMeaning`, `Matcher` | the matcher: what it answers, what the answer means, the loops themselves |
| `MatchComplete`, `MatchSought`, `PatternSamples`, `MatchLosses` | when it finds every text, and the texts it does not find |
| `PatternMatching`, `PatternExamples` | from the text of a pattern to an answer, when that can be trusted, and wrong answers |
| `HashTable`, `HashListing`, `HashIteration`, `OptionKey` | the hash table: searches, the ordered listing, the iterator, option keys |
| `LayoutGrid`, `LayoutGather`, `LayoutSizes`, `LayoutShares`, `LayoutResize`, `GridLines` | the layout: cross-linked grid, distribution of space, positions, grid lines |
| `GlyphCode`, `GlyphScale`, `Arithmetic` | glyphs: run-length code and its reader, down-scaling in place |
| `WireFormat`, `SocketWriter`, `SocketReader`, `SocketRuns` | the socket protocol: byte order, buffered writer, resumable reader, whole conversations |
| `TimerQueue`, `TimerRuns` | timers, and whole runs of them |
| `BiDirList` | the doubly linked list with its pool |
| `GeometryText`, `GeometryPrinter` | geometry strings: parser and printer |

## How the pieces fit together

* **Patterns.** A pattern is a list of parts, each a lead (`-1` for `*`, else the number of characters to skip)
  and a row of symbols. `PatternLanguage.Lang` says which texts it has, by choosing a filler for each lead. The
  parser is tied to `PatternFrom`, the compiled form to the pattern by `Compiled`, the printer to `Print`.
* **Syntax.** `PatternSyntax` writes texts down from what they mean: chunks of wildcards and symbols, classes with their
  ranges, runs and commas, characters with or without a backslash. `ReadsAsMeant` shows that each of them reads as just that,
  `BreaksOff` and `EmptyClassEnds` what becomes of texts that stop in the middle or have an empty class.
* **Matcher.** `MatchAnswer.Matches` is the exact answer on the pattern, skips and windows included; the loops of
  `Matcher` compute it for every compiled pattern. `MatchMeaning.Sought` is the pattern that is really searched for: the
  written one, less what lies beyond a part of nothing but a `*` on either side of the longest part, and with no
  second `*` on its left. `MatchMeans` bounds the answer by the language of that pattern from above;
  `PatternMatching.SoundExactly` says when that is enough for the written one.
* **What the matcher finds.** A row is movable if the matcher tries one place after the other for it. `MatchComplete` shows
  that the skips between these places never pass the next one that fits, if no character belongs to two symbols of the row,
  and that the first such place is good enough, as a `*` follows. `MatchSought` and `MatchLosses` build a text for
  each way in which the conditions can fail: a shortest one, stretched by as many fillers as make the row jump over its
  place. Counting the characters that are no fillers shows that no row in front of it can make up for that. So the
  conditions are exact (`FindsAllExactly`), and can be read off the pattern before the call.
* **Round trip.** That a printed pattern can read back as itself only under the stated condition is proved by counting.
  The parser takes two backslashes from the text for every backslash it yields, and a bracket for every class and every
  bracket; the printer provides no more than that (`PatternCounting`). So each symbol has to be read where it was printed.
* **Hash table.** `Served` says what one request does to a finite map, with its result codes; `Serve` shows that
  every run of requests is a run of that map, and `RunIsSettled` that the map settles every reply.
* **Grid.** The grid is a map from slots to elements. Which element every link leads to follows from that map
  (`RightOf`, `BelowOf`), so equal maps mean equal links.
* **Sizes.** `Adjusted` gives the four passes as recursive functions. `LayoutSizes` states sums and signs of its result, and
  `LayoutShares` every single column in closed form: what a fixed one gets, what a flexible one keeps of the whole, and which
  part of what is left is added to it.
* **Glyphs.** The encoder is proved against `Expand`, the meaning of a code; `Render`, the reader the library
  really has, is proved against the same `Expand`. Down-scaling is proved against the mean of each group, the group
  of column i being `i * to / from`.
* **Socket.** A connection is the bytes still to come and the outcomes of future reads, both arbitrary.
* **Timers.** The state is the list of alarms; the clock is a parameter of each request. `TimerRuns.Stepped` says what one
  request does and answers; what has been set, has fired and has been taken out are functions of the run.

## Where the code does not do what it is for

These are lemmas or exact conditions, not omissions.

* Two `*`: `*a*b` does not match `axb`. To the left of the longest part only the first `*` stretches
  (`MatchMeaning.Narrow`; `PatternExamples.SecondStarIsLost`). Texts of the pattern are lost by this exactly if a row, up to the
  longest one, has a `*` in front of it and another row that has one as well further left (`MatchSought.SoughtExactly`).
* The skip table: `*aab*c` does not match `aaabc`, because a row tried in vain moves on to the last place of a character
  in it and passes over the place where it fits (`PatternExamples.SkipTableLoses`). Texts are lost by this exactly if a
  character belongs to two symbols of a movable row (`MatchLosses.FindsAllExactly`; for `*w*`,
  `MatchLosses.StarredWordExactly`).
* A class without symbols, as in `a*[]b`, leaves a part without symbols inside the pattern, and the matcher does not
  look beyond it: it finds `xb` (`PatternExamples.EmptyClassHidesWhatIsBefore`). Without negation marks, whatever it finds is
  in the language exactly if no part beyond such a gap has a symbol (`PatternMatching.SoundExactly`).
* The loop over a range in the skip table ends exactly if the range does not go up to 255 (`CompiledPattern.RangeLoopEnds`);
  a class compiles to such a range exactly if it has 253, 254 and 255 (`PatternCompiler.RangesEndExactly`), as
  `[a-\xff]` does (`PatternExamples.RangeToTheTop`).
* A negated symbol matches no character at all, as `*neg == 1` counts as a mismatch: `[!a]` does not match `b`
  (`PatternExamples.NegationNeverFits`). All texts of a pattern are found only if no symbol that is looked at is negated
  (`MatchLosses.FindsAllExactly`).
* A class of character 255 alone is lost by canonicalisation (`CharClass.LoneTopCharacterIsDropped`).
* A printed pattern does not escape the backslash. The text of a pattern compiles to that pattern again exactly if no part
  but the first lacks wildcards, no part but the last lacks symbols, and every backslash is a symbol of its own in front
  of a single `!`, `,`, `-` or `]` (`PatternBackslash.ReadsBackExactly`, `PatternBackslash.CompileAgain`).
* The last flexible column can get a negative size (`LayoutSizes.LastColumnCanGoNegative`); when it does is stated
  exactly in terms of the inputs (`LayoutSizes.WhenSizesStayNonNegative`). An empty column can miss its equal part to a column
  that has shrunk to nothing (`LayoutSizes.EmptyColumnCanMissItsPart`). A share is itself negative exactly if the old total is 1
  and the product reads back as negative (`LayoutSizes.ShareSign`, `LayoutSizes.ShareCanBeNegative`).
* Comparing options is no order: `x^` and `xa` are each less than the other (`OptionKey.NotAnOrder`). It is one among strings
  whose option ends with the string or at a character below `0`, and any other string breaks it (`OptionKey.TameExactly`).
* `format_geometry` uses the place of a number relative to the current position as if it were relative to the start of
  the buffer. Every number after the first brings along as many characters of the uninitialised buffer as have been
  printed before. The round trip that parser and printer are for therefore holds, for every content of the buffer, exactly
  when at most the width is printed (`GeometryPrinter.PrintsOnlyWidthsReliably`). The text the printer is meant
  to produce does read back (`GeometryText.GeometryRoundTrip`).
* The delay till the next alarm knows no moment after 0x7fffffff seconds, so waiting for it is not always enough; when it
  is, is stated exactly (`TimerQueue.WaitAndHandle`; `TimerQueue.HorizonIsNotEnough` is an alarm it misses).
* The branch of `enable_layout_elem` that frees the element cannot be reached (`LayoutGrid.Layout.Enable`).
* Removing duplicates keeps first occurrences whenever comparing equal is transitive; symmetry is not needed
  (`BiDirList.DedupKeepsFirstOccurrences`).

## Model

| member | source | states |
|---|---|---|
| `CharClass.Optimize` | libAfterBase/regexp.c:216-288 | the marking and emitting loops write the canonical code of the class: its maximal runs in order |
| `CharClass.CanonKeepsMembers` | libAfterBase/regexp.c:216-288 | the canonical code has the same members from 2 on, reversed ranges included; 255 only beside 254 |
| `CharClass.CanonAscends` | libAfterBase/regexp.c:247-287 | the canonical code is a list of strictly ascending runs with gaps between them |
| `CharClass.CanonIsUnique` | libAfterBase/regexp.c:216-288 | classes with the same members have the same canonical code |
| `CharClass.CanonIsIdempotent` | libAfterBase/regexp.c:216-288 | rewriting a canonical code changes nothing |
| `CharClass.CanonIsConcise` | libAfterBase/regexp.c:247-287 | it writes one or two neighbours out, and only three or more as a range |
| `CharClass.LoneTopCharacterIsDropped` | libAfterBase/regexp.c:216-288 | the class of 255 alone becomes the empty class |
| `PatternParser.ParseSingleChar` | libAfterBase/regexp.c:98-115 | reads one character, taking a backslash off, and stops at the reserved ones |
| `PatternParser.ParseMultiPart` | libAfterBase/regexp.c:117-142 | reads a range or a run of single characters of a class |
| `PatternParser.ParseSym` | libAfterBase/regexp.c:144-182 | reads a class with its negation mark, or a single character |
| `PatternParser.ParseWild` | libAfterBase/regexp.c:361-382 | takes in all wildcards that stand there; the lead is -1 if a star is among them, wherever it stands, and else their number |
| `PatternSyntax.ReadsAsMeant` | libAfterBase/regexp.c:98-434 | every properly written text, of wildcards mixed in any way, escaped and plain characters and negated classes with ranges, runs and commas, reads as the pattern it was written from |
| `PatternSyntax.BreaksOff` | libAfterBase/regexp.c:98-434 | a text that stops within a class or right after a backslash makes the parser run past its end, unless nothing but an empty class or that backslash stands where a part would begin |
| `PatternSyntax.EmptyClassEnds` | libAfterBase/regexp.c:291-434 | an empty class where a part would begin ends the pattern, whatever comes behind it |
| `PatternSyntax.ClassHas` | libAfterBase/regexp.c:117-288 | a class has exactly the characters of its pieces, between 2 and 254 |
| `PatternCompiler.CanonIsLost` | libAfterBase/regexp.c:216-288 | what is left of a class is empty exactly if none of 2 to 254 is in it |
| `PatternCompiler.RangesEndExactly` | libAfterBase/regexp.c:197-213 | the skip table loop ends on the compiled form of a class exactly if not all of 253, 254 and 255 are in it |
| `PatternCompiler.FitCodeExactly` | libAfterBase/regexp.c:185-288 | in terms of its characters: which classes are neither lost nor make that loop run on |
| `PatternCompiler.OrdinaryIsCompilable` | libAfterBase/regexp.c:98-434 | every text of bytes 2 to 254 compiles |
| `PatternCompiler.ParseRegExp` | libAfterBase/regexp.c:291-359 | one part: its symbols in canonical form, the row turned around, its skip table; nothing if there is neither lead nor symbol |
| `PatternCompiler.ParseWildRegExp` | libAfterBase/regexp.c:384-434 | all parts of the text, their totals, and the longest of them, the last of its size |
| `PatternCompiler.ParsedIsCanonical` | libAfterBase/regexp.c:291-359 | every symbol of every parsed pattern is non-empty and in canonical form |
| `CompiledPattern.FixSkipTable` | libAfterBase/regexp.c:185-214 | the entry of a character is the last row place with a symbol that has it, or the row's size |
| `CompiledPattern.RangeLoopEnds` | libAfterBase/regexp.c:204-207 | counting a range in an unsigned character passes its end exactly if the end is below 255 |
| `CompiledPattern.MakeOffsets` | libAfterBase/regexp.c:553-590 | offsets are the widths to the left and right of each row; a side is fixed exactly if no star is on it |
| `PatternLanguage.LangWidth` | libAfterBase/regexp.c:846-849 | a text of the language is at least as long as the pattern is wide, and exactly as long without a star |
| `PatternLanguage.LangJoin` | libAfterBase/regexp.c:803-814 | texts of two patterns, one after the other, are texts of the patterns one after the other |
| `PatternLanguage.LangSplit` | libAfterBase/regexp.c:803-814 | and every text of the joint pattern splits that way |
| `PatternPrinter.PrintSymbol` | libAfterBase/regexp.c:447-535 | prints a symbol with its brackets, negation mark, ranges and commas |
| `PatternPrinter.FlattenRow` | libAfterBase/regexp.c:447-535 | prints a row from its reversed storage in its own order |
| `PatternPrinter.FlattenWildRegExp` | libAfterBase/regexp.c:447-549 | prints all parts with their leads |
| `PatternExamples.PrintsLiterally` | libAfterBase/regexp.c:436-549 | a pattern with all kinds of symbols is printed as `\*[a-c,eg,p-r]??[!\!]\*` |
| `PatternPrinter.CompileWildRegExp` | libAfterBase/regexp.c:593-666 | parsing, printing and placing together give a compiled pattern fit for the matcher and its text |
| `PatternRoundTrip.PatternRead` | libAfterBase/regexp.c:98-549 | the printed text of a pattern without gaps and with its backslashes completed reads as that pattern: leads, symbols and negation marks |
| `PatternRoundTrip.RawIsFixpoint` | libAfterBase/regexp.c:436-549 | so the text kept with such a pattern prints as itself |
| `PatternBackslash.ReadsBackExactly` | libAfterBase/regexp.c:98-549 | the printed text of a pattern reads back as the pattern exactly if it has no gap and every backslash stands in front of a character that completes it |
| `PatternBackslash.CompileAgain` | libAfterBase/regexp.c:593-666 | for any text that parses: parsing the printed form gives the same pattern exactly under that condition |
| `PatternBackslash.ClassMisread` | libAfterBase/regexp.c:98-182 | a class that prints a backslash right before its closing bracket character is read without that character |
| `PatternBackslash.RowForced` | libAfterBase/regexp.c:144-182 | a row that reads back as it was printed has its backslashes completed and ends where its text ends |
| `PatternCounting.PatternTakes` | libAfterBase/regexp.c:98-434 | the parser takes a bracket of the text for every class and every bracket, and two backslashes for every backslash |
| `PatternCounting.PatternPrinted` | libAfterBase/regexp.c:436-549 | the printer writes no more of them than that |
| `PatternCounting.CanonWritesNoMore` | libAfterBase/regexp.c:216-288 | a canonical code writes a character out at most as often as the code it came from |
| `PatternBackslash.OneOfTwoReadsBack` | libAfterBase/regexp.c:436-445 | a lone backslash does not survive the round trip; in front of an exclamation mark it does |
| `Matcher.CompareRow` | libAfterBase/regexp.c:776-801 | comparing a row right to left gets past its start exactly if every character fits its symbol |
| `Matcher.FindWindow` | libAfterBase/regexp.c:755-772 | the places to be tried for a row, or none, from offsets and flags |
| `MatchMeaning.WindowMeans` | libAfterBase/regexp.c:755-772 | those places leave room on both sides; where there is but one way to fit the text, they are that one place |
| `Matcher.MatchSubstring` | libAfterBase/regexp.c:736-829 | on any part and in either direction, 0 exactly if the tests, window, places and skips lead to a hit; the search ends |
| `Matcher.MatchWildRegExp` | libAfterBase/regexp.c:831-852 | for every compiled pattern and text: 0 exactly if it matches; then, if nothing is hidden, the text is in the language of a pattern without negation; with at most one star, exactly for those |
| `MatchMeaning.MatchMeans` | libAfterBase/regexp.c:736-852 | a match is in the language of the pattern searched for, without negated symbols; with at most one star in it, or on a text as short as can be, every text of that language matches |
| `MatchMeaning.AnswerIsSound` | libAfterBase/regexp.c:736-829 | a hit of any call means that the parts it covers have the text |
| `MatchMeaning.AnswerIsComplete` | libAfterBase/regexp.c:736-829 | a text that fits the parts in one way only is hit |
| `MatchMeaning.SoughtIsWritten` | libAfterBase/regexp.c:736-829 | with nothing hidden, the pattern searched for has no text that the written one lacks; with at most one star they are the same |
| `PatternExamples.SecondStarIsLost` | libAfterBase/regexp.c:803-826 | `*a*b` has the text `axb` and the matcher does not find it |
| `PatternExamples.SkipTableLoses` | libAfterBase/regexp.c:818-826 | `*aab*c` has the text `aaabc` and the matcher does not find it, as the skip table goes past the place |
| `PatternExamples.NegationNeverFits` | libAfterBase/regexp.c:783-806 | `[!a]` has the text `b` and the matcher does not find it |
| `PatternExamples.RangeToTheTop` | libAfterBase/regexp.c:197-213 | `[a-\xff]` compiles to a range on which the loop over its characters never ends |
| `MatchComplete.SkipIsSafe` | libAfterBase/regexp.c:818-826 | a row in which no character belongs to two symbols never moves past the next place where it fits |
| `MatchComplete.SkipAfterHit` | libAfterBase/regexp.c:818-826 | after fitting in vain it moves past its whole length, and exactly one more if no character belongs to two symbols |
| `MatchComplete.SearchReaches` | libAfterBase/regexp.c:773-827 | so the search comes to a place where the row and its sides fit, or hits before, even if places before it fit in vain, as long as these are more than the length of the row away |
| `MatchComplete.FindsAllItSeeks` | libAfterBase/regexp.c:736-852 | under the conditions below, every text of the pattern searched for is found, with any number of stars |
| `MatchSought.SoughtExactly` | libAfterBase/regexp.c:736-829 | every text of the written pattern is one of the pattern searched for exactly if no row loses the `*` in front of it |
| `MatchLosses.JumpsOver` | libAfterBase/regexp.c:818-826 | a row with a character in two symbols goes past its place if the right number of other characters stands in front of it |
| `MatchLosses.TwinLoses` | libAfterBase/regexp.c:736-852 | for every pattern with a movable row that repeats a character, and that no row before it holds in place: a text of the pattern that is not found |
| `MatchLosses.FoundThenHarmless` | libAfterBase/regexp.c:736-852 | a pattern whose texts are all found meets the conditions, whatever its rows |
| `MatchLosses.FindsAllExactly` | libAfterBase/regexp.c:736-852 | where no row stands at a fixed distance from a movable one: every text of the pattern is found exactly if no symbol looked at is negated, no row loses its `*`, and no movable row has a character in two symbols |
| `MatchLosses.StarredWordExactly` | libAfterBase/regexp.c:736-852 | for a word between two stars: exactly if no character belongs to two of its symbols |
| `PatternMatching.RightExactly` | libAfterBase/regexp.c:736-852 | for such patterns without negation: what is found is just the language exactly if besides nothing is hidden |
| `PatternMatching.FindsExactlyItsLanguage` | libAfterBase/regexp.c:593-852 | the same for the pattern of any text |
| `PatternMatching.SoundExactly` | libAfterBase/regexp.c:736-852 | for patterns without negation: every text found is in the language exactly if no part beyond a gap has a symbol |
| `PatternMatching.FindsOnlyItsLanguage` | libAfterBase/regexp.c:593-852 | the same for the pattern of any text |
| `PatternMatching.FilledClassesHideNothing` | libAfterBase/regexp.c:384-434 | if every class of a text has something in it, its pattern hides nothing |
| `PatternMatching.CompileAndMatch` | libAfterBase/regexp.c:668-679 | from the text of a pattern to the answer for a string: exact, sound if nothing is hidden, and the language itself with at most one star or if the conditions of RightExactly are met |
| `PatternMatching.MatchStringList` | libAfterBase/regexp.c:854-889 | 0 exactly if a string before the first NULL matches |
| `PatternExamples.EmptyClassHidesWhatIsBefore` | libAfterBase/regexp.c:750-752 | the pattern of `a*[]b` matches `xb`, which its language does not have |
| `PatternExamples.WrongAnswers` | libAfterBase/regexp.c:593-852 | from the texts `a*[]b`, `*a*b`, `*aab*c` and `[!a]`: the answers 0, -1, -1 and -1 |
| `Common.Pool.Discard` | libAfterBase/ashash.c:39-50 | keeps a discarded node unless the pool is full, as in libAfterBase/aslist.c:38-45 |
| `HashTable.TakeItem` | libAfterBase/ashash.c:210-222 | the last discarded item, or a new one; never one that is still pooled |
| `HashTable.HashTable.constructor` | libAfterBase/ashash.c:84-117 | a new table is valid and has no entries |
| `HashTable.HashTable.Add` | libAfterBase/ashash.c:163-236 | adds to the map unless an entry compares equal, with the four result codes; chains, counters and pool stay consistent and no item is lost |
| `HashTable.HashTable.Get` | libAfterBase/ashash.c:284-325 | finds the data of the entry that compares equal, and nothing else |
| `HashTable.HashTable.Remove` | libAfterBase/ashash.c:336-373 | takes that entry out of the map; its item goes to the pool |
| `HashTable.PlaceAnswers` | libAfterBase/ashash.c:163-185 | stopping at the first item that is not smaller settles whether, and which, entry compares equal |
| `HashTable.ShapeInsert` | libAfterBase/ashash.c:163-185 | inserting at that place keeps every chain ascending and every value in its own bucket |
| `HashTable.ShapeRemove` | libAfterBase/ashash.c:336-373 | so does removing |
| `HashTable.Serve` | libAfterBase/ashash.c:163-373 | every run of requests answers, and leaves behind, what a map would |
| `HashTable.StepIsSettled` | libAfterBase/ashash.c:163-373 | the map before a request settles the reply and the map after it |
| `HashTable.RunIsSettled` | libAfterBase/ashash.c:163-373 | the map at the start settles all replies and maps of a run |
| `HashTable.AddThenGet` | libAfterBase/ashash.c:163-325 | after adding, the value is found with the data that was there first, every other value as before, and the code of the addition says which |
| `HashTable.RemoveThenGet` | libAfterBase/ashash.c:284-373 | after removing, the value is not found, every other is as before, and the removal returned what was found |
| `HashListing.SortItems` | libAfterBase/ashash.c:375-422 | lists exactly the smallest entries, as many as asked for, ascending, each once, with their data |
| `HashListing.PickSmallest` | libAfterBase/ashash.c:397-404 | finds the chain with the smallest head |
| `HashListing.Trim` | libAfterBase/ashash.c:411-417 | narrows the window without leaving out a chain that has anything left |
| `HashListing.SmallestIsFirst` | libAfterBase/ashash.c:375-422 | the smallest head comes before all that is left in any chain |
| `HashListing.ListedGrows` | libAfterBase/ashash.c:396-417 | one round keeps: listed ascending, before all that is left, nothing lost |
| `HashIteration.ListItems` | libAfterBase/ashash.c:424-450 | lists the first entries of the walk through the buckets with their data |
| `HashIteration.EveryEntryOnce` | libAfterBase/ashash.c:424-450 | that walk meets every entry exactly once |
| `HashIteration.WalkIsInOrder` | libAfterBase/ashash.c:424-450 | bucket by bucket, and each from its smallest entry on |
| `HashIteration.HashIterator.constructor` | libAfterBase/ashash.c:453-473 | starts at the first entry of the walk; false exactly for an empty table |
| `HashIteration.HashIterator.Next` | libAfterBase/ashash.c:475-505 | goes one entry on; false exactly at the end |
| `HashIteration.HashIterator.Current` | libAfterBase/ashash.c:533-552 | value and data of the entry at the current place |
| `HashIteration.WalkAll` | libAfterBase/ashash.c:453-552 | an iterator run from its start to its end yields the whole walk, each entry with its data |
| `OptionKey.HashValue` | libAfterBase/ashash.c:716-737 | the key depends on the option's first eight characters only, in lower case, and does not overflow |
| `OptionKey.WeightWrittenOut` | libAfterBase/ashash.c:716-737 | the key is the sum of the first eight characters, each times the power of two of its place |
| `OptionKey.Compare` | libAfterBase/ashash.c:739-775 | the loop computes the recursive comparison, which is 0 exactly if both strings name the same option, ignoring case |
| `OptionKey.NotAnOrder` | libAfterBase/ashash.c:753-767 | `x^` and `xa` are each less than the other |
| `OptionKey.TameAntisymmetric` | libAfterBase/ashash.c:739-775 | among strings whose option ends with the string or at a character below `0`, comparing is antisymmetric |
| `OptionKey.TameTransitive` | libAfterBase/ashash.c:739-775 | and transitive |
| `OptionKey.ComparesByFirstDifference` | libAfterBase/ashash.c:739-775 | they are ordered by the first place where their options differ, letters in upper case |
| `OptionKey.TameExactly` | libAfterBase/ashash.c:739-775 | a string fits into that order exactly if it is such a string itself |
| `OptionKey.OptionTablesAreOrdered` | libAfterBase/ashash.c:716-775 | a table keyed by such strings is ordered as all operations and the listing require |
| `OptionKey.OptionIsPrefix` | libAfterBase/ashash.c:724-731 | the option is the longest prefix of option characters |
| `OptionKey.OptionSpelled` | libAfterBase/ashash.c:720-731 | it has the letters of the string in lower case, its digits, `~` and `_` |
| `OptionKey.OptionEnds` | libAfterBase/ashash.c:720-731 | and ends at the first character that is none of these |
| `OptionKey.OptionsAreCongruent` | libAfterBase/ashash.c:716-775 | options that compare equal share a bucket, as the table's searches need |
| `LayoutGrid.Layout.constructor` | libAfterBase/layout.c:45-61 | an empty grid of the given size |
| `LayoutGrid.Layout.Insert` | libAfterBase/layout.c:105-164 | the element stands in its slot, row and column cut to 63 and the spans to what is left of 64, in place of what was there; all row and column links and the count follow |
| `LayoutGrid.WalksMeet` | libAfterBase/layout.c:139-158 | the row walk and the column walk meet exactly if the slot is taken |
| `LayoutGrid.RightAfterInsert` | libAfterBase/layout.c:139-159 | inserting changes the right link of the last element before the slot and no other |
| `LayoutGrid.RightAfterRemove` | libAfterBase/layout.c:234-240 | removing makes it lead to what the removed element led to |
| `LayoutGrid.Layout.FindContext` | libAfterBase/layout.c:212-222 | the first element of the context, row by row from the left; null only if there is none |
| `LayoutGrid.Layout.Extract` | libAfterBase/layout.c:224-245 | takes that element out; every other element keeps its slot |
| `LayoutGrid.Layout.Disable` | libAfterBase/layout.c:260-281 | moves an element from the grid to the head of the switched-off list |
| `LayoutGrid.Layout.Enable` | libAfterBase/layout.c:283-300 | puts a switched-off element back into its slot, with its span; the grid keeps its size |
| `LayoutGrid.Layout.DisableThenEnable` | libAfterBase/layout.c:260-300 | off and on again restores the map, the switched-off list, the count and every link |
| `LayoutGrid.Layout.SameSlotsSameLinks` | libAfterBase/layout.c:105-300 | a layout with the same elements in the same slots as at another moment has the same heads and links as then, whatever was done in between |
| `LayoutGather.Gather` | libAfterBase/layout.c:166-197 | one list through all elements, each once, rows last to first and then the switched-off ones; the grid is empty |
| `LayoutGather.GatheredMembers` | libAfterBase/layout.c:166-197 | the gathered list has exactly the elements of the rows so far and those switched off |
| `LayoutGather.GatheredInOrder` | libAfterBase/layout.c:166-197 | row by row from the last to the first, each from the left, and behind them the switched-off ones as they were |
| `LayoutGather.RowMembers` | libAfterBase/layout.c:174-192 | a row leads through exactly the elements that stand in it |
| `LayoutSizes.AdjustSizes` | libAfterBase/layout.c:776-849 | the four loops in place compute the four passes, with 32-bit ratio arithmetic |
| `LayoutShares.FixedColumn` | libAfterBase/layout.c:783-805 | a fixed column gets what it wants as far as the total goes, one after the other |
| `LayoutShares.SqueezedColumn` | libAfterBase/layout.c:783-815 | where the shares use up the room, a flexible column keeps size times new total by old total, as far as the room goes |
| `LayoutShares.StretchedColumn` | libAfterBase/layout.c:783-848 | where room is left, the final size of every flexible column in closed form: its share, what empty columns get, and its part of the rest |
| `LayoutShares.RoomForAll` | libAfterBase/layout.c:776-849 | if all wishes and shares fit and no column is empty: a fixed column ends at what it wants, a flexible one at its share and an equal part of what is left |
| `LayoutShares.PartsAreKept` | libAfterBase/layout.c:776-849 | with only flexible columns that fill the old total: each ends at its part of the new one or a pixel more, the last less than a pixel per column off |
| `LayoutSizes.SpaceIsConserved` | libAfterBase/layout.c:776-849 | sizes add up to the new total if any column is flexible, else to the lesser of total and what the fixed ones want |
| `LayoutSizes.WhenSizesStayNonNegative` | libAfterBase/layout.c:776-848 | from the inputs: a size goes negative exactly if fewer pixels than flexible columns are left over by the shares, and the last of these columns has too little to pay for the others |
| `LayoutSizes.ShareSign` | libAfterBase/layout.c:807-815 | a share is negative exactly if the old total is 1 and the 32-bit product is 2^31 or more |
| `LayoutSizes.ShareCanBeNegative` | libAfterBase/layout.c:776-848 | 1000 and 0 stretched from a total of 1 to 3000000: the first ends up negative |
| `LayoutSizes.EmptyColumnCanMissItsPart` | libAfterBase/layout.c:806-826 | 1, 0 and 0 of 100 squeezed to 3 end up at 2, 2 and -1: a column that has shrunk to nothing takes the part of an empty one |
| `LayoutSizes.FixedStayNonNegative` | libAfterBase/layout.c:776-848 | without a flexible column no size is negative |
| `LayoutSizes.LastColumnCanGoNegative` | libAfterBase/layout.c:828-848 | 2, 2 and 1 squeezed from 5 to 3 end up at 2, 2 and -1 |
| `LayoutSizes.SpreadGains` | libAfterBase/layout.c:828-848 | what each column gains in the last pass |
| `LayoutSizes.SameTotalChangesNothing` | libAfterBase/layout.c:776-849 | resizing to the same total leaves columns alone that fill it |
| `LayoutResize.ApplySizes` | libAfterBase/layout.c:851-866 | every column ends at the sum of the sizes so far, and starts a gap after the one before it |
| `LayoutResize.PlaceElems` | libAfterBase/layout.c:921-946 | every element of the grid covers its slot and span, border included |
| `LayoutResize.MoveResize` | libAfterBase/layout.c:868-951 | both directions and the element pass together, or no change if nothing is to be done; with a flexible column, elements in the last one end at width less east margin and border, in the first one start at west margin and border, and so for rows |
| `LayoutResize.LastColumnMeetsTheEdge` | libAfterBase/layout.c:868-951 | with a flexible column, an element reaching the last column ends at west margin, border and inner width |
| `LayoutResize.AxisFills` | libAfterBase/layout.c:868-951 | from the total passed in: columns start at margin and border and end at the total less the other margin and border |
| `LayoutResize.FirstStartsAtStart` | libAfterBase/layout.c:851-866 | behind nothing but empty columns a column starts at the start, without a gap |
| `LayoutResize.NextStartsAfterGap` | libAfterBase/layout.c:851-866 | of two columns with only empty ones between, the second starts the spacing after the end of the first |
| `LayoutResize.SeparateColumnsDoNotOverlap` | libAfterBase/layout.c:868-951 | with no negative size, elements on separate columns do not overlap |
| `LayoutResize.GapsSeparate` | libAfterBase/layout.c:851-866 | and the spacing lies between them |
| `GridLines.AddToList` | libAfterBase/layout.c:976-1030 | the list in memory becomes the list with the new line merged, combined or inserted |
| `GridLines.TakenUp` | libAfterBase/layout.c:992-1020 | a line that is taken up: the first that can take it spans both, each gravity is the smaller if either is negative and else the larger; all other lines stay |
| `GridLines.PutInOrder` | libAfterBase/layout.c:989-1029 | a line that is not goes right behind the last one whose real band is not beyond its own |
| `GridLines.Grid.AddGridLine` | libAfterBase/layout.c:976-1030 | the list of the line's direction becomes the list with the new line, the other stays; a line is returned exactly if it was put in |
| `GridLines.StaysSorted` | libAfterBase/layout.c:989-1029 | the list stays sorted by real band |
| `GridLines.CoversExactly` | libAfterBase/layout.c:989-1029 | the covered points of every band and kind become the old ones and those of the new segment |
| `GridLines.BuiltListIsUnion` | libAfterBase/layout.c:976-1030 | a list built line by line is sorted and covers exactly the union |
| `GridLines.CombiningIsCommutative` | libAfterBase/layout.c:1007-1015 | gravities combine in any order to the same |
| `GlyphCode.Compress` | libAfterImage/asfont_glyph.c:47-102 | the code is the greedy one of the picture in row order, runs of up to 64 empty or full pixels in one byte; it expands to every pixel, each restored; never more bytes than pixels |
| `GlyphCode.PackedExpands` | libAfterImage/asfont_glyph.c:47-102 | that code expands to all pixels, each restored |
| `GlyphCode.CodeByBits` | libAfterImage/asfont_glyph.c:57-74 | the bits of a code byte as the writer sets them |
| `GlyphCode.PixelsByBits` | libAfterImage/asfont.c:846-856 | and as the reader takes them apart |
| `GlyphCode.RestoredIsClose` | libAfterImage/asfont_glyph.c:56-61 | a restored pixel is off by at most one; empty and full ones are exact |
| `GlyphCode.EncodesRun` | libAfterImage/asfont_glyph.c:78-79 | a pixel that continues a run keeps what is written and pending equal to the pixels so far |
| `GlyphCode.EncodesFlush` | libAfterImage/asfont_glyph.c:64-74 | writing the pending run out makes the code complete |
| `GlyphCode.Render` | libAfterImage/asfont.c:829-867 | the reader raises exactly the pixels of the picture's place to what the code expands to, at the given strength |
| `GlyphCode.ShadeMeans` | libAfterImage/asfont.c:857-861 | below full strength a lit pixel becomes min(255, v * ratio / 256 + 1); never more than it is, and never less with more strength |
| `GlyphCode.DrawnMeans` | libAfterImage/asfont.c:860-861 | what is on the canvas ends up at the brighter of the two |
| `GlyphScale.ScaleRow` | libAfterImage/asfont_glyph.c:115-140 | a row in place becomes the floored means of its groups; no other byte changes |
| `GlyphScale.PixelIsMeanOfStretch` | libAfterImage/asfont_glyph.c:115-140 | pixel k is the floored mean of the columns from k * from / to up to, and not with, (k + 1) * from / to, both rounded up |
| `GlyphScale.ScaleDown` | libAfterImage/asfont_glyph.c:104-153 | the buffer becomes the dense picture of the scaled rows |
| `GlyphScale.ClosesGroup` | libAfterImage/asfont_glyph.c:128-138 | the error test closes a group exactly where the next column falls into the next group |
| `GlyphScale.EndsBalanced` | libAfterImage/asfont_glyph.c:122-139 | the last column closes the last group |
| `GlyphScale.GroupStep` | libAfterImage/asfont_glyph.c:122-139 | groups are consecutive |
| `GlyphScale.GroupExists` | libAfterImage/asfont_glyph.c:122-139 | every column falls into one of the groups |
| `GlyphScale.GroupsAreFilled` | libAfterImage/asfont_glyph.c:122-139 | no group is empty |
| `GlyphScale.GroupComplete` | libAfterImage/asfont_glyph.c:128-138 | when a group closes its sum and count are those of the whole group |
| `WireFormat.Memory32RoundTrip` | libAfterBase/socket.h:25-26 | memory and byte order conversions of 32-bit integers undo themselves |
| `WireFormat.Memory16RoundTrip` | libAfterBase/socket.h:27-28 | and of 16-bit integers |
| `WireFormat.NetIsBigEndian` | libAfterBase/socket.h:18-28 | the converted integer lies in memory most significant byte first |
| `WireFormat.Net16IsBigEndian` | libAfterBase/socket.h:18-28 | so does one of 16 bits |
| `SocketWriter.SocketBuffer.BufferedWrite` | libAfterBase/socket.c:182-211 | what is on the wire and in the buffer grows by exactly the data; the buffer is never left full |
| `SocketWriter.SocketBuffer.WriteInt32` | libAfterBase/socket.c:223-238 | writes integers in network order |
| `SocketWriter.SocketBuffer.WriteInt16` | libAfterBase/socket.c:240-255 | writes 16-bit integers in network order |
| `SocketWriter.SocketBuffer.WriteString` | libAfterBase/socket.c:260-273 | writes the length and then the bytes; an empty string is its length |
| `SocketWriter.SocketBuffer.Flush` | libAfterBase/socket.c:213-217 | everything written is on the wire |
| `SocketWriter.WriteAll` | libAfterBase/socket.c:182-273 | any run of messages and flushes: nothing lost, repeated or reordered |
| `SocketWriter.BytesOnTheWire` | libAfterBase/socket.c:182-273 | each message in bytes: integers with the most significant byte first, a text behind its length in four bytes |
| `SocketReader.ProtocolItem.Fill` | libAfterBase/socket.c:383-403 | the read loop: bytes move from the stream to the item in order, until it is full or the network waits or fails |
| `SocketReader.ProtocolItem.Read` | libAfterBase/socket.c:362-434 | one call: resumes, converts, takes a string's length; bytes taken and to come are the same up to strings of length zero |
| `SocketReader.Receive` | libAfterBase/socket.c:362-434 | calls until done, over any schedule of chunks and interruptions |
| `SocketReader.ReceiveInts32` | libAfterBase/socket.c:362-434 | reads back the integers written, consumes exactly their bytes, and succeeds if enough chunks come |
| `SocketReader.ReceiveInts16` | libAfterBase/socket.c:362-434 | the same for 16-bit integers |
| `SocketReader.ReceiveText` | libAfterBase/socket.c:362-434 | reads back the next non-empty string within its bound, skipping empty ones before it |
| `SocketReader.EmptiesAreSkipped` | libAfterBase/socket.c:424-432 | strings of length zero leave no trace |
| `SocketRuns.ReceiveAll` | libAfterBase/socket.c:182-434 | the messages written arrive, each once and in order, over any chunks; all of them if enough chunks come, else the first of them |
| `SocketRuns.NextMessage` | libAfterBase/socket.c:362-434 | what the wire holds next for a reader: empty strings, then the next message with something in it |
| `TimerQueue.Timers.New` | libAfterBase/timer.c:56-75 | a new alarm in front, due the given time after now |
| `TimerQueue.Timers.Extract` | libAfterBase/timer.c:77-102 | takes exactly this timer out of the list, if it is there |
| `TimerQueue.SubtractTimes` | libAfterBase/timer.c:115-121 | the difference of two moments, microseconds back in their range |
| `TimerQueue.Timers.DelayTillNextAlarm` | libAfterBase/timer.c:132-162 | the time to the earliest alarm, or one microsecond if it is overdue |
| `TimerQueue.SoonestIsLeast` | libAfterBase/timer.c:132-162 | the moment it goes by is that of the earliest alarm, or the horizon if all lie past it |
| `TimerQueue.Timers.Handle` | libAfterBase/timer.c:164-189 | fires exactly if an alarm is due: the earliest, of equals the one set first; it leaves the list and its data goes to the handler |
| `TimerQueue.Timers.RemoveByData` | libAfterBase/timer.c:191-205 | takes out the alarm with this data that was set last |
| `TimerQueue.Timers.FindData` | libAfterBase/timer.c:216-224 | finds that alarm, or there is none |
| `TimerQueue.NextIsUnique` | libAfterBase/timer.c:170-177 | which alarm fires next is settled by the list |
| `TimerQueue.NextWasFirst` | libAfterBase/timer.c:170-177 | it is the first that was set for its moment |
| `TimerQueue.Drain` | libAfterBase/timer.c:164-189 | handling alarms at one moment till none is due fires one next alarm after the other |
| `TimerQueue.FiresWhatIsDue` | libAfterBase/timer.c:164-189 | a drain fires all that is due, each once, and nothing else |
| `TimerQueue.FiresInOrder` | libAfterBase/timer.c:164-189 | in the order of the moments |
| `TimerQueue.FiresFirstSetFirst` | libAfterBase/timer.c:164-189 | for one moment, in the order they were set |
| `TimerQueue.WaitAndHandle` | libAfterBase/timer.c:132-189 | waiting for the delay is enough to fire exactly if an alarm is due by the horizon, or by one microsecond from now past it |
| `TimerQueue.HorizonIsNotEnough` | libAfterBase/timer.c:132-189 | an alarm past the horizon is waited for in vain |
| `TimerRuns.Run` | libAfterBase/timer.c:56-205 | any requests at any moments: replies, and states from the alarms at the start to those at the end, each step as stated |
| `TimerRuns.RunIsSettled` | libAfterBase/timer.c:56-205 | the alarms at the start and the requests settle every reply and every state |
| `TimerRuns.SetThenCancel` | libAfterBase/timer.c:56-205 | an alarm that is set and taken out by its data leaves everything as it was |
| `TimerRuns.SetThenTick` | libAfterBase/timer.c:56-189 | with nothing else due, the alarm just set fires exactly if its time has passed, and its data goes to the handler |
| `TimerRuns.RunBalances` | libAfterBase/timer.c:56-205 | alarms set are those left, fired or taken out, each once |
| `TimerRuns.NoneFiresEarly` | libAfterBase/timer.c:164-189 | over a run no alarm fires before its moment |
| `TimerRuns.NoneFiresTwice` | libAfterBase/timer.c:164-189 | none fires more often than it was set |
| `TimerRuns.HandlersAreCalled` | libAfterBase/timer.c:164-189 | handlers are called with the data of the alarms that fire, in that order |
| `BiDirList.AllocElem` | libAfterBase/aslist.c:47-56 | the last discarded element, cleared, or a new one; never one that is still pooled |
| `BiDirList.BiDirList.Append` | libAfterBase/aslist.c:139-156 | data at the end; both chains, ends and count agree |
| `BiDirList.BiDirList.Prepend` | libAfterBase/aslist.c:158-175 | data at the front |
| `BiDirList.BiDirList.InsertAfter` | libAfterBase/aslist.c:177-199 | data right after an element, or at the end |
| `BiDirList.BiDirList.InsertBefore` | libAfterBase/aslist.c:201-223 | data right before an element, or at the front |
| `BiDirList.BiDirList.Destroy` | libAfterBase/aslist.c:225-242 | takes out this element, destroys its data if there is any |
| `BiDirList.BiDirList.Pop` | libAfterBase/aslist.c:244-262 | moves an element to the front; the others keep their order |
| `BiDirList.BiDirList.Discard` | libAfterBase/aslist.c:264-275 | takes out the first element with this data, which goes to the destroy function |
| `BiDirList.BiDirList.ExtractFirst` | libAfterBase/aslist.c:277-288 | takes out the first element and returns its data undestroyed |
| `BiDirList.BiDirList.ExtractLast` | libAfterBase/aslist.c:290-301 | the same for the last |
| `BiDirList.BiDirList.Dedup` | libAfterBase/aslist.c:338-354 | the two nested loops take out every later element that compares equal, and hand over its data: for each element that stays, in the order of the list |
| `BiDirList.LinkedInsert` | libAfterBase/aslist.c:177-223 | the link writes that keep the list linked both ways with one more element |
| `BiDirList.LinkedRemove` | libAfterBase/aslist.c:225-242 | and with one less |
| `BiDirList.NoPairIsLeft` | libAfterBase/aslist.c:338-354 | no two remaining elements compare equal, whatever the compare function |
| `BiDirList.DedupKeepsFirstOccurrences` | libAfterBase/aslist.c:338-354 | if comparing equal is transitive, what remains are the first occurrences in order |
| `BiDirList.DedupSplits` | libAfterBase/aslist.c:338-354 | what remains and what is taken out make up the list, whatever the compare function |
| `GeometryText.ParseSignedInt` | libAfterBase/parse.c:849-886 | skips blanks, tells the signs apart, reads the digits and returns what follows |
| `GeometryText.ParseGeometry` | libAfterBase/parse.c:968-1026 | size and offsets of a text, each with its flags |
| `GeometryText.ReadsOne` | libAfterBase/parse.c:849-886 | a sign and digits are read as that sign and number, up to the next non-digit |
| `GeometryText.BlanksAreSkipped` | libAfterBase/parse.c:855 | blanks in front of a number make no difference |
| `GeometryText.SecondSignCounts` | libAfterBase/parse.c:858-871 | of two signs in a row the second is that of the number |
| `GeometryText.DoubledSignIsZero` | libAfterBase/parse.h:63-64 | a sign in front of another stands for an x of 0 on its side: `--10` is `-0-10`, `-+10` is `-0+10`, for all digits and behind every size |
| `GeometryText.SizeRead` | libAfterBase/parse.c:968-989 | width and height are read in front of any offsets |
| `GeometryText.NumberOfDecimal` | libAfterBase/parse.c:1030-1040 | a decimal reads back as its number |
| `GeometryText.OffsetsRoundTrip` | libAfterBase/parse.c:990-1019 | offsets read back, with -0, and with an X left out before a Y |
| `GeometryText.GeometryRoundTrip` | libAfterBase/parse.c:968-1026 | the text of every geometry reads back as the geometry in normal form |
| `GeometryPrinter.IntToBufferEnd` | libAfterBase/parse.c:1030-1040 | the decimal stands at the end of the buffer with its NUL; nothing else changes |
| `GeometryPrinter.FormatGeometry` | libAfterBase/parse.c:1103-1140 | what is printed, as a function of the geometry and of what the buffer held before |
| `GeometryPrinter.FirstFieldIsRight` | libAfterBase/parse.c:1109-1114 | the first number of a text is right whatever the buffer held |
| `GeometryPrinter.LaterFieldIsTooLarge` | libAfterBase/parse.c:1115-1136 | a later number is too large if the buffer held digits |
| `GeometryPrinter.PrintedOnZeros` | libAfterBase/parse.c:1103-1140 | in a buffer of zeros, a geometry whose numbers do not get shorter reads back as itself |
| `GeometryPrinter.PrintsOnlyWidthsReliably` | libAfterBase/parse.c:1103-1140 | the round trip holds for every buffer exactly if no height and no offset is printed |

## Left out

- MatchLosses.FindsAllExactly: for patterns such as `*ba?a*` and `*ab?c*`, where another row stands at a fixed distance from a movable one, only one direction is stated (MatchLosses.FoundThenHarmless): which of them lose no text depends on how the two rows overlap. What each text is answered is stated for them too (MatchAnswer.Matches).
- PatternCompiler.ParseRegExp: and with it ParseWildRegExp and CompileWildRegExp take the texts on which the source is defined. What is left out: a byte 1 or a range for whose mark one of the ends is missing, behind which the source reads past the end of the code; a symbol of 255 alone, whose code is empty and in front of which it reads before its buffer; and a class with all of 253, 254 and 255, on which it does not end.
- PatternPrinter.CompileWildRegExp: texts of more than 253 characters, which are cut, are not modelled, nor is the crash on an empty pattern.
- POSIX patterns (regcomp, regexec), comparing patterns for sorting, and the older matcher kept at the end of the file.
- HashTable.HashTable.Add: the calls with a NULL table are not modelled; the destroy function, which may call back, is left out.
- OptionKey.Compare: strings are ASCII and not NULL, and the key has 16 bits.
- HashIteration.HashIterator.Next: the table does not change while it is walked; remove_curr_hash_item is not modelled.
- HashListing.SortItems: the temporary array of heads is a sequence.
- LayoutGrid.Layout.Insert: spans are at least 1; with a span of 0 in the last slot the source writes past its arrays. The arrays of rows and columns are sequences that are replaced as a whole.
- LayoutGrid.Layout.Disable: the loops over all elements of a context in disable_layout_context and enable_layout_context are not modelled, only their steps.
- LayoutResize.MoveResize: the wanted sizes are inputs, as collect_sizes is not modelled; the 16-bit fields of an element do not cut their values, and sums do not overflow.
- LayoutSizes.WhenSizesStayNonNegative: for old sizes that are not negative and, of an old total of 1, shares that are not either (LayoutSizes.ShareSign); which sizes end up negative if a share is, is shown by an example only.
- LayoutShares.FixedColumn: this and the closed forms beside it are for sizes that are not negative and products below 2^31; what happens beyond that is part of LayoutSizes.AdjustSizes, and its sums and signs are stated in LayoutSizes.
- GridLines.AddToList: coordinates do not overflow; make_layout_grid is not modelled.
- GlyphCode.Compress: width and height are at least 1, as the source reads a first pixel without asking.
- GlyphScale.ScaleDown: the height is at least 2; packing a single row would read past the picture.
- SocketWriter.SocketBuffer.BufferedWrite: a write to the socket takes all it is given (SocketWriter.SocketBuffer.Send); partial writes and write errors are not modelled.
- SocketReader.ProtocolItem.Read: the time-out cannot happen, since the time of the last read is set just before it is compared; the step from item to item in socket_read_proto, socket set-up and the FIFO stubs are not modelled. The host is little-endian. The item's memory is a sequence.
- TimerQueue.Timers.New: the clock is a parameter; moments do not overflow, and what a handler does is left out.
- BiDirList.BiDirList.Dedup: the destroy function is recorded, not run. The bubble sort, which leaves a back link behind, purging, and iterating with a callback are not modelled.
- GeometryText.ParseGeometry: all results are asked for, and numbers do not overflow 32 bits.
- GeometryPrinter.FormatGeometry: string_from_int and the hexadecimal printers are not modelled.
- Colours, parse_math and the token helpers of parse.c, asvector.c, fs.c, the widgets of libASGTK and the parsers of libAfterConf.
