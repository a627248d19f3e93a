# Verified models of the COORD-Harness publication tools and usage logic

COORD-Harness ships a set of tools that decide what may be published and in which
form, and a client that shows usage figures. This project models the parts of them
with the most intricate behaviour and proves what they promise, for every input,
every run and every point of failure.

| module | what it models |
|---|---|
| `LiteralRuns`, `PatternRuns`, `PatternLimits`, `PatternWords` | the scanner that reads off a rename pattern the texts it must match: a syntax tree for patterns, its written form, what it matches, and the scan |
| `SourceTokens` | the tokens of a rename vocabulary, their minimisation, and the search for them in every tracked file |
| `Png` | the publication gate's PNG reader and the documentation validator's independent one |
| `SwiftProse`, `HashProse` | the two comment strippers |
| `FileTree`, `Placing`, `Layout`, `Publish`, `PortRun` | the transaction that publishes a staged tree or restores the prior one, and the run around it |
| `Edits` | the declared replacements, applied once before and once after the comments are stripped |
| `Breakdown` | the streaming top 25 of a usage breakdown |
| `LastGood`, `LastGoodRules` | the dashboard state that keeps the last good snapshot and retains quota windows until their reset, and its rules in the fields of a snapshot |
| `Decimal`, `Digits` | printing an amount of nanos with separators and two decimals |
| `OutputBudget` | clipping a text to a number of UTF-8 bytes |
| `MarkdownMask`, `MarkdownBlocks` | masking code in Markdown and finding the links outside it; the same for documents as they are written |
| `Repin` | editing the authored manifest, and the checker it has to satisfy |
| `Text`, `Numbers` | lines, stripping, substrings and small arithmetic, shared by the others |

**How it is built.** Where the program changes things step by step, the model has a
method with the same loop, the same branches and the same state: an index and flags,
an array blanked in place, or a `Disk` object whose fields every step updates. Each
such method is proved equal to a recursive definition, and the promises are lemmas
about that definition, stated against something independent of it: a syntax tree and
its matches, a chunk list and its serialisation, a commented text and its code, a
prior tree, a stable sort. Where the program builds values with expressions, the model
is a function.

**Failure.** A `Disk` holds two directory trees, the destination and the staging area,
and an unknown schedule `fails: nat -> bool`. Every step of a publication that can fail
asks it, so a law about `PublishTransaction` holds for every combination of failures at
path checks, directory creation, backups (which may leave a partial copy) and
replacements. Steps that the trees themselves make impossible fail as well: a directory
cannot be made below a file, and a file cannot be written over a directory.

**What stays open.** CRC-32, inflation, SHA-256, case folding of one character,
`str.isalnum`, the localised comparison of names, the meaning of character classes and
letter escapes, the stretch an atomic group or a possessive quantifier settles on, the
format of the manifest file, and the placeholder and letter tests of statements are
parameters: the laws hold for every choice of them. Case folding is taken to work
character by character, each giving any number of characters; the collation is taken to
be a strict weak order, the manifest to be read back as it was written, and SHA-256 to
print as a hash and to tell the manifest before an edit from the one after it.

**Properties that do not hold.** The exact condition is proved, for the scanner shape by
shape:

- The scanner promises to report only text that a pattern is certain to match. That fails
  for optional groups, negative look-arounds, alternatives, characters given by their code
  and named back-references. `PatternLimits` has the condition for each of the first two as
  the whole pattern, `PatternWords` for all five between literal words; for other
  combinations `PatternLimits.CertainIsSound` is a sufficient condition.
- A publication with destinations at or below `.backups` may, beside an existing
  destination `x`, deliver wrong bytes (`Layout.BytesAreRightIff`), be impossible to undo
  (`Layout.RollbackWorksIff`) or be stopped without any fault
  (`Layout.PublicationWorksIff`), because the backups share the staging area with the
  staged files. The three examples in `Layout` are the smallest inputs.
- Re-pinning the authored manifest's own entry leaves it stale, since writing the result
  changes the manifest (`Repin.RepinSettlesIff`, `Repin.SelfPinExample`), and so does every
  other change (`Repin.StaleAfterChangeIff`).

## Model

| member | source | states |
|---|---|---|
| `LiteralRuns.LiteralRuns` | tools/extract/gate.py:733-799 | the index-and-buffer scan computes the same runs as the recursive scan of the pattern text, for every pattern, well-formed or not |
| `LiteralRuns.SkipClass` | tools/extract/gate.py:764-772 | a class is skipped to its closing bracket; a leading `^`, a leading `]` and escapes inside do not close it |
| `PatternRuns.ScanPrint` | tools/extract/gate.py:733-799 | scanning the written form of a syntax tree, in any context, does to the collected runs what a recursion over the tree does: brackets, groups, quantifiers and escapes are never misread |
| `PatternRuns.RunsOfWritten` | tools/extract/gate.py:733-799 | the runs of a written pattern are the runs of its tree |
| `PatternRuns.MatchKeepsFound` | tools/extract/gate.py:733-745 | along any match the finished runs are in the line and the unfinished run ends exactly where the match stands |
| `PatternRuns.RunsAreInEveryMatch` | tools/extract/gate.py:733-745 | soundness: every extracted run occurs in every line the pattern matches, for trees with classes, quantifiers, escapes, captures, named, atomic and repeated groups, and positive look-arounds, under any meaning of classes and letter escapes and any choice atomic groups and possessive quantifiers settle on |
| `PatternLimits.CertainIsSound` | tools/extract/gate.py:733-745 | a pattern keeps the promise if its choices, skippable groups and negative look-arounds name no text and it has no coded character or named back-reference; this can be read off its tree |
| `PatternLimits.OptionalGroupIsSoundIff` | tools/extract/gate.py:733-799 | the promise fails for optional groups: in every reading, a group that may match nothing, standing alone, keeps it if and only if no text can be read off its body |
| `PatternLimits.NegativeLookaroundIsSoundIff` | tools/extract/gate.py:733-799 | the promise fails for negative look-arounds: in every reading, one that stands alone and whose body must match its text keeps it if and only if it names none |
| `PatternLimits.LooklessLookaroundIsSoundIff` | tools/extract/gate.py:733-799 | the same for bodies with choices and skippable parts: the promise is kept in all readings if and only if the body names no text or can match nothing, when the look-around never matches |
| `PatternWords.OptionalPartIsSoundIff` | tools/extract/gate.py:733-799 | between two literal words, a group that may be absent keeps the promise if and only if the line of the two words alone contains every text read off its body |
| `PatternWords.LookaroundPartIsSoundIff` | tools/extract/gate.py:733-799 | the same condition for a negative look-around between two literal words |
| `PatternWords.AlternativePartIsSoundIff` | tools/extract/gate.py:733-799 | between two literal words, a choice of two others keeps the promise if and only if the line of each contains the other |
| `PatternWords.AlternationOfWordsIsSoundIff` | tools/extract/gate.py:733-799 | the promise fails for alternatives: a choice of two literal words, standing alone, keeps it if and only if the words are the same |
| `PatternWords.CodedCharacterIsSoundIff` | tools/extract/gate.py:733-799 | the promise fails for characters given by their code, in hex or as three octal digits, whose digits, the first octal one excepted, are read as text: between two literal words it is kept if and only if the word matched happens to contain the digits with what follows |
| `PatternWords.LeadingCodeIsNeverKept` | tools/extract/gate.py:733-799 | where the code comes first, as in `\x41bcd` and `\101bcd`, it is never kept |
| `PatternWords.BackReferenceIsSoundIff` | tools/extract/gate.py:733-799 | the promise fails for named back-references, whose name is read as text: with literal words before, between and behind the word and its repetition, it is kept if and only if the line they make up happens to contain the name |
| `PatternWords.AtomBetweenRuns` | tools/extract/gate.py:756-799 | nothing is lost: between two literal words a further character, written or quoted, joins them into one run, and any other atom leaves both words as runs |
| `PatternWords.RepeatedBetweenRuns` | tools/extract/gate.py:733-799 | a repeated atom between two literal words leaves both words as runs, and none of its own character |
| `SourceTokens.CollectCandidates` | tools/extract/gate.py:810-821 | the candidates are exactly the folded runs of at least four characters that some rule names, each once, under the first rule that names it |
| `SourceTokens.SourceTokensOf` | tools/extract/gate.py:810-830 | the tokens are the candidates that contain no other candidate |
| `SourceTokens.MinimalMeans` | tools/extract/gate.py:821-830 | a candidate is kept if and only if every candidate it contains is itself |
| `SourceTokens.SomeKeptTokenIsInside` | tools/extract/gate.py:821-830 | every candidate contains a token that was kept, so dropping chains of nested tokens always ends at one |
| `SourceTokens.MinimalTokensDecideTheSame` | tools/extract/gate.py:821-830 | a line contains some candidate if and only if it contains some kept token |
| `SourceTokens.FoldAt` | tools/extract/gate.py:869-872 | every character of a text is folded, where it stands |
| `SourceTokens.FoldKeepsContains` | tools/extract/gate.py:869-872 | case folding, even where it lengthens the text, keeps every substring |
| `SourceTokens.CheckSourceTokens` | tools/extract/gate.py:833-877 | the report grows by exactly the findings of the scanned files, line by line, one per line |
| `SourceTokens.LineIsReported` | tools/extract/gate.py:869-877 | a finding of a file is there if and only if its line holds a token, and names the first of the list that it holds |
| `SourceTokens.FindingMeans` | tools/extract/gate.py:858-877 | the findings are those of the tracked regular files outside the rule definitions that can be read, and no others |
| `SourceTokens.LinesAreReportedOnce` | tools/extract/gate.py:858-877 | no line of a file is reported twice, however many tokens it holds |
| `SourceTokens.LineIsReportedIff` | tools/extract/gate.py:810-877 | with the minimised tokens, a line of a scanned file is reported if and only if it contains a text some rule names |
| `SourceTokens.SurvivingNameIsReported` | tools/extract/gate.py:733-877 | end to end: if a rename pattern with a run of four folded characters still matches inside a line of a scanned file, that line is reported |
| `Png.PngDimensions` | tools/extract/gate.py:235-298 | the loop over an offset and flags gives the verdict of reading the chunk stream recursively, reason included |
| `Png.FrameLayout` | tools/extract/gate.py:246-255 | a serialised chunk is length, kind, payload and the checksum of kind and payload |
| `Png.JudgeFrames` | tools/extract/gate.py:241-288 | on serialised chunks, judging the bytes is judging the chunks |
| `Png.JudgedIsFrames` | tools/extract/gate.py:242-298 | whatever is accepted can be cut into chunks whose serialisation is the input, byte for byte |
| `Png.FoldMeans` | tools/extract/gate.py:255-288 | the chunks that get through are exactly those in the required order, and the remembered flags describe them |
| `Png.AcceptsExactlyImages` | tools/extract/gate.py:235-298 | a byte string is accepted if and only if it is the signature and a serialised chunk list with one valid header first, no forbidden metadata, image data that inflates, and one empty end chunk last; the size is that of the header |
| `Png.SerialisationIsUnique` | tools/extract/gate.py:246-254 | no byte string is the serialisation of two different chunk lists |
| `Png.FirstFaultIsReported` | tools/extract/gate.py:242-288 | the first chunk that may not follow those before it decides the verdict, and the reason can be told from the chunks alone, whatever comes behind |
| `Png.IncompleteIsReported` | tools/extract/gate.py:289-298 | if every chunk keeps the rules but the image is not complete, the reason is a missing header or end, or data that does not inflate |
| `Png.HeaderIff` | tools/extract/gate.py:262-280 | a header is valid if and only if it states a positive width and height, big-endian, of at most 20,000,000 pixels, one of fifteen pairs of colour and depth, and no option but interlacing |
| `Png.ForbiddenAre` | tools/extract/gate.py:259-260 | the chunks turned down as metadata, by their names in ASCII |
| `Png.IhdrIff` | tools/validate_documentation.py:418-427 | the second reader reports a size if and only if the signature, a header of thirteen bytes and that size, neither number zero, stand in front of at least nine more bytes |
| `Png.ReadersAgree` | tools/validate_documentation.py:418-427 | the documentation validator measures every accepted file to the same width and height |
| `SwiftProse.StripSwiftProse` | tools/extract/port.py:360-435 | the scan with one index, a string flag, a line flag and a depth equals lexing recursively, removed comments counted |
| `SwiftProse.CodeOnlyDeletes` | tools/extract/port.py:368-432 | the raw output is a subsequence of the input with the same number of newlines |
| `SwiftProse.NestedBlockEnds` | tools/extract/port.py:385-397 | a block comment ends at the mark that matches its opening, however deep others nest in it, and leaves its newlines |
| `SwiftProse.BlockCommentVanishes` | tools/extract/port.py:385-427 | writing a nested block comment with any text inside between two stretches of code adds one to the count and only newlines to the output |
| `SwiftProse.LineCommentVanishes` | tools/extract/port.py:378-421 | writing a line comment behind code adds one to the count and nothing to the output |
| `SwiftProse.CodeIsCopied` | tools/extract/port.py:399-430 | code and string literals, with escaped quotes and comment marks in them, are copied unchanged |
| `SwiftProse.CodeIsQuiet` | tools/extract/port.py:368-430 | deleting comments never joins their neighbours into a new comment |
| `SwiftProse.QuietIsFixed` | tools/extract/port.py:368-430 | text without comments is left as it is |
| `SwiftProse.WalkTidied` | tools/extract/port.py:432-435 | dropping trailing white space line by line creates no comment |
| `SwiftProse.StrippedIsTidied` | tools/extract/port.py:432-435 | for every source the text returned has the lines of the lexed text, each cut exactly at its trailing white space, with newlines between them, and a final newline if and only if the source ends in one or the last of several lines is empty |
| `SwiftProse.ProgramIsStripped` | tools/extract/port.py:360-435 | end to end: a program written as code with line comments and nested block comments anywhere between comes back as the lines of its code without trailing white space, and the count is the number of comments written |
| `SwiftProse.TidyCodeComesBack` | tools/extract/port.py:360-435 | code without trailing white space comes back unchanged, character by character |
| `SwiftProse.StripIsIdempotent` | tools/extract/port.py:360-435 | stripping twice is stripping once, and the second pass removes nothing |
| `HashProse.StripHashProse` | tools/extract/port.py:316-357 | the loop over lines gives the surviving lines, the final newline and the number of comments |
| `HashProse.ScanLine` | tools/extract/port.py:326-352 | a line is copied up to its comment; the flag says whether there was one |
| `HashProse.CutIsFirstComment` | tools/extract/port.py:326-352 | the cut is at the first marker that no quote encloses, read from the left with escapes, and there is none if every marker is enclosed |
| `HashProse.CommentsVanish` | tools/extract/port.py:316-357 | stripping undoes commenting: from lines written as code, perhaps a gap, and a comment that does not begin inside the code, the code of each remains, lines that were only comment go, and every comment is counted |
| `HashProse.LineIsStripped` | tools/extract/port.py:326-356 | what any line adds to the result: the part in front of its first comment without the white space at its end, unless only a comment is on it |
| `HashProse.WrittenLinesAreStripped` | tools/extract/port.py:316-357 | end to end: the text returned for written lines spells exactly their code, line by line, and the count is the number of comments |
| `HashProse.KeptLinesAreClean` | tools/extract/port.py:353-357 | no surviving line holds a comment or trailing white space |
| `HashProse.StripIsIdempotent` | tools/extract/port.py:316-357 | stripping twice is stripping once, and the second pass removes no comment |
| `Text.TidiedIsUnique` | tools/extract/port.py:432-435 | what is said of a stripped text determines it |
| `Text.SplitAtBoundary` | tools/extract/port.py:326 | a line ends at any of the boundaries of `str.splitlines`, a carriage return with its line feed counting once |
| `Text.SplitReassembled` | tools/extract/port.py:357 | what the strippers join is split into the same lines again, the empty last line excepted where no newline ends it |
| `Publish.Disk.PublishTransaction` | tools/extract/port.py:957-999 | a success has placed every destination in order; whatever step fails, the rollback succeeds if and only if no backup made so far is lost, and then the tree is exactly what it was before, directories included; without faults the publication succeeds if and only if it is possible |
| `Publish.Disk.PublishNext` | tools/extract/port.py:963-999 | one destination either advances the transaction and keeps everything rollback needs, or undoes all of it, exactly unless a backup is lost |
| `Publish.Disk.PublishOne` | tools/extract/port.py:964-980 | a destination that fits and whose backup is not blocked is placed, with its missing directories and its backup; a failure leaves only new directories and at most its own backup |
| `Publish.Disk.Backup` | tools/extract/port.py:975-979 | the directories above the backup are made unless a file is in the way; the bytes go to the place of the backup, into it if it is a directory, and nowhere if there is a directory too |
| `Publish.Disk.MakeParents` | tools/extract/port.py:965-973 | exactly the missing directories above a destination are made, outermost first |
| `Publish.Disk.Undo` | tools/extract/port.py:982-999 | restoring newest first and removing directories newest first gives back the prior tree from every recoverable state |
| `Publish.Disk.RestoreAll` | tools/extract/port.py:983-991 | overwritten files get their bytes back and new files vanish; the result reports every backup that is not a file |
| `Publish.Disk.RemoveAll` | tools/extract/port.py:992-996 | every directory that was made is gone again |
| `Publish.LastDirIsEmpty` | tools/extract/port.py:992-996 | each created directory is empty when its turn to be removed comes |
| `Publish.Advanced` | tools/extract/port.py:963-981 | a successful step keeps the record of what to restore, in order and complete |
| `Publish.Interrupted` | tools/extract/port.py:963-999 | a failed step leaves a state from which the log restores the prior tree, unless a backup is lost |
| `Publish.OneRestored` | tools/extract/port.py:984-991 | undoing the last record leaves the shorter log recoverable |
| `Placing.Untouched` | tools/extract/port.py:959-980 | before the turn of an existing destination nothing new has come to, below or above the place of its backup |
| `Placing.BackupAfter` | tools/extract/port.py:975-981 | a backup is where rollback looks for it, with the old bytes, if and only if no directory was in its place and no later destination took it |
| `Placing.UnblockedAtTurn` | tools/extract/port.py:975-979 | whether a backup can be written at its turn is decided by what was staged: nothing above it that is still there, no directory where it goes |
| `Placing.FitsAtTurn` | tools/extract/port.py:964-973 | whether a destination fits at its turn is decided by the prior tree |
| `Placing.NodesAfter` | tools/extract/port.py:963-981 | publishing adds exactly the destinations and the directories above them, and changes no other path |
| `Placing.BytesAfter` | tools/extract/port.py:974-981 | a destination ends up with the bytes staged for it, or with the old bytes of the one whose backup was written over them |
| `Placing.PublishesExactlyIff` | tools/extract/port.py:957-981 | the published tree is the one asked for if and only if no backup was written over different staged bytes |
| `Layout.LayShape` | tools/extract/port.py:947-951 | the files staged are exactly the destinations, every other node is a directory above one |
| `Layout.BytesAreRightIff` | tools/extract/port.py:957-981 | in terms of the destinations: the published bytes are right if and only if every later destination `.backups/x` or `.backups/x/x` beside an existing `x` was to get the same bytes |
| `Layout.RollbackWorksIff` | tools/extract/port.py:957-999 | in terms of the destinations: a rollback works if and only if, for every existing `x` placed, nothing is below `.backups/x` and no later one placed is `.backups/x` |
| `Layout.PublicationWorksIff` | tools/extract/port.py:957-981 | in terms of the destinations: a faultless publication works if and only if all fit and, for every existing `x`, no destination still to come is above `.backups/x` and none is below `.backups/x/x` |
| `Layout.NoTroubleOutsideBackups` | tools/extract/port.py:957-999 | where no destination is at or below `.backups`, bytes are right, rollbacks work, and fitting is enough |
| `Layout.WrongBytesExample` | tools/extract/port.py:975-981 | beside an existing `x`, the destination `.backups/x/x` is published with the old bytes of `x` |
| `Layout.LostBackupExample` | tools/extract/port.py:975-991 | beside an existing `x`, the destination `.backups/x/y` makes a failure impossible to undo |
| `Layout.ForcedFailureExample` | tools/extract/port.py:975-979 | beside an existing `x`, the destination `.backups` stops every publication |
| `PortRun.PartsAreFaithful` | tools/extract/port.py:857-865 | cutting a manifest path at its slashes loses nothing, so different destinations are different paths |
| `PortRun.SafePathIff` | tools/extract/port.py:857-865 | a path is safe if and only if it is written from parts that are neither empty nor dots and hold no slash, backslash, NUL or wildcard |
| `PortRun.AdmissibleIff` | tools/extract/port.py:868-1038 | a run gets past its checks if and only if every entry, field by field, has safe paths, a free destination, well formed edits, a source and no link or directory in its place, and all destinations differ |
| `PortRun.LoadManifest` | tools/extract/port.py:868-897 | a manifest is loaded if and only if its paths are safe, its destinations distinct, none of them the manifest or the receipt, and every edit well formed |
| `PortRun.LoadedEditsAreWellFormed` | tools/extract/port.py:887-895 | no edit of a loaded manifest is reported as malformed in either pass over any text: it can only miss or match too often |
| `PortRun.RelsAreUnique` | tools/extract/port.py:868-897 | a loaded manifest gives the transaction distinct destinations |
| `PortRun.StageEntries` | tools/extract/port.py:1044-1071 | staging succeeds only if every transformed file is free of violations and no destination is above another, and then holds exactly the transformed texts; without faults it succeeds in every such case |
| `PortRun.FullStageIsReady` | tools/extract/port.py:1044-1097 | staging establishes what the transaction requires |
| `PortRun.Run` | tools/extract/port.py:1002-1108 | a run that is refused or dry leaves the tree as it was; one that returns 0 passed every check and, outside `.backups`, has delivered every transformed text, the manifest and the receipt to their places; one that fails says at which destination, if it came that far, and its rollback is complete if and only if no backup of the destinations before it was lost, in which case the tree is as it was; without faults it returns 0 if and only if it is admissible, clean, stageable and publishable |
| `PortRun.RunPublishesExactlyIff` | tools/extract/port.py:1044-1108 | a successful run leaves exactly the tree asked for if and only if no backup replaces different staged bytes; in that tree every entry has its transformed text, manifest and receipt have theirs, and no other file has changed |
| `PortRun.RunSucceedsIff` | tools/extract/port.py:1044-1108 | a run can be published if and only if no destination is above another, all fit and none blocks the backup of another |
| `PortRun.RunIsAllOrNothing` | tools/extract/port.py:1002-1108 | where no destination is at or below `.backups`, a run that returns 0 has transformed every entry without a violation and delivered each text, the manifest and the receipt to its own path and changed no other file, and any other run leaves the tree as it was |
| `Edits.SplitIsFaithful` | tools/extract/port.py:613-624 | the counted occurrences are disjoint and with the pieces between them make up the text |
| `Edits.SplitIsLeftmost` | tools/extract/port.py:613-624 | the occurrences are those of a search from the left, and none is left over |
| `Edits.SplitIsUnique` | tools/extract/port.py:613-624 | there is no other such division, so count and replacement are determined |
| `Edits.ReplaceLength` | tools/extract/port.py:624-625 | a replacement changes the length by the count times the difference |
| `Edits.AbsentMeansZero` | tools/extract/port.py:613-617 | the count is zero if and only if the text does not occur |
| `Edits.ApplyLiteralEdits` | tools/extract/port.py:579-626 | one pass leaves the text, the problems and the set of settled edits that trying the edits one by one gives, or stops with an exception if and only if an edit to be carried out has a replacement that is no text |
| `Edits.PassAt` | tools/extract/port.py:579-626 | for each edit: it is carried out in a pass if and only if it was not settled before and its text occurs as often as declared on the text as it then stands; each problem is reported if and only if the edit meets it |
| `Edits.EditReplaces` | tools/extract/port.py:613-625 | an edit that is carried out replaces exactly its declared number of disjoint occurrences, none left over, and changes the length accordingly; any other leaves the text alone |
| `Edits.ProblemMeans` | tools/extract/port.py:592-620 | a reported problem says what is wrong: no text to find, no positive number, no occurrence, or, with both numbers, a count of disjoint occurrences other than the declared one |
| `Edits.PassOrder` | tools/extract/port.py:579-626 | replacements and problems are recorded in the order of the edits, each at most once |
| `Edits.EditTwice` | tools/extract/port.py:647-674 | the text and the problems of a port are those of the pass over the original followed by the pass over the stripped text, which leaves settled edits alone; it stops if and only if one of the passes does |
| `Edits.EveryEditHasOneFate` | tools/extract/port.py:647-674 | over both passes each declared edit is carried out at most once or reported with exactly one problem, and is a miss if and only if it occurred in neither text |
| `Edits.NoProblemsMeansAllDone` | tools/extract/port.py:647-674 | there are no problems if and only if every declared edit was carried out |
| `Breakdown.DecodeItems` | apps/Shared/Sources/UsageIntelligence.swift:488-511 | decoding one item at a time with at most 26 in memory yields exactly the first 25 of the stable sort of the whole input: counts never rise, none without a count stands before one with, equal counts go by name, and nothing left out belongs before anything kept; kept plus omitted equals decoded plus the declared omission, negative ones taken as none |
| `Breakdown.RankedIsStableSort` | apps/Shared/Sources/UsageIntelligence.swift:517-529 | the ranking is sorted, has the same items, and keeps ties in the order they came |
| `Breakdown.RankedAreBest` | apps/Shared/Sources/UsageIntelligence.swift:500-529 | any front part of the ranking holds the largest counts, in order, and with the rest makes up the input |
| `Breakdown.StableSortIsUnique` | apps/Shared/Sources/UsageIntelligence.swift:517-529 | two sorted lists that keep ties alike are equal, so any stable sort gives this ranking |
| `Breakdown.BeforeIsWeakOrder` | apps/Shared/Sources/UsageIntelligence.swift:517-529 | the comparison of counts, missing counts and names is a strict weak order |
| `Breakdown.TakeInsert` | apps/Shared/Sources/UsageIntelligence.swift:500-508 | the best k of a list with a newcomer are the best k of its best k with the newcomer |
| `Breakdown.CutBack` | apps/Shared/Sources/UsageIntelligence.swift:500-508 | cutting back to 25 loses nothing that could rank among the best 25 later |
| `LastGood.StoredIsLastAccepted` | apps/Shared/Sources/UsageIntelligence.swift:1427-1465 | in every run a snapshot is stored if and only if some response was accepted, it never becomes nil again, and it is the last accepted one with its date |
| `LastGood.StoredIsMeaningful` | apps/Shared/Sources/UsageIntelligence.swift:160-173 | a stored snapshot always has meaningful provider data |
| `LastGood.RetainingSources` | apps/Shared/Sources/UsageIntelligence.swift:374-388 | retention takes windows only from the response and from the prior snapshot, and from the latter only those whose reset is later |
| `LastGood.OpenWindowsAreKept` | apps/Shared/Sources/UsageIntelligence.swift:374-389 | when a response lacks quota, no window that is still open is lost |
| `LastGood.EveryWindowIsSourced` | apps/Shared/Sources/UsageIntelligence.swift:362-455 | in every run each stored Claude window, top-level or in a group, came with an accepted response, and at every acceptance since the response lacked quota and the window was still open |
| `LastGood.ClearedQuotaStaysGone` | apps/Shared/Sources/UsageIntelligence.swift:366-455 | quota that an accepted response cleared, or replaced by its own, is never shown again: what is stored later came with that response or after it |
| `LastGood.OnlyQuotaIsReplaced` | apps/Shared/Sources/UsageIntelligence.swift:403-433 | retention replaces nothing else: other providers, the rest of the Claude entry and all errors stay, and a response with quota of its own keeps it |
| `LastGood.RetainedQuotaIsFlagged` | apps/Shared/Sources/UsageIntelligence.swift:391-434 | retained quota makes the state stale, carries the warning code on provider and snapshot, and is marked as not canonical |
| `LastGoodRules.MeaningfulIff` | apps/Shared/Sources/UsageIntelligence.swift:160-173 | a response is worth keeping if and only if it is no error envelope and some provider carries more than errors and an observation |
| `LastGoodRules.AcceptedState` | apps/Shared/Sources/UsageIntelligence.swift:155-158 | behind an accepted response the error is gone, the state is stale if and only if the stored snapshot says so, has run out or has a stale observation of a provider or an account, and refreshing if and only if it says so |
| `LastGoodRules.FailedState` | apps/Shared/Sources/UsageIntelligence.swift:1455-1465 | behind a refresh that brought nothing the snapshot and its date stay, and the message is shown once the grace period is over or if nothing is stored |
| `LastGoodRules.RetainsIff` | apps/Shared/Sources/UsageIntelligence.swift:362-389 | earlier quota stands in if and only if the response is signed in, has no window of its own, in a group or of an account, was not cleared, and an earlier window is still open |
| `LastGoodRules.RetainedEntry` | apps/Shared/Sources/UsageIntelligence.swift:374-434 | the entry then is that of the response but for windows, groups, their source, the observation and one error |
| `LastGood.FailuresOnlyAge` | apps/Shared/Sources/UsageIntelligence.swift:1455-1465 | between acceptances the snapshot stands still; stale, refreshing and error depend only on its age and the grace period |
| `Decimal.GroupedDecimal` | apps/Shared/Sources/UsageIntelligence.swift:1936-1945 | the loop over the reversed digits gives the digits with separators |
| `Decimal.CommasEveryThreeDigits` | apps/Shared/Sources/UsageIntelligence.swift:1936-1945 | commas stand exactly behind every third digit from the right, none in front |
| `Decimal.DigitsOfGrouped` | apps/Shared/Sources/UsageIntelligence.swift:1936-1945 | without its commas the text is the digits again |
| `Decimal.DecimalNanos` | apps/Shared/Sources/UsageIntelligence.swift:1924-1934 | for every 64-bit amount, the smallest included, no step overflows and the text is sign, grouped whole part and hundredths rounded half up |
| `Decimal.PrintedCommas` | apps/Shared/Sources/UsageIntelligence.swift:1924-1945 | in the printed amount commas stand at every fourth place from the point leftwards, and nowhere else, in particular not in front or behind the sign |
| `Decimal.PrintedReadsBack` | apps/Shared/Sources/UsageIntelligence.swift:1924-1945 | the printed digits read back as the magnitude rounded half up, less than 5,000,000 nanos below or at most that much above |
| `Decimal.PrintedShape` | apps/Shared/Sources/UsageIntelligence.swift:1924-1934 | two digits stand behind the point, and there is a minus if and only if the amount is negative |
| `Digits.ValueOfToString` | apps/Shared/Sources/UsageIntelligence.swift:1936-1945 | a number printed in decimal reads back as itself |
| `OutputBudget.EncodedIsDecoded` | src/coordharness/coord/output_budget.py:48 | the decoder reads every encoded character back, whatever follows |
| `OutputBudget.CutIsDropped` | src/coordharness/coord/output_budget.py:48 | a character cut short at any byte leaves nothing behind |
| `OutputBudget.RoundTrip` | src/coordharness/coord/output_budget.py:29-48 | encoding and decoding any text of Unicode scalar values gives the text |
| `OutputBudget.CutAndDecode` | src/coordharness/coord/output_budget.py:48 | cutting the bytes anywhere and decoding gives the longest prefix of whole characters that fits |
| `OutputBudget.BudgetKeepsLongestPrefix` | src/coordharness/coord/output_budget.py:28-57 | the text returned is whole if it fits or the budget is off, otherwise the longest prefix that fits; the byte count is that of the whole text |
| `MarkdownMask.MaskMarkdownCode` | tools/validate_documentation.py:102-146 | the line loop and the in-place blanking of the character list give the masked text |
| `MarkdownMask.MaskInline` | tools/validate_documentation.py:128-146 | in place on an array: every span is blanked as the recursion over the text says |
| `MarkdownMask.MaskKeepsPlaces` | tools/validate_documentation.py:102-146 | masking keeps the length and every line end, and only turns characters into spaces |
| `MarkdownMask.CodeLinesAreBlank` | tools/validate_documentation.py:102-126 | every line in, opening or closing a fence, or indented as code, is blank in the result |
| `MarkdownMask.CodeSpanIsBlanked` | tools/validate_documentation.py:128-146 | a code span becomes blank with its backticks; what stands in front is untouched and what follows is masked on its own |
| `MarkdownMask.LoneRunIsKept` | tools/validate_documentation.py:128-146 | a run of backticks that is not repeated is content |
| `MarkdownMask.SameLineNumbers` | tools/validate_documentation.py:149-192 | counting newlines up to a place gives the same number before and after masking |
| `MarkdownMask.InlineTargets` | tools/validate_documentation.py:157-192 | the loop over markers reports the links of the text, in order |
| `MarkdownMask.WrittenLinkIsReported` | tools/validate_documentation.py:157-192 | a written link, with escapes and nested parentheses in its destination, is reported with that destination and its line |
| `MarkdownMask.InlineBlanksSpans` | tools/validate_documentation.py:128-146 | masking blanks the places in code spans, and no other |
| `MarkdownBlocks.KeptLinesAreLines` | tools/validate_documentation.py:102-104 | the lines with their endings are the lines of `str.splitlines`, each with one boundary |
| `MarkdownBlocks.OpeningIff` | tools/validate_documentation.py:35-35 | a line opens a fence if and only if it is written as up to three spaces, at least three backticks or tildes and anything that does not go on with them |
| `MarkdownBlocks.ClosingIff` | tools/validate_documentation.py:114-117 | a line closes a fence if and only if it is written as up to three spaces, at least as many of the same character and blanks |
| `MarkdownBlocks.BlocksAreCode` | tools/validate_documentation.py:102-126 | of a document written as prose lines, indented lines and fenced blocks, exactly the lines of the latter two are code |
| `MarkdownBlocks.UnclosedFenceIsCode` | tools/validate_documentation.py:110-121 | behind a fence that is never closed everything is code |
| `MarkdownBlocks.MaskedMeans` | tools/validate_documentation.py:102-146 | masking, place by place: blank on lines of code and in code spans, line ends excepted, unchanged everywhere else |
| `MarkdownBlocks.DocumentIsMasked` | tools/validate_documentation.py:102-146 | of a written document the code blocks are blanked, and on all other lines what is not in a code span stays |
| `MarkdownBlocks.SpacedLinkIsReported` | tools/validate_documentation.py:157-192 | a link is reported whatever white space stands before its destination and whether a title follows |
| `MarkdownBlocks.AngleLinkIsReported` | tools/validate_documentation.py:163-172 | a destination in angle brackets is reported without them |
| `MarkdownBlocks.LinksInOrder` | tools/validate_documentation.py:157-192 | links are reported in the order they stand, none twice |
| `MarkdownBlocks.LinkInTheOpenIsReported` | tools/validate_documentation.py:102-192 | end to end: a link written on no line of code and in no code span is reported from the masked text, with its destination and its line in the original |
| `MarkdownMask.ReportedLinksAreInPlace` | tools/validate_documentation.py:102-192 | a link reported on the masked text stands at the same place in the original, in no code block and no code span, and its line number is right there |
| `Repin.CheckRoot` | tools/extract/repin.py:162-253 | a finding is reported if and only if the index has the problem, the manifest cannot be read, or a path is undeclared, stale, vacant, malformed or untracked |
| `Repin.QuietIff` | tools/extract/repin.py:162-253 | nothing is reported about a path if and only if it is accounted for if tracked, tracked and described if declared, and its derived entry, if any, says why it is there, has the full hash of the staged bytes and a stamp that says why |
| `Repin.ReinsertSorted` | tools/extract/repin.py:311-323 | a new key goes in front of the first larger one, and a sorted map stays sorted |
| `Repin.ReasonIsQualifiedOnce` | tools/extract/repin.py:294-308 | a reason always ends in the qualification, and a second re-pin for the same reason leaves it as it is |
| `Repin.VacantIff` | tools/extract/repin.py:108-121 | a statement says nothing if and only if it has fewer than three words or twelve characters, no letter, or a placeholder |
| `Repin.StandardToolsIgnoreMargins` | tools/extract/repin.py:108-121 | a statement is judged without the white space around it, so what is stored stripped is judged the same |
| `Repin.ApplyDeclarations` | tools/extract/repin.py:359-385 | the first admissible declaration of each path is carried out with its own description, every other one is refused, and no other entry changes |
| `Repin.Requested` | tools/extract/repin.py:390-416 | the pins to move are those named, if named once each; or the only stale pin when all are asked for; or none |
| `Repin.ApplyRepins` | tools/extract/repin.py:417-466 | exactly the granted pins move, each to the staged bytes, with the old hash and its own reason; all other entries stay |
| `Repin.OthersAreUntouched` | tools/extract/repin.py:417-466 | no derived path comes or goes, and an entry whose pin does not move stays as it was |
| `Repin.GrantedMeans` | tools/extract/repin.py:417-466 | a path is re-pinned if and only if its own reason says something and its pin may move, and then under that reason |
| `Repin.ApplyRoot` | tools/extract/repin.py:326-474 | a problem with the index, an unreadable manifest or unpaired descriptions refuse everything; otherwise the document written is the old one with exactly the admissible declarations and re-pins, every other request is counted as refused, and without changes it is the old one |
| `Repin.EveryRequestIsCounted` | tools/extract/repin.py:359-470 | the count of refusals is the number of declarations not carried out, one for a list that names a pin twice, one for asking for all beside a list or where several are stale, and the pins not moved, or one if the reasons do not pair up |
| `Repin.NewEntriesSaySomething` | tools/extract/repin.py:360-380 | an added entry has the path of a declaration and its description without margins, and is never vacant |
| `Repin.ApplySatisfiesCheck` | tools/extract/repin.py:162-466 | after staging the result, declared paths are not undeclared, no path becomes undeclared, and a pin other than that of the manifest itself is stale if and only if it was and was not re-pinned |
| `Repin.RepinSettlesIff` | tools/extract/repin.py:162-474 | after staging the written result a re-pinned path is settled if and only if it is not the authored manifest itself, whose pin was taken before the edit changed it |
| `Repin.SelfPinExample` | tools/extract/repin.py:437-473 | a manifest whose only entry is its own can be re-pinned, and is stale as soon as the result is staged |
| `Repin.OwnPinAfterChange` | tools/extract/repin.py:162-474 | after any change is staged, a pin of the manifest itself that was fresh is stale |
| `Repin.StaleAfterChangeIff` | tools/extract/repin.py:162-474 | after any change is staged, the pin of the manifest itself is stale, unless it was not moved and happens to name the new text, and any other pin is stale if and only if it was and did not move |
| `Repin.ApplyKeepsDisjoint` | tools/extract/repin.py:326-474 | files, derived and ported paths stay disjoint, and a sorted map stays sorted |
| `Repin.RepinnedIsStamped` | tools/extract/repin.py:459-466 | a re-pinned entry, field by field: the pin is the hash of the staged bytes, the stamp holds the reason and the pin there was before, and the reason begins with what it said before and ends in the qualification with the new one |

## Left out

Contracts that say less than the program does:

- PatternRuns.RunsAreInEveryMatch: inline flags such as `(?i)`, escapes with one or two octal digits behind a zero or naming a group of two digits, `\N` escapes, conditional groups and comments are outside the modelled patterns; the text of a comment that holds one of `:`, `=`, `!` or `>` is read as text too.
- PatternRuns.MatchKeepsFound: the same patterns.
- PatternLimits.CertainIsSound: one direction only for nested combinations, since whether two alternatives force the same text is a question about languages and not about the tree; the basic shapes have exact conditions.
- PatternLimits.LooklessLookaroundIsSoundIff: bodies that hold further look-arounds, and look-behinds with atomic or possessive parts, are covered only where `PatternLimits.NegativeLookaroundIsSoundIff` applies.
- PatternLimits.OptionalGroupIsSoundIff: the group is the whole pattern, as in `PatternLimits.NegativeLookaroundIsSoundIff`; between literal words, `PatternWords.OptionalPartIsSoundIff` and `PatternWords.LookaroundPartIsSoundIff` ask in addition for a body that is `Certain`, and the first for a quantifier that is not possessive.
- PatternWords.AlternationOfWordsIsSoundIff: two literal words; in `PatternWords.AlternativePartIsSoundIff` they stand between two others.
- PatternWords.CodedCharacterIsSoundIff: the code stands between two literal words.
- PatternWords.BackReferenceIsSoundIff: the group holds a literal word, and literal words stand around it and the reference.
- SourceTokens.CheckSourceTokens: the report text is a triple of path, line and rule; context-dependent folding is not modelled.
- Png.PngDimensions: the bound on decompressed bytes is part of the inflation parameter; the second trailing-bytes test, which can never be reached, is omitted.
- SwiftProse.StripSwiftProse: like the tool itself, it does not know raw or multi-line Swift strings.
- HashProse.CommentsVanish: a comment right behind code that ends in a character of the marker is not covered, because there the marker begins inside the code, as in `x---note`.
- Publish.Disk.PublishTransaction: the steps of the rollback do not fail on their own account, `replace` is atomic, an interrupt between a replacement and its entry in the log is not modelled, and a name is one file whatever its letter case; the files to publish are staged, as the run sees to it; file times and modes are not modelled.
- PortRun.Run: the pinned commit, the vocabulary and the direction check are parameters or absent, a path is checked for links where it is joined, and the entries of the receipt are a parameter.
- Edits.EditTwice: `drop_symbols` and the renames after the second pass are absent; what happens between the passes is any function on texts.
- Breakdown.DecodeItems: errors while decoding an item and overflow of the omitted count are not modelled.
- LastGood.EveryWindowIsSourced: the day context, account profiles beyond their windows, and the sanitising done by decoding are not modelled; lower case is ASCII only, as all compared words are.
- OutputBudget.BudgetKeepsLongestPrefix: the environment flag is a Boolean, the artifact file is absent, and lone surrogates, on which encoding raises, are not characters here.
- MarkdownMask.ReportedLinksAreInPlace: reference-style definitions, which a regular expression finds, are absent.
- Repin.CheckRoot: a set of findings, so their order and wording and the advisories on the worktree are not modelled; problems with the index are given as paths.
- Repin.ApplyRoot: the wording of changes and refusals is absent, and the manifest file is read and written by parameters.

Not modelled at all:

- The claim, lease, handoff and review database.
- Git, real files, signals, clocks and the command line.
- Python's own tokeniser and syntax tree in `strip_prose` and `drop_symbols`, and the `re` engine beyond the patterns above.
- The other checks of the gate (hygiene, privacy, assets, history): flat passes over one file or commit at a time.
- Views, HTTP clients, telemetry, captures and rendering.
