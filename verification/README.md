# A Markdown TODO file as a database: a Dafny model

The system keeps one Markdown file per user and year. Its parts are:

- a pool of open work under `## 待办池`, grouped by `### Project` headers;
- a closing `---` separator;
- week blocks headed `## M月D日 - M月D日`, newest first.

HTTP handlers edit the file line by line. The model covers:

- toggling, adding, sub-adding, deleting, editing and reordering checklist lines;
- adding projects and weeks;
- the week settle, which moves finished work out of the pool into the current week's block.

It models two generations of the server: the current one (`dist-server/index.js`) and the first one (`server/index.ts` and `todo-viewer/server/index.ts`). It also models the viewer's parser (`todo-viewer/src/utils/parser.ts`).

A file is a `seq<string>` of lines; `Lines.Split` and `Lines.Join` link it to the text. Every handler is a pure function from lines and request fields to `Result<seq<string>>`. Its error cases are the handler's failures. Most are the 400 replies it sends. Two are exceptions the handler answers with a 500. `Outcome.InheritedName` is thrown when grouping under an inherited key. `Outcome.PoolNotFound` is thrown by `Settle.ReplacePool` when no line is the pool header, which the settle itself never meets (`Settle.MergedKeepsPool`); in the add handlers the same error is a 400.

Modules:

- `Text`: JavaScript string helpers: whitespace, `trim`, `indexOf`, `replace`, number printing.
- `Outcome`: `Result` and the error kinds.
- `Classify`: the line classifiers (separator, project header, week header, checklist line, placeholder, block boundary, indentation level).
- `Lines`: splice, remove, block move, split/join and first-match scans.
- `Editor`: the current server's line editors.
- `Forest`: task trees and the stack-based tree builder.
- `Pool`: the pool tree builder.
- `Status`: the bottom-up marking and the archive/retain renderers.
- `Calendar`: day ordinals, Monday of a week, week titles and their parsing.
- `Weeks`: week blocks, adding a week, finding or creating the current week.
- `Splice`: the back-to-front splice of sorted insertions.
- `Merge`: merging archived lines into the week's project entries.
- `Settle`: the current week settle.
- `OldSettle`: the first server's week settle.
- `Legacy`: the first server's toggle, add, project add and reorder.
- `Viewer`: the viewer's line parser, serializer and document parser.

Dates are integer day ordinals. Ordinal 0 is 1 January of year 0, a Monday. "Today" is a parameter of the settle functions.

## Model

| member | source | states |
|---|---|---|
| Classify.Box | dist-server/index.js:81-91 | a checklist line is indentation followed by `- [ ]` or `- [x]`; Box gives which, and None exactly when neither box follows the indentation |
| Classify.TaskLineKinds | dist-server/index.js:81-91 | a line is a checklist line iff it is pending or completed, and never both |
| Classify.IndentLevel | dist-server/index.js:636-639 | the level is the leading whitespace count divided by four, rounded down |
| Classify.TaskLineIsNotBoundary | dist-server/index.js:93-99 | a checklist line is never a block boundary, a placeholder, a blank line or the pool header |
| Text.Trim | dist-server/index.js:69-75 | trimming gives the empty string exactly when the line is all whitespace |
| Text.TrimShape | dist-server/index.js:69-75 | a trimmed line is the line minus its leading and trailing whitespace runs, and starts and ends with non-whitespace |
| Text.IndexOf | server/index.ts:91-94 | `indexOf` finds the leftmost occurrence, and -1 exactly when there is none |
| Text.ReplaceFirst | server/index.ts:91-94 | `replace` with a string pattern rewrites only the leftmost occurrence, and changes nothing when there is none |
| Text.DigitsValueOfNatToString | dist-server/index.js:632 | reading back a printed day or month number gives the number |
| Lines.JoinSplit | dist-server/index.js:801 | joining the split lines with newlines gives back the file text |
| Lines.SplitJoin | dist-server/index.js:801 | splitting joined newline-free lines gives back the lines |
| Lines.SplitAppend | dist-server/index.js:461 | `split('\n')` of two texts joined by a newline is the split of each, one after the other |
| Lines.SplitJoinAppend | dist-server/index.js:488 | saving two runs of lines and splitting the file splits each run on its own |
| Lines.TrimmedNever | dist-server/index.js:465 | a line read back holds no newline, so its trim never equals a header that holds one or that ends in whitespace |
| Lines.SpliceStart | dist-server/index.js:603-611 | `splice` with a negative start counts from the end and clamps at 0; a start past the end clamps to the length |
| Lines.MoveBlockPermutes | dist-server/index.js:603-611 | cutting a block and re-inserting it keeps every line, as a multiset |
| Lines.MoveBlockPlacement | dist-server/index.js:603-611 | where the moved block lands: before line `to` when moving up, with the lines it passes pushed down in their order; ending at `to` when moving down, with the lines it passes moved up in their order; at JavaScript's shifted or negative splice start when `to` lies inside the block; everything else stays put |
| Editor.FlipBoxFlips | dist-server/index.js:284-293 | the flip swaps `[ ]` and `[x]` right after the indentation and keeps everything else |
| Editor.FlipBoxTwice | dist-server/index.js:284-293 | flipping twice restores the line |
| Editor.BoxIsFirstOccurrence | dist-server/index.js:284-293 | the box after the indentation is the first occurrence of its text, so `replace` rewrites that one |
| Editor.Toggle | dist-server/index.js:270-300 | an index outside the file is rejected, and so is a line that is not a checklist line; otherwise only that line changes, with its box flipped |
| Editor.ToggleTwice | dist-server/index.js:270-300 | toggling the same line twice restores the file |
| Editor.WeekInsertPoint | dist-server/index.js:338-351 | the insert point is the first week header or separator after the chosen header, or the end of the file |
| Editor.PlaceholderAfter | dist-server/index.js:357-371 | the placeholder removed is the first one after the project header, before any boundary or checklist line |
| Editor.PlaceholderAfterNone | dist-server/index.js:357-371 | when none is removed, a boundary or checklist line comes before every later placeholder |
| Editor.PoolInsertPoint | dist-server/index.js:372-385 | the insert point is the first separator, `###` line, or blank line before `###` after the header; with none it is the line after the header |
| Editor.AddToProject | dist-server/index.js:352-395 | an unknown project is refused; otherwise the placeholder is dropped and the task inserted at the project's insert point, all else kept in order |
| Editor.AddTask | dist-server/index.js:326-402 | a missing task or project is refused; a non-negative week index inserts into that week, anything else into the project |
| Editor.SubtaskInsertPoint | dist-server/index.js:424-440 | the subtask goes after the parent's deeper and blank followers, stopping at the first shallower line or at trailing blanks |
| Editor.AddSubtask | dist-server/index.js:404-450 | the checks (task, index, checklist line) in the source's order; on success one line is inserted at the insert point and nothing else changes |
| Editor.NewSubtaskIsChild | dist-server/index.js:421-423 | the new subtask is a pending line one indentation level below its parent |
| Editor.PoolSeparator | dist-server/index.js:469-485 | the pool's separator is the first separator after the first pool header, or None when either is missing |
| Editor.AddProject | dist-server/index.js:452-494 | a missing name, a duplicate header and a missing pool separator are refused; otherwise the four-line project block goes just before the separator |
| Editor.AddProjectTwice | dist-server/index.js:462-468 | adding the same project twice to the same line array is refused the second time, unless the name ends in whitespace |
| Editor.AddProjectSaved | dist-server/index.js:459-489 | adding a project, saving with `join('\n')`, reading back with `split('\n')` and adding it again: refused exactly when the name holds no newline and does not end in whitespace; otherwise added again |
| Editor.SubtreeEnd | dist-server/index.js:513-528 | a subtree is the line and its following non-blank, non-boundary, deeper lines |
| Editor.Delete | dist-server/index.js:496-539 | a bad index and a non-checklist line are refused; otherwise exactly the subtree is removed and the rest kept in order |
| Editor.Edit | dist-server/index.js:541-570 | the three checks in order; on success only the line changes, keeping its indentation, box and one space, followed by the trimmed new text |
| Editor.Reorder | dist-server/index.js:572-618 | both indices must lie in the file; the result is a permutation of the lines |
| Editor.ReorderPlacement | dist-server/index.js:585-611 | the moved block is the source line's subtree and lands as `Lines.MoveBlockPlacement` says, in all three cases of `to` |
| Forest.BuildShape | todo-viewer/src/utils/parser.ts:31-51 | the reference tree of a flat item list has those items in preorder, and every child is deeper than its parent |
| Forest.StackBuildIsBuild | todo-viewer/src/utils/parser.ts:31-51 | the stack-based builder gives the reference tree: same preorder, children deeper than parents |
| Forest.RunPreorder | dist-server/index.js:684-699 | each pushed item is appended to the document order of the forest being built |
| Pool.BuildPoolSpec | dist-server/index.js:641-703 | one bucket per distinct project name in the pool, in first-appearance order; a named bucket's forest holds exactly that project's checklist lines in preorder; the unnamed bucket is empty; no pool header gives no buckets |
| PoolForests.BuildPoolForests | dist-server/index.js:641-703 | each named project's roots are, header segment by header segment in file order, the forest the reference builder `Forest.Build` makes of that segment's checklist lines; so each line hangs under the nearest line above it in its segment that is indented less deeply, or is a root, and no child hangs across a header |
| Pool.OwnedLines | dist-server/index.js:657-699 | every node of a project's forest is the record of a checklist line under a header of that name |
| Pool.OwnedComplete | dist-server/index.js:657-699 | every pool checklist line under a header of the project gives a node of its forest |
| Pool.OwnedInOrder | dist-server/index.js:670-699 | a project's nodes are in strictly increasing line order, so no line is taken twice |
| Status.MarkFlags | dist-server/index.js:705-731 | a node is archived iff its subtree holds a completed item, and deleted iff it is completed with no pending descendant |
| Status.DeleteIff | dist-server/index.js:728-730 | a node is deleted iff its whole subtree, itself included, holds no pending item |
| Status.DeleteImpliesArchive | dist-server/index.js:725-730 | every deleted node is archived |
| Status.RenderEmpty | dist-server/index.js:733-768 | the archive rendering is empty iff the node is not archived; the retained rendering is empty iff it is deleted |
| Status.ArchiveExact | dist-server/index.js:733-751 | the archive of a tree lists, in preorder, exactly the subtrees holding a completed item, each as a `[x]` line indented four spaces per depth |
| Status.RetainExact | dist-server/index.js:753-768 | the retained lines list, in preorder, exactly the subtrees holding a pending item, each forced to `[ ]` |
| Status.Conservation | dist-server/index.js:733-768 | every completed item is archived and every pending item is retained |
| Status.ArchiveDone | dist-server/index.js:739-742 | every archive line is a completed checklist line indented at least four spaces per base level |
| Status.RetainPending | dist-server/index.js:759-760 | every retained line is a pending checklist line |
| Status.ForcePendingShape | dist-server/index.js:759 | forcing pending keeps the indentation and text and sets the box to `[ ]` |
| Status.ArchivedLineDone | dist-server/index.js:739-742 | an archive line at depth d is completed and indented exactly 4·d spaces |
| Calendar.DateRoundTrip | dist-server/index.js:632 | a day's year, month and day of month give the day back |
| Calendar.DateOfValid | server/index.ts:348 | a valid date's ordinal reads back as that year, month and day |
| Calendar.GetMonday | dist-server/index.js:620-627 | the Monday is a Monday within the six days up to the date |
| Calendar.MondayUnique | dist-server/index.js:620-627 | no other Monday lies within those six days |
| Calendar.GetMondayOfMonday | server/index.ts:323-330 | the Monday of a Monday is itself |
| Calendar.FindTitleLeftmost | server/index.ts:343 | the title match is the leftmost position where the pattern matches |
| Calendar.FindTitleNone | server/index.ts:343-344 | there is no match iff the pattern matches at no position |
| Calendar.ParseWeekTitle | server/index.ts:341-349 | parsing fails exactly when the title does not match |
| Calendar.TitleRoundTrip | server/index.ts:333-343 | a title written from two month/day pairs matches back as those numbers |
| Calendar.WeekTitleRoundTrip | dist-server/index.js:629-634 | a formatted week title matches back as its Monday's and Sunday's month and day |
| Calendar.ParseWeekTitleRoundTrip | server/index.ts:333-349 | parsing a formatted week title in its own year gives back the Monday |
| Calendar.ParseWeekTitleOf | server/index.ts:341-349 | any title of the form `a月b日 - c月d日` parses to day b of month a of the given year |
| Weeks.BlockAt | dist-server/index.js:864-878 | a block is read only from a week header whose title matches, at that line, with that title |
| Weeks.WeekBlocks | dist-server/index.js:864-878 | the blocks come in strictly increasing line order |
| Weeks.WeekBlocksSound | dist-server/index.js:864-878 | every listed block is what its header line reads as |
| Weeks.WeekBlocksComplete | dist-server/index.js:864-878 | every header that reads as a block is listed |
| Weeks.InsertPosition | dist-server/index.js:879-889 | new blocks go right after the first separator, or at the end when there is none |
| Weeks.AddWeek | dist-server/index.js:1143-1180 | a missing title and an existing header are refused; otherwise the five-line block goes at the insert position and nothing else changes |
| Weeks.AddWeekTwice | dist-server/index.js:1153-1159 | adding the same week twice to the same line array is refused the second time, unless the title ends in whitespace |
| Weeks.AddWeekSaved | dist-server/index.js:1150-1175 | the same through the saved file: refused exactly when the title holds no newline and does not end in whitespace; otherwise added again |
| Weeks.FreshTarget | dist-server/index.js:893-902 | with no blocks, a block titled from today goes at the insert position and the current header is its fourth line |
| Weeks.FindContaining | dist-server/index.js:905 | the found block is the first whose dates hold today; None iff no block holds it |
| Weeks.ResolveExisting | dist-server/index.js:905-909 | when a block holds today, it is the current week and the lines are unchanged |
| Weeks.GapStarts | dist-server/index.js:915-924 | the missing weeks start 7 days apart from the day after the newest block's end, and the last one holds today |
| Weeks.GapTitles | dist-server/index.js:925-926 | the titles are the missing weeks' titles, newest first |
| Weeks.GapNewest | dist-server/index.js:910-936 | the current week is the newest missing week, which holds today |
| Weeks.GapEmpty | dist-server/index.js:917 | when today is not past the newest block, nothing is inserted and no title is chosen |
| Weeks.GapLayout | dist-server/index.js:928-932 | the k-th inserted block is a separator and a header with the k-th title |
| Weeks.GapKeeps | dist-server/index.js:932 | the gap blocks are spliced in at the insert position and all other lines keep their order |
| Weeks.CurrentWeekKeeps | dist-server/index.js:890-936 | resolving the current week only inserts lines: every line of the document is among the lines the week is read from |
| Weeks.Relocate | dist-server/index.js:938-944 | the rescan finds the first line equal to the current header; failing that it keeps the earlier index |
| Weeks.CurrentWeek | dist-server/index.js:938-952 | the week's end is the first separator or week header after its header, or the end of the file |
| Splice.SortDescending | dist-server/index.js:1033-1034 | the insertions are sorted by decreasing index |
| Splice.SortPermutes | dist-server/index.js:1033-1034 | sorting keeps every insertion |
| Splice.SortStrictly | dist-server/index.js:1033-1034 | insertions at distinct indices sort strictly decreasing |
| Splice.SpliceAllInterleaves | dist-server/index.js:1035-1037 | splicing back to front at distinct indices puts each group of lines right before the original line at its index |
| Merge.GroupBy | dist-server/index.js:953-960 | one group per distinct project name, covering every name of the input |
| Merge.GroupByLookup | server/index.ts:537-544 | a project's group holds all of that project's archive lines, in order |
| Merge.EntryNameShape | dist-server/index.js:967 | a week entry line is `- [x] ` followed by a non-empty, single-line name |
| Merge.EntryEnd | dist-server/index.js:970-992 | an entry extends over indented and blank lines up to the next entry line or any other line |
| Merge.EntriesAt | dist-server/index.js:963-995 | each scanned entry starts at an entry line inside the week and ends where its continuation ends |
| Merge.EntriesComplete | dist-server/index.js:963-995 | every entry line inside the week is scanned |
| Merge.EntriesOrdered | dist-server/index.js:963-995 | entries do not overlap and come in file order |
| Merge.FindEntry | dist-server/index.js:1001 | the entry matched is the first with that name; None iff there is none |
| Merge.ContinuesIsAsWritten | dist-server/index.js:980-988 | the continuation test, as written with two regular expressions and a blank test, is the same as the simpler `Continues` |
| Merge.MinIndentAttained | dist-server/index.js:1005-1009 | the minimum indentation of the non-blank lines is reached by one of them |
| Merge.ReindentLine | dist-server/index.js:1005-1013 | a reindented line keeps its trimmed text and moves by the group's minimum indentation, replaced by the pad; blank lines become the pad |
| Merge.ReindentShallowest | dist-server/index.js:1005-1013 | after reindenting, the shallowest non-blank lines sit exactly at the pad and none lies shallower |
| Merge.ReindentRelative | dist-server/index.js:1005-1013 | reindenting keeps the relative indentation of any two non-blank lines |
| Merge.Shift | dist-server/index.js:1014-1021 | every entry ending at or after the insert point moves down by the number of inserted lines; names and starts stay |
| Merge.PlanAsWritten | dist-server/index.js:996-1032 | each group becomes exactly one insertion or one new entry |
| Merge.PlanFixedInsertion | dist-server/index.js:1000-1013 | every planned insertion is a named group's reindented lines at the end of its entry |
| Merge.PlanFixedCoversMatched | dist-server/index.js:1000-1013 | every group whose project has an entry gets exactly that insertion |
| Merge.PlanFixedCoversRest | dist-server/index.js:1022-1030 | every group without an entry is added at the end of the week |
| Merge.PlanFixedDistinct | dist-server/index.js:1033-1037 | distinct project names give distinct insertion indices |
| Merge.NewEntryReadsBack | dist-server/index.js:1046-1072 | a new entry reads back as an entry of that name, its lines as its continuation |
| Merge.MergeSplicesInterleave | dist-server/index.js:996-1037 | with the corrected plan, the back-to-front splice puts each project's lines at the end of its own entry |
| Merge.MergeAsWrittenMisplaces | dist-server/index.js:1014-1037 | as written, with two matched projects, the later group is spliced at its entry end plus the earlier group's length |
| Merge.MergeOfTwo | dist-server/index.js:1000-1037 | corrected, the two groups are spliced at their own entries' ends |
| Splice.InsertBelow | dist-server/index.js:1069-1071 | inserting past line h leaves the lines up to h alone and keeps every later line, and every inserted line, after h |
| Splice.SpliceAllBelow | dist-server/index.js:1033-1037 | splicing at indices past line h leaves the lines up to h alone and keeps every later line, and every spliced line, after h |
| Splice.SpliceAllKeeps | dist-server/index.js:1033-1037 | splicing only adds lines: every line of the document survives, whatever the indices |
| Merge.WeekEntriesBelow | dist-server/index.js:963-995 | every entry of the week ends below the week header |
| Merge.LinesOfHolds | dist-server/index.js:953-958 | every archive line of a project is among the lines collected under its name |
| Merge.LookupFound | dist-server/index.js:953-958 | a name with collected lines has a group holding exactly those lines |
| Merge.EntryBlockHolds | dist-server/index.js:1046-1068 | every line of a group without an entry is written, reindented, into its new entry |
| Merge.NewEntriesHold | dist-server/index.js:1046-1068 | the same for every group added at the end of the week |
| Merge.PlanFixedBelow | dist-server/index.js:1000-1013 | corrected, every insertion lands below the week header |
| Merge.PlanFixedWrites | dist-server/index.js:996-1032 | corrected, every line of every group is written, reindented, by an insertion or a new entry |
| Merge.PlanAsWrittenBelow | dist-server/index.js:1000-1021 | as written, every insertion still lands below the week header: the extra shifts only push indices down |
| Merge.PlanAsWrittenWrites | dist-server/index.js:996-1032 | as written, every line of every group is written too; only the places differ |
| Merge.MergeWithBelow | dist-server/index.js:1033-1071 | a merge whose insertions lie below the header keeps the document up to the header, keeps every later line after it and puts every written line after it |
| Merge.MergePlaces | dist-server/index.js:996-1071 | both merges keep the document up to the week header and put every line of every group, reindented, after it |
| Merge.MergeKeeps | dist-server/index.js:996-1071 | both merges keep every line that followed the week header after it |
| Merge.MergeKeepsAll | dist-server/index.js:996-1071 | both merges keep every line of the document, wherever the week header is |
| Settle.ArchiveOfEmpty | dist-server/index.js:821-836 | a project's archive is empty iff none of its roots has a completed item in its subtree |
| Settle.Listed | dist-server/index.js:830-835 | a project is listed for archiving iff its archive is non-empty, with exactly those lines |
| Settle.ContentsComplete | dist-server/index.js:821-836 | every project with archive lines has its entry in the archive contents |
| Settle.ContentsSound | dist-server/index.js:821-836 | every entry of the archive contents is some project's non-empty archive |
| Settle.AnyArchivedIsCompleted | dist-server/index.js:808-819 | something is archivable iff some root's subtree holds a completed item |
| Settle.RetainOfEmpty | dist-server/index.js:839-845 | a project retains nothing iff every root is deleted |
| Settle.ProjectBlock | dist-server/index.js:846-852 | a rebuilt project is its header, then its retained lines or the placeholder, then a blank |
| Settle.PoolBlock | dist-server/index.js:838-854 | the rebuilt pool starts with the pool header and a blank and ends with a blank |
| Settle.ScanPoolFinds | dist-server/index.js:770-785 | the pool start is found iff some line trims to the pool header |
| Settle.ScanPoolSpan | dist-server/index.js:770-782 | the start is a pool header, the end is the first separator after it, and only plain lines lie between |
| Settle.ReplacePool | dist-server/index.js:770-793 | replacing fails iff no line trims to the pool header |
| Settle.ReplacePoolShape | dist-server/index.js:786-791 | the lines before the pool are kept, the new pool follows, then the old lines from the separator on; with no separator only the last line stays |
| Settle.Settle | dist-server/index.js:795-1086 | the week settle as written: an empty pool and nothing to archive are refused, exactly when those hold; past those, a project with archive lines named after a key every plain object inherits (`constructor`, `toString`, `__proto__`, …) fails, exactly then; in every other case it succeeds, since the pool header survives to the pool's replacement |
| Settle.InheritedNameFails | dist-server/index.js:954-959 | a project named after an inherited key, with something to archive, makes the settle as written fail, and not the corrected one |
| Settle.SettleFixed | dist-server/index.js:795-1086 | the same settle with the corrected merge and grouping: it refuses an empty pool or nothing to archive, exactly when those hold, and succeeds otherwise |
| Settle.MergedKeepsPool | dist-server/index.js:795-1074 | with a non-empty pool, the pool header line it was built from is still in the document `replacePoolInLines` gets, by either merge, so that call never throws |
| Settle.SettlePool | dist-server/index.js:1073-1074 | on success the lines before the pool are the merged week's, followed by the rebuilt pool |
| Settle.SettleGroups | dist-server/index.js:953-960 | the lines merged for a project name are all the archive lines of the projects of that name |
| Settle.ArchiveOfRoot | dist-server/index.js:824-830 | every archive line of a root is among its project's archive lines |
| Settle.GroupedArchives | dist-server/index.js:821-1071 | merging the grouped archive into a week keeps the document up to its header and puts every archive line of every project after it, by either merge |
| Settle.MergedArchives | dist-server/index.js:795-1071 | the same for the current week the handler finds or creates |
| Settle.ReplaceKeepsWeek | dist-server/index.js:1073 | putting the pool back keeps a week that follows the pool's separator, with its header and the lines after it |
| Settle.SettleArchives | dist-server/index.js:795-1086 | end to end: when the settle succeeds and the week follows the pool, every archive line of every project is in the result after the current week's header line, by either merge |
| Settle.SettleCompleted | dist-server/index.js:795-1086 | end to end from a task: every completed item under a pool project's root is in the result, as a done line, after the current week's header line |
| OldSettle.KindsWellFormed | server/index.ts:361-403 | every completed pool task's block ends after it, and its lines are its followers |
| OldSettle.Region | server/index.ts:361-403 | the pool is the lines between the first pool header and the first separator after it |
| OldSettle.CollectAsWrittenComplete | server/index.ts:374-403 | as written, every completed pool task is taken at its own line |
| OldSettle.TakenTwice | server/index.ts:383-401 | as written, a completed task nested in a completed task's block is taken twice |
| OldSettle.ArchivedTwiceAsWritten | server/index.ts:383-401 | the same, stated on the file: two distinct taken blocks cover the nested line |
| OldSettle.CollectDisjoint | server/index.ts:383-401 | corrected, taken blocks do not overlap |
| OldSettle.ArchivedOnce | server/index.ts:383-441 | corrected, every removed line lies in exactly one taken block |
| OldSettle.CoveredSame | server/index.ts:409-441 | as written and corrected remove the same lines |
| OldSettle.RemovedInPool | server/index.ts:409-441 | every removed line is a completed pool task or a deeper non-blank line of its block |
| OldSettle.KeptOutsidePool | server/index.ts:409-444 | removing leaves the lines up to the pool header and from the separator on as they were |
| OldSettle.NothingToSettleIff | server/index.ts:405-407 | the settle finds nothing to settle iff the pool holds no completed task, as written and corrected alike |
| OldSettle.GroupLines | server/index.ts:546-557 | a named project becomes `- [x] name` and its lines, each trimmed and indented four spaces; the unnamed one its trimmed lines |
| OldSettle.ResolveFresh | server/index.ts:476-518 | with no week blocks, a block for this Monday goes at the insert position |
| OldSettle.ResolveFound | server/index.ts:476-518 | a block titled with this Monday's title is the current week and the lines are kept |
| OldSettle.ResolveGap | server/index.ts:476-518 | otherwise the missing weeks from the newest block's end are filled in |
| OldSettle.GapReachesMonday | server/index.ts:495-507 | from a Monday block, the filled weeks run Monday to Monday and the newest is this Monday's |
| OldSettle.CurrentWeek | server/index.ts:520-535 | the current week of the kept lines, ending at the first separator or `## ` line of any kind after its header |
| OldSettle.Settle | server/index.ts:352-572 | as written: refused with nothing to settle iff nothing is taken; fails iff a taken block's project is named after an inherited key; otherwise the archive goes at the current week's end and everything else keeps its order |
| OldSettle.InheritedNameFails | server/index.ts:538-543 | a block taken under an inherited key makes the settle as written fail, while the corrected one goes through |
| OldSettle.SettleFixed | server/index.ts:352-572 | the same with each block taken once and no inherited keys: refused iff nothing is taken |
| Legacy.SwapMarkerFlips | server/index.ts:90-97 | the first `- [ ]` becomes `- [x]`; failing that, the first `- [x]` becomes `- [ ]` |
| Legacy.SwapMarkerTwice | todo-viewer/server/index.ts:54-61 | with a single marker in the line, swapping twice restores it |
| Legacy.ToggleMarker | todo-viewer/server/index.ts:40-68 | a bad index and a line without a marker are refused; otherwise only that line changes, by the swap |
| Legacy.ToggleMarkerTwice | server/index.ts:74-104 | with a single marker, toggling twice restores the file |
| Legacy.WeekInsertPoint | server/index.ts:148-160 | the task goes before the first separator or `## ` line after the week header |
| Legacy.PoolInsertPoint | todo-viewer/server/index.ts:85-103 | the insert point is the first `###` or exact `---` line, or a blank before `###`, after the header; else the line after it |
| Legacy.AddToProject | todo-viewer/server/index.ts:71-118 | missing fields and an unknown project are refused; it succeeds exactly when both fields are given and some line trims to the project's header, and then one line is inserted at the insert point |
| Legacy.AddToProjectUnderHeader | todo-viewer/server/index.ts:85-111 | the new task sits after its project's header with no `###` line between them |
| Legacy.AddTask | server/index.ts:133-199 | missing fields refused; a non-negative week index inserts into the week, else into the project |
| Legacy.RoleOf | server/index.ts:222-241 | what the project add scan sees in a line: the pool header, a separator, a project header or other |
| Legacy.AnchorAtSeparator | server/index.ts:222-241 | when the pool has a separator, the scan stops at it |
| Legacy.AddProjectAsWritten | server/index.ts:202-264 | as written: missing name and duplicate refused; no pool anchor is refused exactly when the name is given and new and the scan finds no anchor; it succeeds exactly when the name is given, new and anchored, and the project is then spliced in at the first `###` or separator line after the anchor, before that line, or right after the anchor when there is none |
| Legacy.AddProjectAsWrittenLeavesPool | server/index.ts:247-257 | as written, when the pool has a separator, the new project lands after it, outside the pool |
| Legacy.AddProject | server/index.ts:202-264 | corrected: the same refusals, each exactly when it holds; the new project goes right before the pool's separator, or where the source puts it when the pool has none |
| Legacy.InsertedProjectInPool | server/index.ts:247-257 | corrected, the new header lies inside the pool, which is closed three lines later |
| Legacy.BlockEnd | server/index.ts:284-301 | the moved block is the line and its following deeper non-blank lines |
| Legacy.Reorder | server/index.ts:267-320 | both indices must lie in the file; the result is a permutation of the lines |
| Legacy.ReorderPlacement | server/index.ts:303-313 | the moved block lands as `Lines.MoveBlockPlacement` says, in all three cases of `to` |
| Viewer.ParseTodoLine | todo-viewer/src/utils/parser.ts:16-28 | a line parses iff it is a checklist line whose text has no line terminator; the item has the line's index, level, box and trimmed text |
| Viewer.ParseEmit | todo-viewer/src/utils/parser.ts:164-174 | parsing a serialized item's line gives back its box, depth and trimmed text |
| Viewer.EmitShape | todo-viewer/src/utils/parser.ts:165-167 | a serialized line is 4·depth spaces, the box, a space and the text |
| Viewer.SerializeLayout | todo-viewer/src/utils/parser.ts:164-174 | serializing a tree writes its items in preorder, each at its depth |
| Viewer.LayoutItems | todo-viewer/src/utils/parser.ts:169-171 | the layout lists the tree's items in preorder |
| Viewer.LayoutLevels | todo-viewer/src/utils/parser.ts:169-171 | the root sits at the given depth and every descendant deeper |
| Viewer.KindOf | todo-viewer/src/utils/parser.ts:68-143 | how the parser sees a line: pool header, project header, week header, separator, task or other |
| Viewer.MarkCurrent | todo-viewer/src/utils/parser.ts:155-158 | only the first week is marked current |
| Viewer.ParseTodoMdShape | todo-viewer/src/utils/parser.ts:54-161 | the parse keeps the raw text; every group is a known project with items; every week has items and only the first is current; every item is parsed from its own line |

## Left out

- Index checks: every handler checks an index only with `typeof … === 'number'`. A fractional index such as 1.5 passes, `lines[1.5]` is undefined, and the handler fails with a 500. The model takes integer indices.
- Text encoding: Dafny characters are Unicode scalar values, while JavaScript lengths and indices count UTF-16 code units. Lines are the same, but an index inside a line differs for characters outside the Basic Multilingual Plane.
- Settle responses: the `settledCount` field (it counts projects, not tasks) and the `weekTitle` field are not modelled. The model returns only the new lines.
- I/O and authentication: choosing the file by user and year, reading and writing files, and authentication are not modelled. Handlers take and return lines.
- The clock: `new Date()` is replaced by the `today` parameter. The year used to read week titles is the year of `today`.
- Calendar.DayOf: every year has 365 days, with no leap day. After 28 February a leap year's dates are one day off, and 29 February reads as 1 March.
- Calendar.WeekTitle: a title whose week crosses 29 February of a leap year is written with the wrong Sunday.
- Calendar.GetMonday: weekdays come from the 365-day calendar, so real dates drift from their real weekday by one day per leap day before them.
- Merge.GroupBy: groups keep first-appearance order. `Object.keys` of the plain object at dist-server/index.js:999 and server/index.ts:547 lists integer-like names such as "2024" first, in ascending numeric order. For such names the entry order differs, and so does which insertion the as-written merge shifts. The same plain object fails on names it inherits; that failure is modelled in `Settle.Settle` and `OldSettle.Settle`, not in `Merge.GroupBy`.
- Calendar.ParseWeekTitle: `parseInt` is read as the exact value of the digit run; past 2^53 JavaScript loses precision, and the model does not.
- Weeks.FindContaining: block dates are exact day numbers. `new Date(year, m - 1, d)` at dist-server/index.js:871-872 is an Invalid Date once it lies more than 10^8 days from 1970 (a title such as `1月1日 - 1月99999999日`). There no block holds today and the gap fill creates nothing, while the model can choose the block. The 365-day calendar has no fixed 1970 to count that range from.
- Legacy.AddProject: with a pool header but no separator after it, the project goes before the next `###` or `---` line after the last project header, as written; only the separator case is corrected.
- Settle end to end: `Settle.SettleArchives` and `Settle.SettleCompleted` place every archive line after the current week's header line. They do not prove that the line lands before the week's end. That bound needs every written line, entry names included, to read as neither a separator nor a week header, which the model does not carry through the merge. They assume the current week follows the pool's closing separator. If it does not, the handler's own `replacePoolInLines` can overwrite the week.

## Findings

| source | as written | input that shows it | evidently intended | confidence | as-written member | corrected member |
|---|---|---|---|---|---|---|
| dist-server/index.js:954-959 | archive lines are grouped in a plain `{}` (also at server/index.ts:538-543), so a project named `constructor`, `toString`, `__proto__` or another inherited key finds a value already there, `.push` is not a function, and the settle throws and answers 500 | `## 待办池`, `### constructor`, `- [x] a`, `---`, then a week | every project's lines are grouped, whatever its name | not executed | Settle.Settle, Settle.InheritedNameFails, OldSettle.Settle, OldSettle.InheritedNameFails | Settle.SettleFixed, OldSettle.SettleFixed |
| dist-server/index.js:1014-1037 | each insertion shifts every later entry end by its length, and the insertions are then also spliced back to front, so a later group is shifted twice | a week with entries `- [x] A` (one sub-line) and `- [x] B` (one sub-line) followed by `---`, settling one line each for A and B: B's line is spliced after the `---` | each group lands at the end of its own entry | not executed | Merge.MergeAsWrittenMisplaces, Settle.Settle | Merge.MergeOfTwo, Merge.MergeSplicesInterleave, Settle.SettleFixed |
| server/index.ts:222-257 | the scan for the project insert point starts at the pool's separator when there is one, and inserts before the next `###` line or separator after it, or right after the separator when there is none | a pool `## 待办池`, `### A`, `---`, then a week: the new project lands after the `---`, outside the pool | the new project goes right before the pool's separator | not executed | Legacy.AddProjectAsWritten, Legacy.AddProjectAsWrittenLeavesPool | Legacy.AddProject, Legacy.InsertedProjectInPool |
| server/index.ts:383-401 | every completed pool task is taken with its block, nested completed tasks included, so a nested completed task is archived twice | `### P`, `- [x] A`, `    - [x] a`: the archive holds `    - [x] a` twice | each completed line archived once, with its enclosing top-level task | not executed | OldSettle.ArchivedTwiceAsWritten, OldSettle.TakenTwice, OldSettle.Settle | OldSettle.ArchivedOnce, OldSettle.CollectDisjoint, OldSettle.SettleFixed |
