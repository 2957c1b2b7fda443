# WordDiffMerger change-reconciliation core in Dafny

WordDiffMerger compares several edited copies of a Word document with the original.
It collects each copy's tracked revisions and comments as a `ChangeSet` of
`WordChange` entries, each with its candidate `ChangeVariant`s. It flags changes that
start at the same offset as conflicts. A review form lets the user pick a variant per
change. Finally the merge engine applies the chosen variants to a copy of the
original, from the highest start offset down.

This project models that pipeline without Word and without WinForms. Its modules are:

- `Nullable` (`nullable.dfy`): C# null as `Option`, and `??` as `GetOr`.
- `Strings` (`strings.dfy`): the .NET string operations the core uses:
  - `ToLower` (ASCII letters only);
  - ordinal `Contains`;
  - `string.IsNullOrEmpty`;
  - the single-character `Replace` calls.
- `Utf16` (`strings.dfy`): a .NET string as the UTF-16 code units it is stored in,
  which is what `Length` and `Substring` count.
- `ChangeModel` (`changeset.dfy`): the three records of `ChangeSet.cs`. `WordChange`
  and `ChangeSet` are classes, because other files overwrite their fields in place.
  `ChangeVariant` is a datatype. The module also has the flattening of a list of sets
  and the case-insensitive reading of a type string, which both the merger and the
  review form perform.
- `Comparer` (`comparer.dfy`): `WordComparer.cs`. Revisions and comments are plain
  records of start, end, text, author and body. `DetectConflicts` is imperative: it
  fills a dictionary in a loop, then flags the objects. It is proved against a
  position-by-position specification `Detected`.
- `Merger` (`merger.dfy`): `WordMerger.cs`.
  - The document is a class holding the text, the added comments and the added font
    settings.
  - Setting `range.Text` is the splice `text[..s] + t + text[e..]`.
  - `document.Range().End` is the text length.
  - The engine flattens, filters, sorts by descending start and applies one change at
    a time. It is specified by the value-level functions `Step` and `ApplyAll`.
  - The lemmas prove the rationale of the descending sort, for changes where each
    ends at or before the start of every change applied before it: each change finds
    the text before its end untouched, so the result equals the text computed on the
    original alone (`Merged`). Overlapping changes have no such guarantee: a change
    that reaches into a range already rewritten sees the rewritten text.
- `Review` (`review.dfy`): the resolution logic of `ChangeReviewForm.cs`. It covers:
  - the conflict and non-conflict partition of a panel;
  - the auto-selection of variant 0 each time the panels are built;
  - accept-all and reject-all, including the rebuild that follows;
  - the radio buttons;
  - the status counter;
  - the two label helpers, whose lengths count UTF-16 code units.

The model follows the code in four points a reader might not expect:

- A new `WordChange` has `SelectedVariantIndex == 0`. There is no separate
  "unresolved" value, and a change with a variant is already selected.
- The status counter treats a rejected change (index -1) as unresolved. It counts only
  indices that name an existing variant.
- Auto-selection applies to every change that is not a conflict, and to any change with
  at most one variant. It runs every time the panels are rebuilt, not once. So the
  rebuild that follows reject-all selects variant 0 again for those changes.
- The merge sort is `List.Sort`, which is not stable. The model promises only a
  permutation in non-increasing start order, not the original order of ties.

## Model

| member | source | states |
|---|---|---|
| Nullable.Option.GetOr | WordDiffMerger/WordMerger.cs:105 | the `??` operator: the value when it is present, the fallback for null (also WordMerger.cs:115 and WordComparer.cs:76, 118, 186) |
| ChangeModel.ChangeSet.constructor | WordDiffMerger/ChangeSet.cs:5-9 | a new set has no file name and an empty, non-null change list |
| ChangeModel.WordChange.constructor | WordDiffMerger/ChangeSet.cs:11-20 | a new change has null strings, positions 0, an empty variant list, selected index 0 (the int default, so no "unresolved" value) and is not a conflict; nothing forces `StartPos <= EndPos` |
| ChangeModel.HasSelection | WordDiffMerger/WordMerger.cs:35-38 | the selected index names an existing variant, the test shared by the merge filter (35-38), the guard of ApplySingleChange (81-83) and the status counter (ChangeReviewForm.cs:294); its uses are stated by Merger.SelectedKeeps, Merger.StepFrame and Review.AllResolved |
| ChangeModel.Chosen | WordDiffMerger/WordMerger.cs:86 | the variant the selected index names; used by Merger.StepCases and Merger.FormatMarksMeaning |
| ChangeModel.Flat | WordDiffMerger/WordMerger.cs:28-32 | the changes of all sets, set after set; its meaning is stated by ChangeModel.FlatMembers and Merger.FlattenChanges |
| ChangeModel.FlatMembers | WordDiffMerger/WordMerger.cs:28-32 | the flattened list holds every change of every set and nothing else |
| ChangeModel.ParseKind | WordDiffMerger/WordMerger.cs:100 | `switch (type.ToLower())`, also at ChangeReviewForm.cs:305; its meaning is stated by ChangeModel.ParseKindMeaning |
| ChangeModel.ParseKindMeaning | WordDiffMerger/WordMerger.cs:100-130 | a known kind is read exactly from a string whose lower-case form is its name; null and any other string read as Unknown |
| ChangeModel.ParseKindName | WordDiffMerger/WordMerger.cs:100-126 | each known kind's name, in any letter case, reads back as that kind |
| ChangeModel.ParseKindIgnoresCase | WordDiffMerger/WordMerger.cs:100 | a type string and its lower-case form read as the same kind |
| Strings.Lower | WordDiffMerger/WordMerger.cs:100 | `ToLower` keeps the length and lowers each character on its own (ASCII letters only) |
| Strings.IsNullOrEmpty | WordDiffMerger/ChangeReviewForm.cs:318 | `string.IsNullOrEmpty`: null and "" are empty, every other string is not (also WordMerger.cs:120, 143); Review.TruncateTextMeaning and Merger.StepCases state its use |
| Strings.Contains | WordDiffMerger/WordMerger.cs:146-150 | the ordinal `Contains`; its meaning is stated by Strings.ContainsAt |
| Strings.ContainsAt | WordDiffMerger/WordMerger.cs:146-150 | ordinal `Contains` holds exactly when the substring occurs at some offset |
| Strings.RemoveAll | WordDiffMerger/ChangeReviewForm.cs:321 | `Replace("\r", "")` leaves no such character, is shorter by exactly the number of them, keeps every other character as often as the text has it, and returns a text without it unchanged |
| Strings.RemoveAllAppend | WordDiffMerger/ChangeReviewForm.cs:321 | removal works piece by piece, so the characters kept stay in their order |
| Strings.RemoveAllChar | WordDiffMerger/ChangeReviewForm.cs:321 | one character is dropped exactly when it is the removed one |
| Strings.ReplaceAll | WordDiffMerger/ChangeReviewForm.cs:321 | `Replace` of one character by another changes exactly the positions holding it |
| Strings.SingleLine | WordDiffMerger/ChangeReviewForm.cs:321 | the three `Replace` calls leave no carriage return, line feed or tab; only carriage returns shorten the text; in a text without carriage returns each line feed and tab becomes a space and every other character stays in place; a text without breaks comes back unchanged |
| Strings.SingleLineDropsReturns | WordDiffMerger/ChangeReviewForm.cs:321 | the line of a text is the line of that text with its carriage returns removed, and is shorter by exactly their number |
| Utf16.EncodeChar | WordDiffMerger/ChangeReviewForm.cs:323 | a character below U+10000 is one code unit, any other is two |
| Utf16.Encode | WordDiffMerger/ChangeReviewForm.cs:323 | a string of n characters has between n and 2n code units |
| Utf16.WideCount | WordDiffMerger/ChangeReviewForm.cs:323 | the characters at or above U+10000, at most one per character; Utf16.EncodeLength states what they cost |
| Utf16.EncodeLength | WordDiffMerger/ChangeReviewForm.cs:323 | `Length` of a string is its number of characters plus its number of characters at or above U+10000 |
| Utf16.EncodeWide | WordDiffMerger/ChangeReviewForm.cs:323 | a string of characters all at or above U+10000 has twice as many code units as characters |
| Utf16.DecodeEncode | WordDiffMerger/ChangeReviewForm.cs:323-326 | reading the code units back gives the string again, so no two strings share their code units |
| Utf16.EncodeNoBreak | WordDiffMerger/ChangeReviewForm.cs:321-326 | a string without carriage return, line feed or tab has no such code unit |
| Utf16.EncodeNarrow | WordDiffMerger/ChangeReviewForm.cs:323 | a string whose characters all lie below U+10000 is its own characters, one code unit each |
| Comparer.GetChangeType | WordDiffMerger/WordComparer.cs:157-172 | the type string is "unknown" exactly for the revision kinds the switch does not name |
| Comparer.GetChangeTypeParses | WordDiffMerger/WordComparer.cs:157-172 | read back by the merge engine, insert/delete/replace keep their kind, property becomes format, and every other kind is Unknown (never applied) |
| Comparer.CommentFor | WordDiffMerger/WordComparer.cs:174-195 | the body of the first comment whose scope contains the range; "" for a null range or when no comment contains it |
| Comparer.Covers | WordDiffMerger/WordComparer.cs:182-184 | a comment whose scope is present and contains the range; used by Comparer.CommentFor |
| Comparer.TextOf | WordDiffMerger/WordComparer.cs:84 | `range?.Text ?? ""`: a null range or a null text reads as "" (also WordComparer.cs:117); stated through Comparer.RevisionChange and Comparer.CommentChange |
| Comparer.GetCommentForRange | WordDiffMerger/WordComparer.cs:174-195 | the search loop with early return computes CommentFor |
| Comparer.RevisionChange | WordDiffMerger/WordComparer.cs:71-88 | a fresh, unflagged change with the revision's type string, positions and text (defaults when the range is null), and one variant whose author defaults to "Unknown" and whose comment is the covering comment's body |
| Comparer.CommentChange | WordDiffMerger/WordComparer.cs:104-121 | a fresh, unflagged "comment" change with the scope's positions and text, and one variant carrying the comment's author (default "Unknown") and body |
| Comparer.BuiltChangeIsSelected | WordDiffMerger/WordComparer.cs:81-88 | a change built from a revision has exactly one variant, with non-null author, text and comment, and index 0 already selects it |
| Comparer.BuiltCommentIsComment | WordDiffMerger/WordComparer.cs:104-121 | a change built from a comment reads as a comment change, has exactly one selected variant, and its author defaults to "Unknown" |
| Comparer.ProcessRevisions | WordDiffMerger/WordComparer.cs:65-96 | appends one fresh change per revision, in enumeration order, and keeps the changes already there |
| Comparer.ProcessComments | WordDiffMerger/WordComparer.cs:98-129 | appends one fresh comment change per comment, in enumeration order, and keeps the changes already there |
| Comparer.CollectChanges | WordDiffMerger/WordComparer.cs:12-38 | a new set with the revision changes first, in order, then the comment changes, in order, none flagged |
| Comparer.CompareDocuments | WordDiffMerger/WordComparer.cs:34-41 | every collected change is fresh and built from its revision or comment, and is flagged exactly when another change of the set has the same start offset |
| Comparer.DetectedIdempotent | WordDiffMerger/WordComparer.cs:147-152 | detection only ever sets flags, so running it twice flags what running it once does |
| Comparer.DetectedFromClear | WordDiffMerger/WordComparer.cs:131-155 | from clear flags, a change is flagged exactly when some other change shares its start offset |
| Comparer.DistinctStartsNotFlagged | WordDiffMerger/WordComparer.cs:138 | when all start offsets differ nothing is flagged, however the ranges overlap |
| Comparer.CountOfPositive | WordDiffMerger/WordComparer.cs:139-140 | a key has a group exactly when some change starts there |
| Comparer.CountOfShared | WordDiffMerger/WordComparer.cs:147 | a change's group has more than one member exactly when another change shares its start |
| Comparer.GroupOf | WordDiffMerger/WordComparer.cs:136-142 | the group under a key has one entry per change starting there |
| Comparer.GroupOfMembers | WordDiffMerger/WordComparer.cs:136-142 | the group under a key holds every change starting there, in list order |
| Comparer.GroupsStep | WordDiffMerger/WordComparer.cs:138-141 | one round of the grouping loop extends the dictionary and its key order to one more change |
| Comparer.GroupByStart | WordDiffMerger/WordComparer.cs:134-142 | the dictionary has a key for each start offset and no other, each group holds the changes starting there in list order, and each key is enumerated exactly once |
| Comparer.GroupsByIndex | WordDiffMerger/WordComparer.cs:136-142 | each change is in the group of its own start offset and in no other, and groups hold only changes of the set |
| Comparer.MarkGroup | WordDiffMerger/WordComparer.cs:149-152 | every change of the group is flagged |
| Comparer.MarkLargeGroups | WordDiffMerger/WordComparer.cs:145-154 | in whatever order the keys are visited, a change ends up flagged exactly when it was flagged before or its group has more than one member |
| Comparer.ConflictsFromGroups | WordDiffMerger/WordComparer.cs:145-154 | flagging the members of large groups gives exactly the flags Detected specifies |
| Comparer.DetectConflicts | WordDiffMerger/WordComparer.cs:131-155 | the new flags are Detected of the old flags and start offsets; nothing else changes |
| Merger.Document.constructor | WordDiffMerger/WordMerger.cs:19-25 | the opened copy holds the original text, with no comments or font settings added yet |
| Merger.Splice | WordDiffMerger/WordMerger.cs:104-115 | setting a range's text keeps the text before and after the range and puts the new text between them |
| Merger.InBounds | WordDiffMerger/WordMerger.cs:91-92 | the range guard `0 <= StartPos <= EndPos <= Range().End`; its effect is stated by Merger.StepFrame |
| Merger.Replacement | WordDiffMerger/WordMerger.cs:102-116 | the text each case writes over the range (null text as "", "" for delete, none for the other kinds); stated case by case in Merger.StepCases |
| Merger.RewriteEnd | WordDiffMerger/WordMerger.cs:102-106 | an insert writes at StartPos and overwrites nothing, every other kind rewrites up to EndPos; stated by Merger.StepCases |
| Merger.Step | WordDiffMerger/WordMerger.cs:79-136 | one change applied to the document as a value; its meaning is stated by Merger.StepFrame and Merger.StepCases |
| Merger.SpliceUndo | WordDiffMerger/WordMerger.cs:104-115 | setting the new range back to the old text restores the document |
| Merger.FormatMarksMeaning | WordDiffMerger/WordMerger.cs:138-158 | no settings without text or with a null comment; otherwise bold, italic and underline, each exactly when the comment contains its name (case-sensitive), all on the change's range |
| Merger.FormatMarks | WordDiffMerger/WordMerger.cs:143-151 | the font settings ApplyFormatting makes; its meaning is stated by Merger.FormatMarksMeaning |
| Merger.NoteOf | WordDiffMerger/WordMerger.cs:118-124 | the comment a comment change adds: one annotation on the change's range, none for a null or empty comment; stated case by case in Merger.StepCases |
| Merger.MarksOf | WordDiffMerger/WordMerger.cs:126-129 | only a format change makes font settings, those of FormatMarks; stated by Merger.StepCases and Merger.StepFrame |
| Merger.StepFrame | WordDiffMerger/WordMerger.cs:79-136 | nothing happens without a valid selection or outside the range guard (inserts included); comment, format and unknown changes leave the text alone; the text before StartPos is never touched; comments and font settings are only appended, each only by its own kind |
| Merger.ApplyAll | WordDiffMerger/WordMerger.cs:44-55 | the `foreach` over the sorted changes as a value; Merger.ApplyInOrder is proved against it and Merger.ApplyAllMerged states what it computes |
| Merger.StepCases | WordDiffMerger/WordMerger.cs:100-130 | insert splices at StartPos, delete removes the range, replace overwrites it (null text as ""); comment appends one annotation with the chosen comment on the change's range when that comment is non-empty and changes nothing otherwise; format appends its settings; any other type changes nothing |
| Merger.StepSideLists | WordDiffMerger/WordMerger.cs:118-129 | a change inside the text adds exactly its own comment (only a non-empty one) and its own font settings |
| Merger.ApplyFormatting | WordDiffMerger/WordMerger.cs:138-158 | appends exactly the settings FormatMarks names, in the order bold, italic, underline |
| Merger.ApplySingleChange | WordDiffMerger/WordMerger.cs:79-136 | the document afterwards is Step of the document before |
| Merger.FlattenChanges | WordDiffMerger/WordMerger.cs:28-32 | the AddRange loop builds the flattened list |
| Merger.Selected | WordDiffMerger/WordMerger.cs:35-38 | the `Where` filter; its meaning is stated by Merger.SelectedKeeps and Merger.SelectedCounts |
| Merger.SelectedKeeps | WordDiffMerger/WordMerger.cs:35-38 | the filter keeps only changes whose index names a variant |
| Merger.SelectedCounts | WordDiffMerger/WordMerger.cs:35-38 | the filter keeps every such change as often as it occurs, and nothing else |
| Merger.InsertDescending | WordDiffMerger/WordMerger.cs:41 | one insertion step of the sort keeps the list in non-increasing start order and adds the change once |
| Merger.SortedDescSplit | WordDiffMerger/WordMerger.cs:41 | both parts of a list sorted by descending start are sorted, and nothing after a position starts later than it |
| Merger.SortedDescJoin | WordDiffMerger/WordMerger.cs:41 | a change placed between two sorted lists that it fits keeps the order |
| Merger.SortByStartDescending | WordDiffMerger/WordMerger.cs:41 | the result is a permutation of the filtered changes, in non-increasing StartPos order |
| Merger.ApplyInOrder | WordDiffMerger/WordMerger.cs:44-55 | each change is applied in turn, and one that does nothing does not stop the rest |
| Merger.ApplyChanges | WordDiffMerger/WordMerger.cs:27-55 | the applied list is a permutation of the selected changes of all sets, sorted by descending start, and the document is the result of applying them in that order |
| Merger.ApplyAllKeepsPrefix | WordDiffMerger/WordMerger.cs:40-41 | changes that all start at or after p never alter the text before p |
| Merger.SeparatedSeesOriginal | WordDiffMerger/WordMerger.cs:40-41 | when each change ends at or before the start of every change applied earlier, each change finds the original text up to its end and passes the range guard exactly as on the original |
| Merger.SortedSeesOriginal | WordDiffMerger/WordMerger.cs:40-41 | in the descending order ApplyChanges produces, a change that ends at or before the start of the change applied just before it finds the original text up to its end and passes the range guard exactly as on the original |
| Merger.SpliceLocal | WordDiffMerger/WordMerger.cs:104-115 | a splice inside a prefix works the same whatever text follows |
| Merger.StepLocal | WordDiffMerger/WordMerger.cs:79-136 | one change inside a prefix works the same whatever text follows |
| Merger.ApplyAllLocal | WordDiffMerger/WordMerger.cs:40-55 | separated changes inside a prefix carry the text that follows along untouched |
| Merger.StepText | WordDiffMerger/WordMerger.cs:100-116 | a change that passes the guard leaves its new middle between the two cut ends of the text |
| Merger.ApplyAllMerged | WordDiffMerger/WordMerger.cs:40-55 | applying separated changes one after another on the live document gives the text computed on the original alone |
| Merger.ApplyAllMergedCut | WordDiffMerger/WordMerger.cs:40-55 | the same, when the first change takes effect |
| Merger.FitsAfterStep | WordDiffMerger/WordMerger.cs:40-41 | separated changes that fit the original still fit after the first one is applied |
| Merger.SideListsCons | WordDiffMerger/WordMerger.cs:44-55 | the comments and font settings of a list are those of its first change followed by those of the rest |
| Merger.ApplyAllSideLists | WordDiffMerger/WordMerger.cs:44-55 | for separated changes that fit the original, the merged document holds every non-empty comment and every font setting the changes make, in application order and original coordinates |
| Merger.NotesOf | WordDiffMerger/WordMerger.cs:118-124 | at most one comment per change |
| Merger.MarksOfAll | WordDiffMerger/WordMerger.cs:126-129 | at most three font settings per change |
| Review.ConflictList | WordDiffMerger/ChangeReviewForm.cs:126 | the conflict filter; its meaning is stated by Review.ListsMembers, Review.ListsPartition and Review.ConflictListKeepsOrder |
| Review.AutoList | WordDiffMerger/ChangeReviewForm.cs:127 | the non-conflict filter; its meaning is stated by Review.ListsMembers, Review.ListsPartition and Review.AutoListKeepsOrder |
| Review.NeedsChoice | WordDiffMerger/ChangeReviewForm.cs:126 | the lambda `c.IsConflict && c.Variants.Count > 1`; stated by Review.ListsMembers |
| Review.AutoApplied | WordDiffMerger/ChangeReviewForm.cs:127 | the lambda that keeps a change that is not a conflict or has at most one variant; stated by Review.ListsMembers |
| Review.ListsPartition | WordDiffMerger/ChangeReviewForm.cs:126-127 | the conflict and non-conflict lists together hold every change of the set exactly as often as the set does |
| Review.ListsMembers | WordDiffMerger/ChangeReviewForm.cs:126-127 | the conflict list holds exactly the conflicts with more than one variant; the other list holds exactly the remaining changes |
| Review.ConflictListKeepsOrder | WordDiffMerger/ChangeReviewForm.cs:126 | the conflict list keeps the set's order |
| Review.AutoListKeepsOrder | WordDiffMerger/ChangeReviewForm.cs:127 | the non-conflict list keeps the set's order |
| Review.SingleVariantPanel | WordDiffMerger/ChangeReviewForm.cs:126-127 | when no change has more than one variant, the conflict list is empty and every change is in the non-conflict list |
| Review.ComparedSetOffersNoChoice | WordDiffMerger/WordComparer.cs:81-88 | every change the comparer builds has one variant and is applied automatically, so its set's conflict list is empty even where changes are flagged, and therefore (with the ensures of BtnRejectAllClick) reject-all's rebuild selects variant 0 of each again |
| Review.CountResolved | WordDiffMerger/ChangeReviewForm.cs:289-297 | the resolved count never exceeds the number of changes |
| Review.CountResolvedAppend | WordDiffMerger/ChangeReviewForm.cs:289-297 | counting set after set adds up the sets' counts |
| Review.AllResolved | WordDiffMerger/ChangeReviewForm.cs:294-300 | the count equals the total exactly when every change's index names a variant |
| Review.ResolvedAcrossSets | WordDiffMerger/ChangeReviewForm.cs:289-297 | every change of the flattened list is resolved exactly when every change of every set is |
| Review.GetChangeTypeText | WordDiffMerger/ChangeReviewForm.cs:303-314 | the label is the "unknown" label exactly for null and unrecognised types, and it names the kind the type reads as |
| Review.KindLabel | WordDiffMerger/ChangeReviewForm.cs:307-312 | the label of each kind; Review.GetChangeTypeText and Review.ChangeTypeTextDistinguishes state that it tells kinds apart |
| Review.ChangeTypeTextIgnoresCase | WordDiffMerger/ChangeReviewForm.cs:305 | the label does not depend on letter case |
| Review.ChangeTypeTextDistinguishes | WordDiffMerger/ChangeReviewForm.cs:303-314 | equal labels mean equal kinds |
| Review.TruncateText | WordDiffMerger/ChangeReviewForm.cs:316-327 | the label is at most maxLength UTF-16 code units long |
| Review.TruncateTextMeaning | WordDiffMerger/ChangeReviewForm.cs:316-327 | "" for a null or empty text; otherwise the whole single line exactly when its UTF-16 code units fit, else exactly maxLength code units: a prefix of the line's code units (which may end inside a surrogate pair) followed by "..." |
| Review.TruncateTextOneLine | WordDiffMerger/ChangeReviewForm.cs:321-326 | the label holds no carriage return, line feed or tab |
| Review.CutOneLine | WordDiffMerger/ChangeReviewForm.cs:326 | cutting a line and adding "..." leaves a line |
| Review.TruncateKeepsShortLine | WordDiffMerger/ChangeReviewForm.cs:323-324 | a non-empty line whose UTF-16 code units fit is shown unchanged, and reads back as the same line |
| Review.TruncateCountsCodeUnits | WordDiffMerger/ChangeReviewForm.cs:323-326 | three characters outside the Basic Multilingual Plane are six code units, so at maxLength 3 the label is only "..." |
| Review.TruncateWide | WordDiffMerger/ChangeReviewForm.cs:323-326 | a line of n characters outside the Basic Multilingual Plane has 2n code units, so at maxLength n it never fits and is cut to its first n - 3 code units followed by "..." |
| Review.SelectFirstVariants | WordDiffMerger/ChangeReviewForm.cs:138-144 | every listed change with a variant gets index 0; the others keep their index |
| Review.RejectEach | WordDiffMerger/ChangeReviewForm.cs:270-273 | every listed change gets index -1 |
| Review.CreateChangeSetPanel | WordDiffMerger/ChangeReviewForm.cs:112-146 | the two lists are the conflict and non-conflict filters of the set; every non-conflict change with a variant gets index 0, every other change keeps its index |
| Review.ChangeReviewForm.constructor | WordDiffMerger/ChangeReviewForm.cs:18-25 | a null list is taken as empty; building the panels selects variant 0 of every auto-applied change with a variant and leaves the rest alone |
| Review.ChangeReviewForm.InitializeReview | WordDiffMerger/ChangeReviewForm.cs:88-110 | every auto-applied change with a variant, in every set, gets index 0; every other index is unchanged |
| Review.ChangeReviewForm.RefreshDisplay | WordDiffMerger/ChangeReviewForm.cs:279-282 | the same as InitializeReview |
| Review.ChangeReviewForm.UpdateStatus | WordDiffMerger/ChangeReviewForm.cs:284-301 | total is the number of changes in all sets, resolved the number whose index names a variant, `0 <= resolved <= total`, and the status is green exactly when every change of every set is resolved |
| Review.ChangeReviewForm.SelectFirstVariantOfAll | WordDiffMerger/ChangeReviewForm.cs:254-261 | every change with a variant, in every set, gets index 0; changes without variants keep theirs |
| Review.ChangeReviewForm.BtnAcceptAllClick | WordDiffMerger/ChangeReviewForm.cs:252-264 | afterwards every change with a variant has index 0, and a change is resolved exactly when it has a variant; the status is that of the new selections |
| Review.ChangeReviewForm.RejectEverySet | WordDiffMerger/ChangeReviewForm.cs:268-274 | every change of every set gets index -1 |
| Review.ChangeReviewForm.BtnRejectAllClick | WordDiffMerger/ChangeReviewForm.cs:266-277 | afterwards only conflicts with more than one variant and changes without variants are at -1; every other change is back at 0 and resolved |
| Review.ChangeReviewForm.RadioCheckedChanged | WordDiffMerger/ChangeReviewForm.cs:218-226 | checking the button of variant i selects variant i, which is a valid selection; unchecking changes nothing |

## Left out

- Word COM interop is not part of this model. This covers:
  - opening, comparing, saving, closing and quitting documents;
  - `File.Copy`;
  - the enumeration of `Revisions` and `Comments`.

  Revisions and comments arrive as sequences of records. The document is text plus
  two side lists. `document.Range().End` is the text length: Word's final paragraph
  mark is not modelled.
- Word re-anchors the comments and font settings already added when a later splice
  moves the text. The model keeps each at the offsets it was added with.
- Exceptions the source catches are modelled as "this change does nothing". This
  covers:
  - a null `Type` at the `ToLower` call;
  - a null comment in `ApplyFormatting`.

  The outer exceptions that abort a comparison or a merge are COM failures and are left
  out.
- `ToLower` maps only the ASCII letters A–Z. Culture-specific case mappings are not
  modelled.
- ChangeLogger.cs, MainForm.cs and MainForm.Designer.cs are not part of this model.
  Neither are the layout code of the review form: the `CreateChangePanel` and
  `CreateVariantControls` controls, colours and label texts.
- The status label is not state here. `UpdateStatus` returns the two counts and the
  colour instead of writing them into `lblStatus`.
  `Review.ChangeReviewForm.RadioCheckedChanged` and the constructor discard them, as the
  source does.
- Offsets (`StartPos`, `EndPos`, `document.Range().End`) and the text of the merged
  document count the model's characters, which are Unicode scalar values. Word counts
  UTF-16 code units, so offsets differ in text with characters outside the Basic
  Multilingual Plane. Only the review form's labels are modelled in code units.
  A Dafny `string` cannot hold an unpaired surrogate, while a .NET string such as a
  variant's comment or a change's original text can. The label model therefore covers
  only texts that are well-formed UTF-16.
- Review.TruncateText: requires `maxLength >= 3` for every text. The source needs it only
  when the text is cut; every call site passes 40 or more.
- Merger.SortByStartDescending: the sort is a stable insertion sort. Its contract
  promises only what `List.Sort` promises: a permutation in non-increasing start order.
  The order of equal start offsets is not specified.
- Comparer.GroupByStart: the dictionary's enumeration order is the order in which keys
  were first inserted. This is how a .NET `Dictionary` enumerates when nothing has been
  removed. `Comparer.MarkLargeGroups` is proved for any enumeration order of the keys.
- Merger.ApplyChanges: returns the changes in the order it applied them. The source
  returns the merged file's path, which is I/O.
- The loops of the two buttons run in helper methods of the form:
  `SelectFirstVariantOfAll`, `RejectEverySet`, `SelectFirstVariants` and `RejectEach`.
  The handlers call them in the source's order.
