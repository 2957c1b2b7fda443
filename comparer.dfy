/**
 * WordComparer.cs without Word: the comparison document's revisions and comments
 * arrive as plain records, and the comparer turns them into one ChangeSet, then
 * flags the changes that share a start offset.
 */
module Comparer {
  import opened Nullable
  import opened ChangeModel
  import opened Strings

  /** Word's revision kinds; the ones GetChangeType does not name are Other. */
  datatype RevisionType = RevisionInsert | RevisionDelete | RevisionReplace | RevisionProperty | RevisionOther(code: int)

  /** A range of the comparison document: its offsets and its text (which may be null). */
  datatype TextRange = TextRange(Start: int, End: int, Text: Option<string>)

  /** A tracked revision: its kind, its range (may be null) and its author (may be null). */
  datatype Revision = Revision(Type: RevisionType, Range: Option<TextRange>, Author: Option<string>)

  /**
   * A Word comment: `Scope` is the commented range (may be null), `Body` stands for
   * `comment.Range?.Text`, the comment's own text (null when either part is null).
   */
  datatype WordComment = WordComment(Scope: Option<TextRange>, Author: Option<string>, Body: Option<string>)

  /** The type string recorded for a revision kind: "unknown" exactly for the kinds not named. */
  function GetChangeType(t: RevisionType): (r: string)
    ensures t.RevisionOther? <==> r == "unknown"
  {
    match t
    case RevisionInsert => "insert"
    case RevisionDelete => "delete"
    case RevisionReplace => "replace"
    case RevisionProperty => "format"
    case RevisionOther(_) => "unknown"
  }

  /**
   * Read back by the merge engine, the recorded type keeps insertions, deletions and
   * replacements as they are, turns property revisions into format changes, never
   * yields a comment change, and leaves every other kind Unknown (never applied).
   */
  lemma GetChangeTypeParses(t: RevisionType)
    ensures ParseKind(Some(GetChangeType(t))) == match t
      case RevisionInsert => Insert
      case RevisionDelete => Delete
      case RevisionReplace => Replace
      case RevisionProperty => Format
      case RevisionOther(_) => Unknown
  {
    var r := GetChangeType(t);
    if t.RevisionOther? {
      assert r == "unknown";
      assert Lower(r) == r by {
        assert forall i :: 0 <= i < |r| ==> !('A' <= r[i] <= 'Z');
      }
    } else {
      var k := if t == RevisionInsert then Insert else if t == RevisionDelete then Delete
               else if t == RevisionReplace then Replace else Format;
      assert r == KindName(k);
      ParseKindName(k, r);
    }
  }

  /** `c.Scope.Start <= range.Start && c.Scope.End >= range.End`, with a non-null scope. */
  predicate Covers(c: WordComment, range: TextRange) {
    c.Scope.Some? && c.Scope.value.Start <= range.Start && c.Scope.value.End >= range.End
  }

  /**
   * The comment text GetCommentForRange finds: that of the first comment, in
   * enumeration order, whose scope contains the range; "" when the range is null or
   * no comment contains it.
   */
  function CommentFor(comments: seq<WordComment>, range: Option<TextRange>): (r: string)
    ensures range.None? ==> r == ""
    ensures range.Some? && (forall j :: 0 <= j < |comments| ==> !Covers(comments[j], range.value)) ==> r == ""
    ensures range.Some? ==> forall k :: (0 <= k < |comments| && Covers(comments[k], range.value) &&
              (forall j :: 0 <= j < k ==> !Covers(comments[j], range.value))) ==> r == comments[k].Body.GetOr("")
  {
    if range.None? || comments == [] then ""
    else if Covers(comments[0], range.value) then comments[0].Body.GetOr("")
    else
      var rest := CommentFor(comments[1..], range);
      assert forall k :: 1 <= k < |comments| ==> comments[k] == comments[1..][k - 1];
      rest
  }

  /** GetCommentForRange: the search loop with its early return. */
  method GetCommentForRange(comments: seq<WordComment>, range: Option<TextRange>) returns (text: string)
    ensures text == CommentFor(comments, range)
  {
    if range.None? {
      return "";
    }
    var i := 0;
    while i < |comments|
      invariant 0 <= i <= |comments|
      invariant forall j :: 0 <= j < i ==> !Covers(comments[j], range.value)
    {
      if Covers(comments[i], range.value) {
        return comments[i].Body.GetOr("");
      }
      i := i + 1;
    }
    return "";
  }

  /** The text of a possibly null range, null text read as "": `range?.Text ?? ""`. */
  function TextOf(range: Option<TextRange>): string {
    if range.Some? then range.value.Text.GetOr("") else ""
  }

  /**
   * The position fields a change takes from a possibly null range: left at their
   * defaults (0, 0, null) when the range is null.
   */
  predicate PlacedAt(c: WordChange, range: Option<TextRange>)
    reads c`StartPos, c`EndPos, c`OriginalText
  {
    if range.Some? then
      c.StartPos == range.value.Start && c.EndPos == range.value.End
      && c.OriginalText == Some(range.value.Text.GetOr(""))
    else
      c.StartPos == 0 && c.EndPos == 0 && c.OriginalText == None
  }

  /** The change ProcessRevisions builds from one revision, selection still at its default. */
  predicate FromRevision(c: WordChange, rev: Revision, comments: seq<WordComment>)
    reads c`Type, c`StartPos, c`EndPos, c`OriginalText, c`Variants, c`SelectedVariantIndex
  {
    c.Type == Some(GetChangeType(rev.Type)) && PlacedAt(c, rev.Range)
    && c.Variants == [ChangeVariant(Some(rev.Author.GetOr("Unknown")), Some(TextOf(rev.Range)), Some(CommentFor(comments, rev.Range)))]
    && c.SelectedVariantIndex == 0
  }

  /** The change ProcessComments builds from one comment, selection still at its default. */
  predicate FromComment(c: WordChange, comment: WordComment)
    reads c`Type, c`StartPos, c`EndPos, c`OriginalText, c`Variants, c`SelectedVariantIndex
  {
    c.Type == Some("comment") && PlacedAt(c, comment.Scope)
    && c.Variants == [ChangeVariant(Some(comment.Author.GetOr("Unknown")), Some(TextOf(comment.Scope)), Some(comment.Body.GetOr("")))]
    && c.SelectedVariantIndex == 0
  }

  /**
   * A freshly built change holds exactly one variant, with a non-null author, and
   * the default index 0 already selects it.
   */
  lemma BuiltChangeIsSelected(c: WordChange, rev: Revision, comments: seq<WordComment>)
    requires FromRevision(c, rev, comments)
    ensures |c.Variants| == 1 && HasSelection(c)
    ensures Chosen(c).Author.Some? && Chosen(c).Text.Some? && Chosen(c).Comment.Some?
    ensures rev.Author.None? ==> Chosen(c).Author == Some("Unknown")
  {
  }

  /** A change built from a comment is a selected comment change. */
  lemma BuiltCommentIsComment(c: WordChange, comment: WordComment)
    requires FromComment(c, comment)
    ensures ParseKind(c.Type) == Comment
    ensures |c.Variants| == 1 && HasSelection(c)
    ensures comment.Author.None? ==> Chosen(c).Author == Some("Unknown")
  {
    ParseKindName(Comment, "comment");
  }

  /** The body of ProcessRevisions' loop: the change built from one revision. */
  method RevisionChange(rev: Revision, comments: seq<WordComment>) returns (change: WordChange)
    ensures fresh(change) && FromRevision(change, rev, comments) && !change.IsConflict
  {
    change := new WordChange();
    change.Type := Some(GetChangeType(rev.Type));
    if rev.Range.Some? {
      change.OriginalText := Some(rev.Range.value.Text.GetOr(""));
      change.StartPos := rev.Range.value.Start;
      change.EndPos := rev.Range.value.End;
    }
    var comment := GetCommentForRange(comments, rev.Range);
    var variant := ChangeVariant(Some(rev.Author.GetOr("Unknown")), Some(TextOf(rev.Range)), Some(comment));
    change.Variants := change.Variants + [variant];
  }

  /** The body of ProcessComments' loop: the change built from one comment. */
  method CommentChange(comment: WordComment) returns (change: WordChange)
    ensures fresh(change) && FromComment(change, comment) && !change.IsConflict
  {
    change := new WordChange();
    change.Type := Some("comment");
    if comment.Scope.Some? {
      change.OriginalText := Some(comment.Scope.value.Text.GetOr(""));
      change.StartPos := comment.Scope.value.Start;
      change.EndPos := comment.Scope.value.End;
    }
    var variant := ChangeVariant(Some(comment.Author.GetOr("Unknown")), Some(TextOf(comment.Scope)), Some(comment.Body.GetOr("")));
    change.Variants := change.Variants + [variant];
  }

  /** ProcessRevisions: one new change per revision, appended in enumeration order. */
  method ProcessRevisions(revisions: seq<Revision>, comments: seq<WordComment>, result: ChangeSet)
    modifies result`Changes
    ensures |result.Changes| == |old(result.Changes)| + |revisions|
    ensures forall i :: 0 <= i < |old(result.Changes)| ==> result.Changes[i] == old(result.Changes)[i]
    ensures forall i :: |old(result.Changes)| <= i < |result.Changes| ==>
              fresh(result.Changes[i]) && !result.Changes[i].IsConflict &&
              FromRevision(result.Changes[i], revisions[i - |old(result.Changes)|], comments)
  {
    var n := |result.Changes|;
    var i := 0;
    while i < |revisions|
      invariant 0 <= i <= |revisions|
      invariant |result.Changes| == n + i
      invariant result.Changes[..n] == old(result.Changes)
      invariant forall k :: n <= k < |result.Changes| ==>
                  fresh(result.Changes[k]) && !result.Changes[k].IsConflict &&
                  FromRevision(result.Changes[k], revisions[k - n], comments)
    {
      var change := RevisionChange(revisions[i], comments);
      result.Changes := result.Changes + [change];
      i := i + 1;
    }
  }

  /** ProcessComments: one new "comment" change per comment, appended in enumeration order. */
  method ProcessComments(comments: seq<WordComment>, result: ChangeSet)
    modifies result`Changes
    ensures |result.Changes| == |old(result.Changes)| + |comments|
    ensures forall i :: 0 <= i < |old(result.Changes)| ==> result.Changes[i] == old(result.Changes)[i]
    ensures forall i :: |old(result.Changes)| <= i < |result.Changes| ==>
              fresh(result.Changes[i]) && !result.Changes[i].IsConflict &&
              FromComment(result.Changes[i], comments[i - |old(result.Changes)|])
  {
    var n := |result.Changes|;
    var i := 0;
    while i < |comments|
      invariant 0 <= i <= |comments|
      invariant |result.Changes| == n + i
      invariant result.Changes[..n] == old(result.Changes)
      invariant forall k :: n <= k < |result.Changes| ==>
                  fresh(result.Changes[k]) && !result.Changes[k].IsConflict &&
                  FromComment(result.Changes[k], comments[k - n])
    {
      var change := CommentChange(comments[i]);
      result.Changes := result.Changes + [change];
      i := i + 1;
    }
  }

  /** The start offsets of a change list, position by position. */
  function Starts(s: seq<WordChange>): (r: seq<int>)
    reads s`StartPos
    ensures |r| == |s| && forall i :: 0 <= i < |s| ==> r[i] == s[i].StartPos
  {
    if s == [] then [] else Starts(s[..|s| - 1]) + [s[|s| - 1].StartPos]
  }

  /** The conflict flags of a change list, position by position. */
  function Flags(s: seq<WordChange>): (r: seq<bool>)
    reads s`IsConflict
    ensures |r| == |s| && forall i :: 0 <= i < |s| ==> r[i] == s[i].IsConflict
  {
    if s == [] then [] else Flags(s[..|s| - 1]) + [s[|s| - 1].IsConflict]
  }

  /** Some other position of the list has the same start offset as position `i`. */
  ghost predicate SharesStart(starts: seq<int>, i: int)
    requires 0 <= i < |starts|
  {
    exists j :: 0 <= j < |starts| && j != i && starts[j] == starts[i]
  }

  /**
   * The flags DetectConflicts leaves: a flag already set stays set, and a change
   * whose start offset some other change of the set shares is flagged.  Only start
   * offsets are compared; end offsets play no part.
   */
  ghost function Detected(flags: seq<bool>, starts: seq<int>): (r: seq<bool>)
    requires |flags| == |starts|
    ensures |r| == |flags|
  {
    seq(|flags|, i requires 0 <= i < |flags| => flags[i] || SharesStart(starts, i))
  }

  /** Detection only ever sets flags, and running it again changes nothing. */
  lemma DetectedIdempotent(flags: seq<bool>, starts: seq<int>)
    requires |flags| == |starts|
    ensures forall i :: 0 <= i < |flags| && flags[i] ==> Detected(flags, starts)[i]
    ensures Detected(Detected(flags, starts), starts) == Detected(flags, starts)
  {
  }

  /** From all-clear flags, a change is flagged exactly when another change shares its start. */
  lemma DetectedFromClear(flags: seq<bool>, starts: seq<int>)
    requires |flags| == |starts|
    requires forall i :: 0 <= i < |flags| ==> !flags[i]
    ensures forall i :: 0 <= i < |flags| ==> (Detected(flags, starts)[i] <==> SharesStart(starts, i))
  {
  }

  /** Distinct start offsets flag nothing, however the ranges overlap. */
  lemma DistinctStartsNotFlagged(flags: seq<bool>, starts: seq<int>)
    requires |flags| == |starts|
    requires forall i, j :: 0 <= i < j < |starts| ==> starts[i] != starts[j]
    ensures Detected(flags, starts) == flags
  {
    forall i | 0 <= i < |flags|
      ensures !SharesStart(starts, i)
    {
    }
  }

  /** How many positions of `starts` hold `k`. */
  function CountOf(starts: seq<int>, k: int): (n: nat)
    ensures n <= |starts|
  {
    if starts == [] then 0
    else CountOf(starts[..|starts| - 1], k) + (if starts[|starts| - 1] == k then 1 else 0)
  }

  /** A key is counted at least once exactly when it occurs. */
  lemma {:induction false} CountOfPositive(starts: seq<int>, k: int)
    ensures CountOf(starts, k) > 0 <==> k in starts
  {
    if starts != [] {
      var n := |starts| - 1;
      CountOfPositive(starts[..n], k);
      assert starts == starts[..n] + [starts[n]];
    }
  }

  /** A start offset is counted more than once exactly when another position shares it. */
  lemma {:induction false} CountOfShared(starts: seq<int>, i: int)
    requires 0 <= i < |starts|
    ensures CountOf(starts, starts[i]) > 1 <==> SharesStart(starts, i)
  {
    var n := |starts| - 1;
    var init := starts[..n];
    var k := starts[i];
    assert forall j :: 0 <= j < n ==> init[j] == starts[j];
    if i == n {
      CountOfPositive(init, k);
      if SharesStart(starts, i) {
        var j :| 0 <= j < |starts| && j != i && starts[j] == starts[i];
        assert init[j] == k;
      }
    } else {
      CountOfShared(init, i);
      CountOfPositive(init, k);
      assert init[i] == k;
      if SharesStart(init, i) {
        var j :| 0 <= j < |init| && j != i && init[j] == init[i];
        assert starts[j] == starts[i];
      }
      if SharesStart(starts, i) && starts[n] != k {
        var j :| 0 <= j < |starts| && j != i && starts[j] == starts[i];
        assert j < n && init[j] == init[i];
      }
    }
  }

  /**
   * The group of positionGroups under key `k`: the changes whose start is `k`, in
   * list order, one entry per position.
   */
  function GroupOf(s: seq<WordChange>, starts: seq<int>, k: int): (g: seq<WordChange>)
    requires |s| == |starts|
    ensures |g| == CountOf(starts, k)
  {
    if s == [] then []
    else
      var n := |s| - 1;
      GroupOf(s[..n], starts[..n], k) + (if starts[n] == k then [s[n]] else [])
  }

  /** The positions of `starts` holding `k`, in increasing order. */
  function PositionsOf(starts: seq<int>, k: int): (p: seq<int>)
    ensures |p| == CountOf(starts, k)
    ensures forall m :: 0 <= m < |p| ==> 0 <= p[m] < |starts| && starts[p[m]] == k
  {
    if starts == [] then []
    else
      var n := |starts| - 1;
      var p0 := PositionsOf(starts[..n], k);
      assert forall m :: 0 <= m < |p0| ==> starts[p0[m]] == starts[..n][p0[m]];
      p0 + (if starts[n] == k then [n] else [])
  }

  /**
   * The group under `k` holds every change whose start is `k`, and its m-th change
   * is the change at the m-th position holding `k`.
   */
  lemma {:induction false} GroupOfMembers(s: seq<WordChange>, starts: seq<int>, k: int)
    requires |s| == |starts|
    ensures forall j :: 0 <= j < |s| && starts[j] == k ==> s[j] in GroupOf(s, starts, k)
    ensures forall m :: 0 <= m < |GroupOf(s, starts, k)| ==> GroupOf(s, starts, k)[m] == s[PositionsOf(starts, k)[m]]
  {
    if s != [] {
      var n := |s| - 1;
      GroupOfMembers(s[..n], starts[..n], k);
      var g0 := GroupOf(s[..n], starts[..n], k);
      var p0 := PositionsOf(starts[..n], k);
      var g := GroupOf(s, starts, k);
      assert g == g0 + (if starts[n] == k then [s[n]] else []);
      assert PositionsOf(starts, k) == p0 + (if starts[n] == k then [n] else []);
      forall j | 0 <= j < |s| && starts[j] == k
        ensures s[j] in g
      {
        if j < n {
          assert s[..n][j] == s[j] && starts[..n][j] == starts[j];
          assert s[j] in g0;
        } else {
          assert g[|g| - 1] == s[n];
        }
      }
      forall m | 0 <= m < |g|
        ensures g[m] == s[PositionsOf(starts, k)[m]]
      {
        if m < |g0| {
          assert g[m] == g0[m] == s[..n][p0[m]];
        }
      }
    }
  }

  /**
   * What the first loop of DetectConflicts has built after visiting the changes
   * `cs` (with start offsets `ss`): one group per start offset seen, holding the
   * changes with that start in list order, and the distinct keys in order of first
   * insertion.
   */
  ghost predicate Grouped(cs: seq<WordChange>, ss: seq<int>, groups: map<int, seq<WordChange>>, keys: seq<int>)
    requires |cs| == |ss|
  {
    && (forall k :: k in groups <==> k in ss)
    && (forall k :: k in groups ==> groups[k] == GroupOf(cs, ss, k))
    && (forall k :: k in keys <==> k in groups)
    && (forall a, b :: 0 <= a < b < |keys| ==> keys[a] != keys[b])
  }

  /**
   * One round of that loop: adding the change at position `i` to the group of its
   * start, and recording the start as a key when it is new, extends what was built
   * to one more change.
   */
  lemma GroupsStep(changes: seq<WordChange>, starts: seq<int>, i: int, before: map<int, seq<WordChange>>, keysBefore: seq<int>)
    requires |changes| == |starts| && 0 <= i < |changes|
    requires Grouped(changes[..i], starts[..i], before, keysBefore)
    ensures Grouped(changes[..i + 1], starts[..i + 1],
                    before[starts[i] := (if starts[i] in before then before[starts[i]] else []) + [changes[i]]],
                    if starts[i] in before then keysBefore else keysBefore + [starts[i]])
  {
    assert changes[..i + 1][..i] == changes[..i] && starts[..i + 1][..i] == starts[..i];
    assert starts[..i + 1] == starts[..i] + [starts[i]];
    CountOfPositive(starts[..i], starts[i]);
  }

  /**
   * The first loop of DetectConflicts: the dictionary from start offset to the
   * changes starting there, filled in list order.  `keyOrder` is the dictionary's
   * enumeration order: each key once, in order of first insertion, which is how the
   * .NET Dictionary enumerates when nothing has been removed.
   */
  method GroupByStart(changes: seq<WordChange>) returns (positionGroups: map<int, seq<WordChange>>, keyOrder: seq<int>)
    ensures forall k :: k in positionGroups <==> k in Starts(changes)
    ensures forall k :: k in positionGroups ==> positionGroups[k] == GroupOf(changes, Starts(changes), k)
    ensures forall k :: k in keyOrder <==> k in positionGroups
    ensures forall a, b :: 0 <= a < b < |keyOrder| ==> keyOrder[a] != keyOrder[b]
  {
    ghost var starts := Starts(changes);
    positionGroups := map[];
    keyOrder := [];
    for i := 0 to |changes|
      invariant Grouped(changes[..i], starts[..i], positionGroups, keyOrder)
    {
      var key := changes[i].StartPos;
      GroupsStep(changes, starts, i, positionGroups, keyOrder);
      if key !in positionGroups {
        positionGroups := positionGroups[key := []];
        keyOrder := keyOrder + [key];
      }
      positionGroups := positionGroups[key := positionGroups[key] + [changes[i]]];
    }
    assert changes[..|changes|] == changes && starts[..|changes|] == starts;
  }

  /** The innermost loop of DetectConflicts: flag every change of one group. */
  method MarkGroup(group: seq<WordChange>)
    modifies group`IsConflict
    ensures forall c :: c in group ==> c.IsConflict
  {
    var m := 0;
    while m < |group|
      invariant 0 <= m <= |group|
      invariant forall c :: c in group[..m] ==> c.IsConflict
    {
      group[m].IsConflict := true;
      assert group[..m + 1] == group[..m] + [group[m]];
      m := m + 1;
    }
    assert group[..m] == group;
  }

  /**
   * After every group has been visited, a change is flagged exactly when it was
   * flagged before or its group holds more than one change, which is Detected.
   */
  lemma ConflictsFromGroups(flags0: seq<bool>, flags1: seq<bool>, starts: seq<int>, positionGroups: map<int, seq<WordChange>>)
    requires |flags0| == |flags1| == |starts|
    requires forall k :: k in positionGroups <==> k in starts
    requires forall k :: k in positionGroups ==> |positionGroups[k]| == CountOf(starts, k)
    requires forall j :: 0 <= j < |starts| ==> starts[j] in positionGroups && flags1[j] == (flags0[j] || |positionGroups[starts[j]]| > 1)
    ensures flags1 == Detected(flags0, starts)
  {
    forall j | 0 <= j < |starts|
      ensures flags1[j] == Detected(flags0, starts)[j]
    {
      CountOfShared(starts, j);
    }
  }

  /**
   * What GroupByStart's result means position by position: each change sits in the
   * group of its own start offset and in no other group.
   */
  lemma GroupsByIndex(changes: seq<WordChange>, starts: seq<int>, positionGroups: map<int, seq<WordChange>>)
    requires starts == Starts(changes)
    requires forall k :: k in positionGroups <==> k in starts
    requires forall k :: k in positionGroups ==> positionGroups[k] == GroupOf(changes, starts, k)
    ensures forall j :: 0 <= j < |changes| ==> starts[j] in positionGroups && changes[j] in positionGroups[starts[j]]
    ensures forall j, k :: 0 <= j < |changes| && k in positionGroups && changes[j] in positionGroups[k] ==> k == starts[j]
    ensures forall k, i :: k in positionGroups && 0 <= i < |positionGroups[k]| ==> positionGroups[k][i] in changes
  {
    forall j | 0 <= j < |changes|
      ensures starts[j] in positionGroups && changes[j] in positionGroups[starts[j]]
    {
      assert starts[j] in starts;
      GroupOfMembers(changes, starts, starts[j]);
    }
    forall j, k | 0 <= j < |changes| && k in positionGroups && changes[j] in positionGroups[k]
      ensures k == starts[j]
    {
      GroupOfMembers(changes, starts, k);
      var m :| 0 <= m < |positionGroups[k]| && positionGroups[k][m] == changes[j];
      var p := PositionsOf(starts, k)[m];
      assert changes[p] == changes[j] && starts[p] == k;
    }
    forall k, i | k in positionGroups && 0 <= i < |positionGroups[k]|
      ensures positionGroups[k][i] in changes
    {
      GroupOfMembers(changes, starts, k);
      assert positionGroups[k][i] == changes[PositionsOf(starts, k)[i]];
    }
  }

  /**
   * DetectConflicts: group the set's changes by start offset, then flag every member
   * of every group of more than one change, visiting the groups in the
   * dictionary's enumeration order.
   */
  method DetectConflicts(result: ChangeSet)
    modifies result.Changes`IsConflict
    ensures Flags(result.Changes) == Detected(old(Flags(result.Changes)), old(Starts(result.Changes)))
  {
    var changes := result.Changes;
    ghost var flags0, starts := Flags(changes), Starts(changes);
    var positionGroups, keyOrder := GroupByStart(changes);
    GroupsByIndex(changes, starts, positionGroups);
    MarkLargeGroups(changes, starts, positionGroups, keyOrder);
    ConflictsFromGroups(flags0, Flags(changes), starts, positionGroups);
  }

  /**
   * The second loop of DetectConflicts: visit every key of the dictionary, in any
   * order, and flag the members of each group holding more than one change.
   */
  method MarkLargeGroups(changes: seq<WordChange>, ghost starts: seq<int>, positionGroups: map<int, seq<WordChange>>, keyOrder: seq<int>)
    requires |starts| == |changes|
    requires forall j :: 0 <= j < |changes| ==> starts[j] in positionGroups && changes[j] in positionGroups[starts[j]]
    requires forall j, k :: 0 <= j < |changes| && k in positionGroups && changes[j] in positionGroups[k] ==> k == starts[j]
    requires forall k, i :: k in positionGroups && 0 <= i < |positionGroups[k]| ==> positionGroups[k][i] in changes
    requires forall k :: k in keyOrder <==> k in positionGroups
    modifies changes`IsConflict
    ensures forall j :: 0 <= j < |changes| ==>
              changes[j].IsConflict == (old(changes[j].IsConflict) || |positionGroups[starts[j]]| > 1)
  {
    for t := 0 to |keyOrder|
      invariant forall j :: 0 <= j < |changes| ==>
                  changes[j].IsConflict == (old(changes[j].IsConflict) || (starts[j] in keyOrder[..t] && |positionGroups[starts[j]]| > 1))
    {
      var key := keyOrder[t];
      var group := positionGroups[key];
      if |group| > 1 {
        assert forall i :: 0 <= i < |group| ==> group[i] in changes;
        MarkGroup(group);
      }
      assert keyOrder[..t + 1] == keyOrder[..t] + [key];
    }
    assert keyOrder[..|keyOrder|] == keyOrder;
    forall j | 0 <= j < |changes|
      ensures starts[j] in keyOrder
    {
      var k := starts[j];
      assert k in positionGroups;
      assert k in keyOrder;
    }
  }

  /**
   * The two collection loops of CompareDocuments: a new ChangeSet holding one change
   * per revision, in order, then one per comment, in order, none of them flagged.
   */
  method CollectChanges(revisions: seq<Revision>, comments: seq<WordComment>) returns (result: ChangeSet)
    ensures fresh(result) && result.ChangedFileName == None
    ensures |result.Changes| == |revisions| + |comments|
    ensures forall i :: 0 <= i < |result.Changes| ==> fresh(result.Changes[i]) && !result.Changes[i].IsConflict
    ensures forall i :: 0 <= i < |revisions| ==> FromRevision(result.Changes[i], revisions[i], comments)
    ensures forall i :: 0 <= i < |comments| ==> FromComment(result.Changes[|revisions| + i], comments[i])
  {
    result := new ChangeSet();
    ProcessRevisions(revisions, comments, result);
    ghost var fromRevisions := result.Changes;
    ProcessComments(comments, result);
    forall i | 0 <= i < |revisions|
      ensures result.Changes[i] == fromRevisions[i]
      ensures fresh(result.Changes[i]) && !result.Changes[i].IsConflict
      ensures FromRevision(result.Changes[i], revisions[i], comments)
    {
    }
  }

  /**
   * CompareDocuments without Word: the collected changes, then conflict detection.
   * Every change is fresh and selected, and is flagged exactly when another change
   * of the set starts at the same offset.
   */
  method CompareDocuments(revisions: seq<Revision>, comments: seq<WordComment>) returns (result: ChangeSet)
    ensures fresh(result) && result.ChangedFileName == None
    ensures |result.Changes| == |revisions| + |comments|
    ensures forall i :: 0 <= i < |revisions| ==> fresh(result.Changes[i]) && FromRevision(result.Changes[i], revisions[i], comments)
    ensures forall i :: 0 <= i < |comments| ==>
              fresh(result.Changes[|revisions| + i]) && FromComment(result.Changes[|revisions| + i], comments[i])
    ensures forall i :: 0 <= i < |result.Changes| ==>
              (result.Changes[i].IsConflict <==> SharesStart(Starts(result.Changes), i))
  {
    result := CollectChanges(revisions, comments);
    ghost var flags, starts := Flags(result.Changes), Starts(result.Changes);
    DetectConflicts(result);
    DetectedFromClear(flags, starts);
  }
}
