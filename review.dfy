/**
 * The resolution logic of the review form (ChangeReviewForm.cs), without the
 * WinForms controls: which changes are shown with a choice of variants and which
 * are applied automatically, the auto-selection the panels perform each time they
 * are built, the accept-all / reject-all buttons, the radio buttons and the status
 * counter, and the two label helpers.
 */
module Review {
  import opened Nullable
  import opened Strings
  import opened ChangeModel
  import opened Utf16
  import Comparer

  /** A change shown with one radio button per variant: a conflict with a real choice. */
  predicate NeedsChoice(c: WordChange)
    reads c`IsConflict, c`Variants
  {
    c.IsConflict && |c.Variants| > 1
  }

  /** A change shown as applied automatically: no conflict, or at most one variant. */
  predicate AutoApplied(c: WordChange)
    reads c`IsConflict, c`Variants
  {
    !c.IsConflict || |c.Variants| <= 1
  }

  /** The conflict list of a change set panel: `Where(c => c.IsConflict && c.Variants.Count > 1)`. */
  function ConflictList(s: seq<WordChange>): seq<WordChange>
    reads s`IsConflict, s`Variants
  {
    if s == [] then []
    else (if NeedsChoice(s[0]) then [s[0]] else []) + ConflictList(s[1..])
  }

  /** The non-conflict list of a change set panel: `Where(c => !c.IsConflict || c.Variants.Count <= 1)`. */
  function AutoList(s: seq<WordChange>): seq<WordChange>
    reads s`IsConflict, s`Variants
  {
    if s == [] then []
    else (if AutoApplied(s[0]) then [s[0]] else []) + AutoList(s[1..])
  }

  /**
   * The two lists split the changes of a set: every change lands in exactly one of
   * them, as often as it occurs in the set.
   */
  lemma {:induction false} ListsPartition(s: seq<WordChange>)
    ensures |ConflictList(s)| + |AutoList(s)| == |s|
    ensures multiset(ConflictList(s)) + multiset(AutoList(s)) == multiset(s)
  {
    if s != [] {
      ListsPartition(s[1..]);
      assert s == [s[0]] + s[1..];
    }
  }

  /** Each list holds exactly the changes of the set that are of its kind. */
  lemma {:induction false} ListsMembers(s: seq<WordChange>)
    ensures forall c :: c in ConflictList(s) <==> c in s && NeedsChoice(c)
    ensures forall c :: c in AutoList(s) <==> c in s && AutoApplied(c)
    ensures forall k :: 0 <= k < |AutoList(s)| ==> AutoList(s)[k] in s
  {
    if s != [] {
      ListsMembers(s[1..]);
      assert s == [s[0]] + s[1..];
    }
  }

  /** A panel whose changes have at most one variant each has nothing to choose. */
  lemma {:induction false} SingleVariantPanel(s: seq<WordChange>)
    requires forall k :: 0 <= k < |s| ==> |s[k].Variants| <= 1
    ensures ConflictList(s) == [] && AutoList(s) == s
  {
    if s != [] {
      SingleVariantPanel(s[1..]);
      assert [s[0]] + s[1..] == s;
    }
  }

  /**
   * The sets the comparer builds offer no choice: every change has exactly one
   * variant, so the conflict list is empty even where changes are flagged as
   * conflicts, and every change is applied automatically; the rebuild after
   * reject-all therefore selects variant 0 of each of them again.
   */
  lemma ComparedSetOffersNoChoice(s: seq<WordChange>, revisions: seq<Comparer.Revision>,
                                  comments: seq<Comparer.WordComment>)
    requires |s| == |revisions| + |comments|
    requires forall i :: 0 <= i < |revisions| ==> Comparer.FromRevision(s[i], revisions[i], comments)
    requires forall i :: 0 <= i < |comments| ==> Comparer.FromComment(s[|revisions| + i], comments[i])
    ensures forall k :: 0 <= k < |s| ==> |s[k].Variants| == 1 && AutoApplied(s[k])
    ensures ConflictList(s) == [] && AutoList(s) == s
  {
    forall k | 0 <= k < |s|
      ensures |s[k].Variants| == 1
    {
      if k < |revisions| {
        Comparer.BuiltChangeIsSelected(s[k], revisions[k], comments);
      } else {
        Comparer.BuiltCommentIsComment(s[k], comments[k - |revisions|]);
      }
    }
    SingleVariantPanel(s);
  }

  /**
   * Both lists keep the set's order: the list of a concatenation is the
   * concatenation of the lists.
   */
  lemma {:induction false} ConflictListKeepsOrder(a: seq<WordChange>, b: seq<WordChange>)
    ensures ConflictList(a + b) == ConflictList(a) + ConflictList(b)
  {
    if a == [] {
      assert a + b == b;
    } else {
      ConflictListKeepsOrder(a[1..], b);
      assert (a + b)[0] == a[0];
      assert (a + b)[1..] == a[1..] + b;
    }
  }

  /** The same for the non-conflict list. */
  lemma {:induction false} AutoListKeepsOrder(a: seq<WordChange>, b: seq<WordChange>)
    ensures AutoList(a + b) == AutoList(a) + AutoList(b)
  {
    if a == [] {
      assert a + b == b;
    } else {
      AutoListKeepsOrder(a[1..], b);
      assert (a + b)[0] == a[0];
      assert (a + b)[1..] == a[1..] + b;
    }
  }

  /** The number of changes of `s` whose selected index names an existing variant. */
  function CountResolved(s: seq<WordChange>): (n: nat)
    reads s
    ensures n <= |s|
  {
    if s == [] then 0
    else CountResolved(s[..|s| - 1]) + (if HasSelection(s[|s| - 1]) then 1 else 0)
  }

  /** Counting a concatenation counts each part. */
  lemma {:induction false} CountResolvedAppend(a: seq<WordChange>, b: seq<WordChange>)
    ensures CountResolved(a + b) == CountResolved(a) + CountResolved(b)
  {
    if b == [] {
      assert a + b == a;
    } else {
      CountResolvedAppend(a, b[..|b| - 1]);
      assert (a + b)[..|a + b| - 1] == a + b[..|b| - 1];
    }
  }

  /** Every change is counted exactly when every change has a valid selection. */
  lemma {:induction false} AllResolved(s: seq<WordChange>)
    ensures CountResolved(s) == |s| <==> forall i :: 0 <= i < |s| ==> HasSelection(s[i])
  {
    if s != [] {
      var init := s[..|s| - 1];
      AllResolved(init);
      assert forall i :: 0 <= i < |init| ==> init[i] == s[i];
      if !HasSelection(s[|s| - 1]) {
        assert CountResolved(s) < |s|;
      }
    }
  }

  /**
   * Every change of the flattened list has a selection exactly when every change of
   * every set has one.
   */
  lemma ResolvedAcrossSets(sets: seq<ChangeSet>)
    ensures (forall k :: 0 <= k < |Flat(sets)| ==> HasSelection(Flat(sets)[k])) <==>
            (forall i, c :: 0 <= i < |sets| && c in sets[i].Changes ==> HasSelection(c))
  {
    FlatMembers(sets);
  }

  /** The Russian label for each kind of change. */
  function KindLabel(k: Kind): string
  {
    match k
    case Insert => "Вставка"
    case Delete => "Удаление"
    case Replace => "Замена"
    case Comment => "Комментарий"
    case Format => "Форматирование"
    case Unknown => "Неизвестно"
  }

  /** The kind a label names; the inverse of KindLabel. */
  function LabelKind(name: string): Kind
  {
    if name == "Вставка" then Insert
    else if name == "Удаление" then Delete
    else if name == "Замена" then Replace
    else if name == "Комментарий" then Comment
    else if name == "Форматирование" then Format
    else Unknown
  }

  /**
   * GetChangeTypeText: the header label of a change.  The type is matched after
   * lower-casing; null and every unrecognised type give the "unknown" label.
   */
  function GetChangeTypeText(t: Option<string>): (r: string)
    ensures r == "Неизвестно" <==> ParseKind(t) == Unknown
    ensures LabelKind(r) == ParseKind(t)
  {
    KindLabel(ParseKind(t))
  }

  /** The label does not depend on letter case. */
  lemma ChangeTypeTextIgnoresCase(s: string)
    ensures GetChangeTypeText(Some(s)) == GetChangeTypeText(Some(Lower(s)))
  {
    ParseKindIgnoresCase(s);
  }

  /** Types whose labels are equal parse to the same kind: the label tells kinds apart. */
  lemma ChangeTypeTextDistinguishes(a: Option<string>, b: Option<string>)
    requires GetChangeTypeText(a) == GetChangeTypeText(b)
    ensures ParseKind(a) == ParseKind(b)
  {
    assert LabelKind(GetChangeTypeText(a)) == LabelKind(GetChangeTypeText(b));
  }

  /**
   * TruncateText: a text as one line of at most `maxLength` UTF-16 code units, the
   * unit of .NET's `Length` and `Substring`.  Null or empty text gives ""; otherwise
   * carriage returns are dropped and line feeds and tabs become spaces, and a line
   * still longer than `maxLength` keeps its first `maxLength - 3` code units (which
   * may end inside a surrogate pair) followed by "...".
   */
  function TruncateText(text: Option<string>, maxLength: int): (r: seq<CodeUnit>)
    requires maxLength >= 3
    ensures |r| <= maxLength
  {
    if IsNullOrEmpty(text) then []
    else
      var line := Encode(SingleLine(text.value));
      if |line| <= maxLength then line else line[..maxLength - 3] + Encode("...")
  }

  /**
   * What TruncateText shows: nothing for a null or empty text; otherwise the whole
   * line when its code units fit, and else exactly `maxLength` code units: a prefix
   * of the line followed by "...".
   */
  lemma TruncateTextMeaning(text: Option<string>, maxLength: int)
    requires maxLength >= 3
    ensures IsNullOrEmpty(text) ==> TruncateText(text, maxLength) == []
    ensures !IsNullOrEmpty(text) ==>
              (TruncateText(text, maxLength) == Encode(SingleLine(text.value)) <==>
               |Encode(SingleLine(text.value))| <= maxLength)
    ensures !IsNullOrEmpty(text) && |Encode(SingleLine(text.value))| > maxLength ==>
              var r := TruncateText(text, maxLength);
              |r| == maxLength && r[..maxLength - 3] <= Encode(SingleLine(text.value)) &&
              r[maxLength - 3..] == Encode("...")
  {
    if !IsNullOrEmpty(text) {
      var line := Encode(SingleLine(text.value));
      if |line| > maxLength {
        assert TruncateText(text, maxLength) == line[..maxLength - 3] + Encode("...");
        DotsUnits();
        CutShape(line, maxLength - 3, Encode("..."));
      }
    }
  }

  /** "..." is three full-stop code units. */
  lemma DotsUnits()
    ensures Encode("...") == ['.' as int, '.' as int, '.' as int]
  {
  }

  /** A prefix of k elements followed by a tail: its length, its front and its back. */
  lemma CutShape<T>(line: seq<T>, k: nat, tail: seq<T>)
    requires k <= |line|
    ensures |line[..k] + tail| == k + |tail|
    ensures (line[..k] + tail)[..k] <= line && (line[..k] + tail)[k..] == tail
  {
    assert (line[..k] + tail)[..k] == line[..k];
  }

  /** What TruncateText shows is a single line: no carriage return, line feed or tab. */
  lemma TruncateTextOneLine(text: Option<string>, maxLength: int)
    requires maxLength >= 3
    ensures forall i :: 0 <= i < |TruncateText(text, maxLength)| ==> !IsBreakUnit(TruncateText(text, maxLength)[i])
  {
    if !IsNullOrEmpty(text) {
      var line := SingleLine(text.value);
      EncodeNoBreak(line);
      if |Encode(line)| > maxLength {
        CutOneLine(Encode(line), maxLength - 3);
      }
    }
  }

  /** A prefix of a line followed by "..." is still a line. */
  lemma CutOneLine(line: seq<CodeUnit>, k: int)
    requires 0 <= k <= |line|
    requires forall i :: 0 <= i < |line| ==> !IsBreakUnit(line[i])
    ensures forall i :: 0 <= i < k + 3 ==> !IsBreakUnit((line[..k] + Encode("..."))[i])
  {
    var dots := Encode("...");
    DotsUnits();
    var r := line[..k] + dots;
    forall i | 0 <= i < k + 3
      ensures !IsBreakUnit(r[i])
    {
      if i < k {
        assert r[i] == line[i];
      } else {
        assert r[i] == '.' as int;
      }
    }
  }

  /**
   * A non-empty one-line text that fits is shown exactly as it is; one whose
   * characters all lie below U+10000 fits when it has at most `maxLength` of them.
   */
  lemma TruncateKeepsShortLine(t: string, maxLength: int)
    requires maxLength >= 3
    requires 0 < |Encode(t)| <= maxLength
    requires forall i :: 0 <= i < |t| ==> !IsBreak(t[i])
    ensures TruncateText(Some(t), maxLength) == Encode(t)
    ensures Decode(TruncateText(Some(t), maxLength)) == Some(t)
  {
    assert SingleLine(t) == t;
    DecodeEncode(t);
  }

  /**
   * Lengths count code units, not characters: three characters outside the Basic
   * Multilingual Plane take six code units, so at `maxLength` 3 only "..." is left.
   */
  lemma TruncateCountsCodeUnits()
    ensures TruncateText(Some("\U{1F600}\U{1F600}\U{1F600}"), 3) == Encode("...")
  {
    var t := "\U{1F600}\U{1F600}\U{1F600}";
    TruncateWide(t);
    assert Encode(t)[..0] == [];
  }

  /**
   * A line of n characters outside the Basic Multilingual Plane never fits in n: it
   * has 2n code units, so at `maxLength` n it is cut to its first n - 3 code units
   * followed by "...".
   */
  lemma TruncateWide(t: string)
    requires |t| >= 3 && forall i :: 0 <= i < |t| ==> t[i] as int >= 0x1_0000
    ensures TruncateText(Some(t), |t|) == Encode(t)[..|t| - 3] + Encode("...")
  {
    assert forall i :: 0 <= i < |t| ==> !IsBreak(t[i]);
    assert SingleLine(t) == t;
    EncodeWide(t);
    assert !IsNullOrEmpty(Some(t)) && |Encode(SingleLine(t))| > |t|;
  }

  /**
   * The loop shared by the accept-all button and the non-conflict panels: variant 0
   * is selected for every listed change that has a variant; the others keep their
   * index.
   */
  method SelectFirstVariants(changes: seq<WordChange>)
    modifies changes`SelectedVariantIndex
    ensures forall c :: c in changes ==>
      c.SelectedVariantIndex == (if |c.Variants| > 0 then 0 else old(c.SelectedVariantIndex))
  {
    for k := 0 to |changes|
      invariant forall c :: c in changes ==>
        c.SelectedVariantIndex == (if c in changes[..k] && |c.Variants| > 0 then 0 else old(c.SelectedVariantIndex))
    {
      var change := changes[k];
      assert changes[..k + 1] == changes[..k] + [change];
      if |change.Variants| > 0 {
        change.SelectedVariantIndex := 0;
      }
    }
    assert changes[..|changes|] == changes;
  }

  /** The inner loop of the reject-all button: every listed change is set to -1. */
  method RejectEach(changes: seq<WordChange>)
    modifies changes`SelectedVariantIndex
    ensures forall c :: c in changes ==> c.SelectedVariantIndex == -1
  {
    for k := 0 to |changes|
      invariant forall c :: c in changes[..k] ==> c.SelectedVariantIndex == -1
    {
      assert changes[..k + 1] == changes[..k] + [changes[k]];
      changes[k].SelectedVariantIndex := -1;
    }
    assert changes[..|changes|] == changes;
  }

  /**
   * CreateChangeSetPanel: the conflict list (shown first, with radio buttons) and
   * the non-conflict list (shown after it); every non-conflict change with a
   * variant gets variant 0 selected, and every other change keeps its index.
   */
  method CreateChangeSetPanel(changeSet: ChangeSet) returns (conflictChanges: seq<WordChange>, nonConflictChanges: seq<WordChange>)
    modifies changeSet.Changes`SelectedVariantIndex
    ensures conflictChanges == old(ConflictList(changeSet.Changes))
    ensures nonConflictChanges == old(AutoList(changeSet.Changes))
    ensures forall c :: c in old(changeSet.Changes) ==>
      c.SelectedVariantIndex == (if (!c.IsConflict || |c.Variants| <= 1) && |c.Variants| > 0 then 0 else old(c.SelectedVariantIndex))
  {
    conflictChanges := ConflictList(changeSet.Changes);
    nonConflictChanges := AutoList(changeSet.Changes);
    ListsMembers(changeSet.Changes);
    SelectFirstVariants(nonConflictChanges);
  }

  /** The form over the change sets under review; only the selections are mutable. */
  class ChangeReviewForm {
    var allChanges: seq<ChangeSet>

    /**
     * `new ChangeReviewForm(changes)`: a null list is taken as empty, building the
     * panels auto-selects variant 0 of every automatically applied change, and the
     * status is shown.
     */
    constructor (changes: Option<seq<ChangeSet>>)
      modifies Flat(changes.GetOr([]))`SelectedVariantIndex
      ensures allChanges == changes.GetOr([])
      ensures forall i, c :: 0 <= i < |allChanges| && c in old(changes.GetOr([])[i].Changes) ==>
        c.SelectedVariantIndex == (if (!c.IsConflict || |c.Variants| <= 1) && |c.Variants| > 0 then 0 else old(c.SelectedVariantIndex))
    {
      allChanges := changes.GetOr([]);
      new;
      InitializeReview();
      var resolved, total, green := UpdateStatus();
    }

    /**
     * InitializeReview: one panel per change set, none when there are no sets.
     * Building them auto-selects variant 0 of every automatically applied change
     * that has a variant and leaves every other selection as it was.
     */
    method InitializeReview()
      modifies Flat(allChanges)`SelectedVariantIndex
      ensures forall i, c :: 0 <= i < |allChanges| && c in old(allChanges[i].Changes) ==>
        c.SelectedVariantIndex == (if (!c.IsConflict || |c.Variants| <= 1) && |c.Variants| > 0 then 0 else old(c.SelectedVariantIndex))
    {
      if |allChanges| == 0 {
        return;
      }
      ghost var flat := Flat(allChanges);
      FlatMembers(allChanges);
      ghost var done: seq<WordChange> := [];
      for k := 0 to |allChanges|
        invariant forall i, c :: 0 <= i < k && c in old(allChanges[i].Changes) ==> c in done
        invariant forall i, c :: 0 <= i < |allChanges| && c in old(allChanges[i].Changes) && c in done ==>
          c.SelectedVariantIndex == (if (!c.IsConflict || |c.Variants| <= 1) && |c.Variants| > 0 then 0 else old(c.SelectedVariantIndex))
        invariant forall i, c :: 0 <= i < |allChanges| && c in old(allChanges[i].Changes) && c !in done ==>
          c.SelectedVariantIndex == old(c.SelectedVariantIndex)
      {
        var changeSet := allChanges[k];
        assert forall j :: 0 <= j < |changeSet.Changes| ==> changeSet.Changes[j] in flat;
        var conflictChanges, nonConflictChanges := CreateChangeSetPanel(changeSet);
        done := done + changeSet.Changes;
      }
    }

    /** RefreshDisplay: the panels are built again from scratch. */
    method RefreshDisplay()
      modifies Flat(allChanges)`SelectedVariantIndex
      ensures forall i, c :: 0 <= i < |allChanges| && c in old(allChanges[i].Changes) ==>
        c.SelectedVariantIndex == (if (!c.IsConflict || |c.Variants| <= 1) && |c.Variants| > 0 then 0 else old(c.SelectedVariantIndex))
    {
      InitializeReview();
    }

    /**
     * UpdateStatus: "resolved of total", green when they are equal.  `total` counts
     * every change of every set, `resolved` the changes whose selected index names
     * an existing variant, so a rejected (-1) change is unresolved.
     */
    method UpdateStatus() returns (resolved: int, total: int, green: bool)
      ensures total == |Flat(allChanges)|
      ensures resolved == CountResolved(Flat(allChanges))
      ensures 0 <= resolved <= total
      ensures green <==> resolved == total
      ensures green <==> forall i, c :: 0 <= i < |allChanges| && c in allChanges[i].Changes ==> HasSelection(c)
    {
      total, resolved := 0, 0;
      for i := 0 to |allChanges|
        invariant total == |Flat(allChanges[..i])|
        invariant resolved == CountResolved(Flat(allChanges[..i]))
      {
        var changeSet := allChanges[i];
        for j := 0 to |changeSet.Changes|
          invariant total == |Flat(allChanges[..i])| + j
          invariant resolved == CountResolved(Flat(allChanges[..i])) + CountResolved(changeSet.Changes[..j])
        {
          var change := changeSet.Changes[j];
          assert changeSet.Changes[..j + 1][..j] == changeSet.Changes[..j];
          total := total + 1;
          if change.SelectedVariantIndex >= 0 && change.SelectedVariantIndex < |change.Variants| {
            resolved := resolved + 1;
          }
        }
        assert changeSet.Changes[..|changeSet.Changes|] == changeSet.Changes;
        assert allChanges[..i + 1][..i] == allChanges[..i];
        CountResolvedAppend(Flat(allChanges[..i]), changeSet.Changes);
      }
      assert allChanges[..|allChanges|] == allChanges;
      green := resolved == total;
      AllResolved(Flat(allChanges));
      ResolvedAcrossSets(allChanges);
    }

    /**
     * The loops of BtnAcceptAll_Click: variant 0 is selected for every change of
     * every set that has a variant; changes without variants keep their index.
     */
    method SelectFirstVariantOfAll()
      modifies Flat(allChanges)`SelectedVariantIndex
      ensures forall i, c :: 0 <= i < |allChanges| && c in old(allChanges[i].Changes) ==>
        c.SelectedVariantIndex == (if |c.Variants| > 0 then 0 else old(c.SelectedVariantIndex))
    {
      ghost var flat := Flat(allChanges);
      FlatMembers(allChanges);
      ghost var done: seq<WordChange> := [];
      for k := 0 to |allChanges|
        invariant forall i, c :: 0 <= i < k && c in old(allChanges[i].Changes) ==> c in done
        invariant forall i, c :: 0 <= i < |allChanges| && c in old(allChanges[i].Changes) && c in done ==>
          c.SelectedVariantIndex == (if |c.Variants| > 0 then 0 else old(c.SelectedVariantIndex))
        invariant forall i, c :: 0 <= i < |allChanges| && c in old(allChanges[i].Changes) && c !in done ==>
          c.SelectedVariantIndex == old(c.SelectedVariantIndex)
      {
        var changeSet := allChanges[k];
        assert forall j :: 0 <= j < |changeSet.Changes| ==> changeSet.Changes[j] in flat;
        SelectFirstVariants(changeSet.Changes);
        done := done + changeSet.Changes;
      }
    }

    /**
     * BtnAcceptAll_Click: variant 0 is selected for every change that has a variant,
     * then the panels are rebuilt and the status updated.  Afterwards a change is
     * resolved exactly when it has a variant.
     */
    method BtnAcceptAllClick() returns (resolved: int, total: int, green: bool)
      modifies Flat(allChanges)`SelectedVariantIndex
      ensures forall i, c :: 0 <= i < |allChanges| && c in old(allChanges[i].Changes) ==>
        c.SelectedVariantIndex == (if |c.Variants| > 0 then 0 else old(c.SelectedVariantIndex))
      ensures forall i, c :: 0 <= i < |allChanges| && c in allChanges[i].Changes ==> (HasSelection(c) <==> |c.Variants| > 0)
      ensures total == |Flat(allChanges)| && resolved == CountResolved(Flat(allChanges)) && (green <==> resolved == total)
    {
      SelectFirstVariantOfAll();
      RefreshDisplay();
      forall i, c | 0 <= i < |allChanges| && c in allChanges[i].Changes
        ensures HasSelection(c) <==> |c.Variants| > 0
      {
      }
      resolved, total, green := UpdateStatus();
    }

    /** The loops of BtnRejectAll_Click: every change of every set is set to -1. */
    method RejectEverySet()
      modifies Flat(allChanges)`SelectedVariantIndex
      ensures forall i, c :: 0 <= i < |allChanges| && c in allChanges[i].Changes ==> c.SelectedVariantIndex == -1
    {
      ghost var flat := Flat(allChanges);
      FlatMembers(allChanges);
      for k := 0 to |allChanges|
        invariant forall i, c :: 0 <= i < k && c in old(allChanges[i].Changes) ==> c.SelectedVariantIndex == -1
      {
        var changeSet := allChanges[k];
        assert forall j :: 0 <= j < |changeSet.Changes| ==> changeSet.Changes[j] in flat;
        RejectEach(changeSet.Changes);
      }
    }

    /**
     * BtnRejectAll_Click: every change is set to -1, then the panels are rebuilt,
     * which selects variant 0 again for every automatically applied change with a
     * variant.  Only the conflicts with a real choice and the changes without
     * variants stay rejected.
     */
    method BtnRejectAllClick() returns (resolved: int, total: int, green: bool)
      modifies Flat(allChanges)`SelectedVariantIndex
      ensures forall i, c :: 0 <= i < |allChanges| && c in allChanges[i].Changes ==>
        c.SelectedVariantIndex == (if (!c.IsConflict || |c.Variants| <= 1) && |c.Variants| > 0 then 0 else -1)
      ensures forall i, c :: 0 <= i < |allChanges| && c in allChanges[i].Changes ==>
        (HasSelection(c) <==> (!c.IsConflict || |c.Variants| <= 1) && |c.Variants| > 0)
      ensures total == |Flat(allChanges)| && resolved == CountResolved(Flat(allChanges)) && (green <==> resolved == total)
    {
      RejectEverySet();
      RefreshDisplay();
      forall i, c | 0 <= i < |allChanges| && c in allChanges[i].Changes
        ensures HasSelection(c) <==> (!c.IsConflict || |c.Variants| <= 1) && |c.Variants| > 0
      {
      }
      resolved, total, green := UpdateStatus();
    }

    /**
     * The `CheckedChanged` handler of the radio button for variant `index` of
     * `change`: when the button becomes checked, that variant is selected and the
     * status updated.  Buttons exist only for the variants of a change, so the
     * stored index is always valid.
     */
    method RadioCheckedChanged(change: WordChange, index: int, isChecked: bool)
      requires 0 <= index < |change.Variants|
      modifies change`SelectedVariantIndex
      ensures isChecked ==> change.SelectedVariantIndex == index && HasSelection(change) && Chosen(change) == change.Variants[index]
      ensures !isChecked ==> change.SelectedVariantIndex == old(change.SelectedVariantIndex)
    {
      if isChecked {
        change.SelectedVariantIndex := index;
        var resolved, total, green := UpdateStatus();
      }
    }
  }
}
