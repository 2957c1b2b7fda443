/**
 * The change model of ChangeSet.cs: one ChangeSet per compared document, holding
 * WordChange objects, each with its candidate ChangeVariants.  WordChange and
 * ChangeSet are mutable property bags (the review form and the conflict detector
 * overwrite their fields in place), so they are classes; a ChangeVariant is never
 * changed once built, so it is a value.
 */
module ChangeModel {
  import opened Nullable
  import opened Strings

  /** One candidate resolution of a change; each field may be null. */
  datatype ChangeVariant = ChangeVariant(Author: Option<string>, Text: Option<string>, Comment: Option<string>)

  class WordChange {
    var Type: Option<string>
    var StartPos: int
    var EndPos: int
    var OriginalText: Option<string>
    var Variants: seq<ChangeVariant>
    var SelectedVariantIndex: int
    var IsConflict: bool

    /**
     * `new WordChange()`: strings are null, positions and the selected index are the
     * C# default 0 (so "unresolved" and "variant 0 chosen" are the same value), the
     * variant list is empty and the change is not a conflict.  Nothing forces
     * `0 <= StartPos <= EndPos`.
     */
    constructor ()
      ensures Type == None && OriginalText == None
      ensures StartPos == 0 && EndPos == 0
      ensures Variants == [] && SelectedVariantIndex == 0 && !IsConflict
    {
      Type, OriginalText := None, None;
      StartPos, EndPos := 0, 0;
      Variants, SelectedVariantIndex, IsConflict := [], 0, false;
    }
  }

  class ChangeSet {
    var ChangedFileName: Option<string>
    var Changes: seq<WordChange>

    /** `new ChangeSet()`: no file name yet and an empty, non-null change list. */
    constructor ()
      ensures ChangedFileName == None && Changes == []
    {
      ChangedFileName, Changes := None, [];
    }
  }

  /**
   * The selected index names an existing variant.  The merge filter, the guard at the
   * head of ApplySingleChange and the status counter all test this.
   */
  predicate HasSelection(c: WordChange)
    reads c
  {
    |c.Variants| > 0 && 0 <= c.SelectedVariantIndex < |c.Variants|
  }

  /** The variant a change with a selection applies. */
  function Chosen(c: WordChange): ChangeVariant
    reads c
    requires HasSelection(c)
  {
    c.Variants[c.SelectedVariantIndex]
  }

  /**
   * The changes of all sets in one sequence, set by set, each set's changes in
   * their own order (the `AddRange` loop of WordMerger.ApplyChanges and the nested
   * loops of the review form).
   */
  function Flat(sets: seq<ChangeSet>): seq<WordChange>
    reads sets`Changes
  {
    if sets == [] then [] else Flat(sets[..|sets| - 1]) + sets[|sets| - 1].Changes
  }

  /** Flat loses no change and adds none: its changes are exactly those of the sets. */
  lemma {:induction false} FlatMembers(sets: seq<ChangeSet>)
    ensures forall i, j :: 0 <= i < |sets| && 0 <= j < |sets[i].Changes| ==> sets[i].Changes[j] in Flat(sets)
    ensures forall k :: 0 <= k < |Flat(sets)| ==> exists i :: 0 <= i < |sets| && Flat(sets)[k] in sets[i].Changes
  {
    if sets != [] {
      var init := sets[..|sets| - 1];
      FlatMembers(init);
      assert forall i :: 0 <= i < |init| ==> init[i] == sets[i];
      forall k | 0 <= k < |Flat(sets)|
        ensures exists i :: 0 <= i < |sets| && Flat(sets)[k] in sets[i].Changes
      {
        if k >= |Flat(init)| {
          assert Flat(sets)[k] == sets[|sets| - 1].Changes[k - |Flat(init)|];
          assert Flat(sets)[k] in sets[|sets| - 1].Changes;
        } else {
          assert Flat(sets)[k] == Flat(init)[k];
          var i :| 0 <= i < |init| && Flat(init)[k] in init[i].Changes;
          assert Flat(sets)[k] in sets[i].Changes;
        }
      }
      var last := sets[|sets| - 1].Changes;
      forall j | 0 <= j < |last|
        ensures last[j] in Flat(sets)
      {
        assert Flat(sets)[|Flat(init)| + j] == last[j];
      }
    } else {
      assert Flat(sets) == [];
    }
  }

  /** The kinds of change the merge engine and the review form tell apart. */
  datatype Kind = Insert | Delete | Replace | Comment | Format | Unknown

  /** The lower-case type string naming each known kind. */
  function KindName(k: Kind): string
  {
    match k
    case Insert => "insert"
    case Delete => "delete"
    case Replace => "replace"
    case Comment => "comment"
    case Format => "format"
    case Unknown => "unknown"
  }

  /**
   * `switch (type.ToLower())` over a change's type string, as both WordMerger and
   * the review form do it: the match ignores case, and a null or unrecognised type
   * is Unknown.
   */
  function ParseKind(t: Option<string>): Kind
  {
    if t.None? then Unknown
    else
      var l := Lower(t.value);
      if l == "insert" then Insert
      else if l == "delete" then Delete
      else if l == "replace" then Replace
      else if l == "comment" then Comment
      else if l == "format" then Format
      else Unknown
  }

  /**
   * A known kind is parsed exactly from a string whose lower-case form is its name;
   * null and every other string parse as Unknown.
   */
  lemma ParseKindMeaning(t: Option<string>)
    ensures ParseKind(t) != Unknown ==> t.Some? && Lower(t.value) == KindName(ParseKind(t))
    ensures ParseKind(t) == Unknown <==> t.None? || Lower(t.value) !in {"insert", "delete", "replace", "comment", "format"}
  {
  }

  /** Each known kind's name parses back to that kind, in any letter case. */
  lemma ParseKindName(k: Kind, s: string)
    requires k != Unknown
    requires Lower(s) == KindName(k)
    ensures ParseKind(Some(s)) == k
    ensures ParseKind(Some(KindName(k))) == k
  {
    LowerIdempotent(s);
    assert Lower(KindName(k)) == KindName(k) by {
      assert forall i :: 0 <= i < |KindName(k)| ==> !('A' <= KindName(k)[i] <= 'Z');
    }
  }

  /** Parsing ignores letter case: a type string and its lower-case form parse alike. */
  lemma ParseKindIgnoresCase(s: string)
    ensures ParseKind(Some(s)) == ParseKind(Some(Lower(s)))
  {
    LowerIdempotent(s);
  }
}
