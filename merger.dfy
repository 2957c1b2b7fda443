/**
 * WordMerger.cs without Word: the merged document is a text plus the comments and
 * font flags added to it.  `range.Text = t` on `document.Range(s, e)` is the splice
 * `text[..s] + t + text[e..]`, `Comments.Add` appends an annotation and the font
 * setters append a format mark; `document.Range().End` is the text length.
 */
module Merger {
  import opened Nullable
  import opened Strings
  import opened ChangeModel

  /** A comment anchored on the range [Start, End). */
  datatype Annotation = Annotation(Start: int, End: int, Text: string)

  /** The three font settings ApplyFormatting knows. */
  datatype FontFlag = Bold | Italic | Underline

  /** A font setting applied to the range [Start, End). */
  datatype FormatMark = FormatMark(Start: int, End: int, Flag: FontFlag)

  /** A snapshot of the merged document. */
  datatype Doc = Doc(Text: string, Comments: seq<Annotation>, Formats: seq<FormatMark>)

  /** The open merged document, changed in place change by change. */
  class Document {
    var Text: string
    var Comments: seq<Annotation>
    var Formats: seq<FormatMark>

    /** The copy of the original document, before any change is applied. */
    constructor (text: string)
      ensures State() == Doc(text, [], [])
    {
      Text, Comments, Formats := text, [], [];
    }

    /** The document's current contents as a value. */
    function State(): Doc
      reads this
    {
      Doc(Text, Comments, Formats)
    }
  }

  /** Setting the text of the range [s, e) to `t`. */
  function Splice(text: string, s: int, e: int, t: string): (r: string)
    requires 0 <= s <= e <= |text|
    ensures |r| == |text| - (e - s) + |t|
    ensures r[..s] == text[..s] && r[s..s + |t|] == t && r[s + |t|..] == text[e..]
  {
    text[..s] + t + text[e..]
  }

  /** Setting the new range back to the old text undoes a splice. */
  lemma SpliceUndo(text: string, s: int, e: int, t: string)
    requires 0 <= s <= e <= |text|
    ensures Splice(Splice(text, s, e, t), s, s + |t|, text[s..e]) == text
  {
    var r := Splice(text, s, e, t);
    assert r[..s] + text[s..e] + r[s + |t|..] == text[..s] + text[s..e] + text[e..];
    assert text == text[..s] + text[s..e] + text[e..];
  }

  /** The range guard of ApplySingleChange: `0 <= StartPos <= EndPos <= len`. */
  predicate InBounds(c: WordChange, len: int)
    reads c
  {
    0 <= c.StartPos <= c.EndPos <= len
  }

  /**
   * The text a change writes over its range: the chosen variant's text (null read as
   * "") for an insert or a replace, "" for a delete, and nothing for the other kinds.
   */
  function Replacement(c: WordChange): Option<string>
    reads c
    requires HasSelection(c)
  {
    match ParseKind(c.Type)
    case Insert => Some(Chosen(c).Text.GetOr(""))
    case Replace => Some(Chosen(c).Text.GetOr(""))
    case Delete => Some("")
    case _ => None
  }

  /** Where the rewritten range ends: an insert writes at StartPos and overwrites nothing. */
  function RewriteEnd(c: WordChange): int
    reads c
  {
    if ParseKind(c.Type) == Insert then c.StartPos else c.EndPos
  }

  /**
   * The font settings ApplyFormatting makes on [s, e) for one variant: none when the
   * variant's text is null or empty, none when its comment is null (the first
   * `Contains` call throws and the exception is swallowed), otherwise bold, italic and
   * underline, each exactly when the comment contains its name (case-sensitive).
   */
  function FormatMarks(s: int, e: int, v: ChangeVariant): seq<FormatMark>
  {
    if IsNullOrEmpty(v.Text) || v.Comment.None? then []
    else
      var note := v.Comment.value;
      (if Contains(note, "bold") then [FormatMark(s, e, Bold)] else [])
      + (if Contains(note, "italic") then [FormatMark(s, e, Italic)] else [])
      + (if Contains(note, "underline") then [FormatMark(s, e, Underline)] else [])
  }

  /**
   * What FormatMarks promises: nothing without text or comment; otherwise each of the
   * three settings, on the given range, exactly when the comment names it.
   */
  lemma FormatMarksMeaning(s: int, e: int, v: ChangeVariant)
    ensures IsNullOrEmpty(v.Text) || v.Comment.None? ==> FormatMarks(s, e, v) == []
    ensures forall m :: m in FormatMarks(s, e, v) ==> m.Start == s && m.End == e
    ensures !IsNullOrEmpty(v.Text) && v.Comment.Some? ==>
              (FormatMark(s, e, Bold) in FormatMarks(s, e, v) <==> Contains(v.Comment.value, "bold"))
              && (FormatMark(s, e, Italic) in FormatMarks(s, e, v) <==> Contains(v.Comment.value, "italic"))
              && (FormatMark(s, e, Underline) in FormatMarks(s, e, v) <==> Contains(v.Comment.value, "underline"))
    ensures |FormatMarks(s, e, v)| <= 3
  {
  }

  /** The comment a "comment" change adds: only a non-empty variant comment is added. */
  function NoteOf(c: WordChange): seq<Annotation>
    reads c
    requires HasSelection(c)
  {
    if ParseKind(c.Type) == Comment && !IsNullOrEmpty(Chosen(c).Comment) then
      [Annotation(c.StartPos, c.EndPos, Chosen(c).Comment.value)]
    else []
  }

  /** The font settings a change makes: only a "format" change makes any. */
  function MarksOf(c: WordChange): seq<FormatMark>
    reads c
    requires HasSelection(c)
  {
    if ParseKind(c.Type) == Format then FormatMarks(c.StartPos, c.EndPos, Chosen(c)) else []
  }

  /**
   * The effect of ApplySingleChange on the document: nothing unless the change has a
   * selection and passes the range guard; then the splice of its replacement over
   * [StartPos, RewriteEnd), its comment, or its font settings.
   */
  function Step(d: Doc, c: WordChange): Doc
    reads c
  {
    if !HasSelection(c) || !InBounds(c, |d.Text|) then d
    else
      var text := match Replacement(c)
        case Some(t) => Splice(d.Text, c.StartPos, RewriteEnd(c), t)
        case None => d.Text;
      Doc(text, d.Comments + NoteOf(c), d.Formats + MarksOf(c))
  }

  /**
   * What one application promises: nothing happens without a selection or outside the
   * range guard; comment, format and unknown changes leave the text alone; the text
   * before StartPos is never touched; comments and font settings are only ever
   * appended, and only by a change of their own kind.
   */
  lemma StepFrame(d: Doc, c: WordChange)
    ensures !HasSelection(c) || !InBounds(c, |d.Text|) ==> Step(d, c) == d
    ensures ParseKind(c.Type) in {Comment, Format, Unknown} ==> Step(d, c).Text == d.Text
    ensures 0 <= c.StartPos <= |d.Text| ==>
              |Step(d, c).Text| >= c.StartPos && Step(d, c).Text[..c.StartPos] == d.Text[..c.StartPos]
    ensures d.Comments <= Step(d, c).Comments && d.Formats <= Step(d, c).Formats
    ensures ParseKind(c.Type) != Comment ==> Step(d, c).Comments == d.Comments
    ensures ParseKind(c.Type) != Format ==> Step(d, c).Formats == d.Formats
  {
  }

  /** The document after applying `ops` one after the other, first to last. */
  function ApplyAll(d: Doc, ops: seq<WordChange>): (r: Doc)
    reads ops
    decreases |ops|
  {
    if ops == [] then d else ApplyAll(Step(d, ops[0]), ops[1..])
  }

  /** The changes of `s` that have a selection, in their order (the LINQ `Where`). */
  function Selected(s: seq<WordChange>): seq<WordChange>
    reads s
  {
    if s == [] then []
    else (if HasSelection(s[0]) then [s[0]] else []) + Selected(s[1..])
  }

  /** Selected is no longer than its input and keeps only changes with a selection. */
  lemma {:induction false} SelectedKeeps(s: seq<WordChange>)
    ensures |Selected(s)| <= |s|
    ensures forall k :: 0 <= k < |Selected(s)| ==> HasSelection(Selected(s)[k])
  {
    if s != [] {
      SelectedKeeps(s[1..]);
    }
  }

  /** Selected keeps every change with a selection, each as often as it occurs, and no other. */
  lemma {:induction false} SelectedCounts(s: seq<WordChange>)
    ensures forall c :: multiset(Selected(s))[c] == if HasSelection(c) then multiset(s)[c] else 0
  {
    if s != [] {
      SelectedCounts(s[1..]);
      assert s == [s[0]] + s[1..];
    }
  }

  /** Start offsets never increase along the list. */
  predicate SortedDesc(s: seq<WordChange>)
    reads s
  {
    forall i, j :: 0 <= i < j < |s| ==> s[i].StartPos >= s[j].StartPos
  }

  /**
   * Each change ends at or before the start of every change applied before it: the
   * situation the descending sort is meant to produce.
   */
  predicate Separated(ops: seq<WordChange>)
    reads ops
  {
    forall k, l :: 0 <= k < l < |ops| ==> ops[l].EndPos <= ops[k].StartPos
  }

  /** The AddRange loop of ApplyChanges: every set's changes, set after set. */
  method FlattenChanges(allChanges: seq<ChangeSet>) returns (all: seq<WordChange>)
    ensures all == Flat(allChanges)
  {
    all := [];
    for i := 0 to |allChanges|
      invariant all == Flat(allChanges[..i])
    {
      assert allChanges[..i + 1][..i] == allChanges[..i];
      all := all + allChanges[i].Changes;
    }
    assert allChanges[..|allChanges|] == allChanges;
  }

  /**
   * `selectedChanges.Sort((a, b) => b.StartPos.CompareTo(a.StartPos))`: the same
   * changes, by descending start offset.  List.Sort is not stable, so the order of
   * equal start offsets is not promised; this sort inserts each change after the
   * ones already placed with an equal or greater start.
   */
  method SortByStartDescending(s: seq<WordChange>) returns (r: seq<WordChange>)
    ensures multiset(r) == multiset(s)
    ensures SortedDesc(r)
  {
    r := [];
    for i := 0 to |s|
      invariant multiset(r) == multiset(s[..i])
      invariant SortedDesc(r)
    {
      assert s[..i + 1] == s[..i] + [s[i]];
      r := InsertDescending(r, s[i]);
    }
    assert s[..|s|] == s;
  }

  /** One step of the sort: `c` placed after every change whose start is not below its own. */
  method InsertDescending(r: seq<WordChange>, c: WordChange) returns (r': seq<WordChange>)
    requires SortedDesc(r)
    ensures multiset(r') == multiset(r) + multiset{c}
    ensures SortedDesc(r')
  {
    var k := 0;
    while k < |r| && r[k].StartPos >= c.StartPos
      invariant 0 <= k <= |r|
      invariant forall m :: 0 <= m < k ==> r[m].StartPos >= c.StartPos
    {
      k := k + 1;
    }
    SortedDescSplit(r, k);
    r' := r[..k] + [c] + r[k..];
    SortedDescJoin(r[..k], c, r[k..]);
    InsertCounts(r, k, c);
  }

  /** Placing an element anywhere in a list adds it once to the list's contents. */
  lemma InsertCounts<T>(r: seq<T>, k: int, c: T)
    requires 0 <= k <= |r|
    ensures multiset(r[..k] + [c] + r[k..]) == multiset(r) + multiset{c}
  {
    assert r == r[..k] + r[k..];
  }

  /** Both parts of a list by descending start are by descending start, and nothing after position `k` starts later than it. */
  lemma SortedDescSplit(r: seq<WordChange>, k: int)
    requires SortedDesc(r) && 0 <= k <= |r|
    ensures SortedDesc(r[..k]) && SortedDesc(r[k..])
    ensures k < |r| ==> forall y :: 0 <= y < |r[k..]| ==> r[k..][y].StartPos <= r[k].StartPos
  {
    assert forall y :: 0 <= y < |r[k..]| ==> r[k..][y] == r[k + y];
  }

  /** A change placed between two lists by descending start, fitting both, keeps the order. */
  lemma SortedDescJoin(a: seq<WordChange>, c: WordChange, b: seq<WordChange>)
    requires SortedDesc(a) && SortedDesc(b)
    requires forall x :: 0 <= x < |a| ==> a[x].StartPos >= c.StartPos
    requires forall y :: 0 <= y < |b| ==> c.StartPos >= b[y].StartPos
    ensures SortedDesc(a + [c] + b)
  {
    var r := a + [c] + b;
    forall i, j | 0 <= i < j < |r|
      ensures r[i].StartPos >= r[j].StartPos
    {
      if j < |a| {
        assert r[i] == a[i] && r[j] == a[j];
      } else if i < |a| {
        assert r[i] == a[i];
        if j > |a| {
          assert r[j] == b[j - |a| - 1];
        }
      } else if i == |a| {
        assert r[j] == b[j - |a| - 1];
      } else {
        assert r[i] == b[i - |a| - 1] && r[j] == b[j - |a| - 1];
      }
    }
  }

  /**
   * ApplyFormatting on `document.Range(s, e)`: the font settings FormatMarks names,
   * in the order bold, italic, underline.
   */
  method ApplyFormatting(document: Document, s: int, e: int, variant: ChangeVariant)
    modifies document`Formats
    ensures document.Formats == old(document.Formats) + FormatMarks(s, e, variant)
  {
    if !IsNullOrEmpty(variant.Text) {
      if variant.Comment.None? {
        return;
      }
      var note := variant.Comment.value;
      if Contains(note, "bold") {
        document.Formats := document.Formats + [FormatMark(s, e, Bold)];
      }
      if Contains(note, "italic") {
        document.Formats := document.Formats + [FormatMark(s, e, Italic)];
      }
      if Contains(note, "underline") {
        document.Formats := document.Formats + [FormatMark(s, e, Underline)];
      }
    }
  }

  /** Step case by case, for a change that has a selection and passes the range guard. */
  lemma StepCases(d: Doc, c: WordChange)
    requires HasSelection(c) && InBounds(c, |d.Text|)
    ensures ParseKind(c.Type) == Insert ==>
              Step(d, c) == d.(Text := Splice(d.Text, c.StartPos, c.StartPos, Chosen(c).Text.GetOr("")))
    ensures ParseKind(c.Type) == Delete ==> Step(d, c) == d.(Text := Splice(d.Text, c.StartPos, c.EndPos, ""))
    ensures ParseKind(c.Type) == Replace ==>
              Step(d, c) == d.(Text := Splice(d.Text, c.StartPos, c.EndPos, Chosen(c).Text.GetOr("")))
    ensures ParseKind(c.Type) == Comment && IsNullOrEmpty(Chosen(c).Comment) ==> Step(d, c) == d
    ensures ParseKind(c.Type) == Comment && !IsNullOrEmpty(Chosen(c).Comment) ==>
              Step(d, c) == d.(Comments := d.Comments + [Annotation(c.StartPos, c.EndPos, Chosen(c).Comment.value)])
    ensures ParseKind(c.Type) == Format ==>
              Step(d, c) == d.(Formats := d.Formats + FormatMarks(c.StartPos, c.EndPos, Chosen(c)))
    ensures ParseKind(c.Type) == Unknown ==> Step(d, c) == d
  {
  }

  /** ApplySingleChange: the selection check, the range guard, then the type switch. */
  method ApplySingleChange(document: Document, change: WordChange)
    modifies document
    ensures document.State() == Step(old(document.State()), change)
  {
    if |change.Variants| == 0 || change.SelectedVariantIndex < 0 || change.SelectedVariantIndex >= |change.Variants| {
      return;
    }
    var variant := change.Variants[change.SelectedVariantIndex];
    if change.StartPos < 0 || change.EndPos < change.StartPos || change.EndPos > |document.Text| {
      return;
    }
    StepCases(document.State(), change);
    match ParseKind(change.Type)
    case Insert =>
      document.Text := Splice(document.Text, change.StartPos, change.StartPos, variant.Text.GetOr(""));
    case Delete =>
      document.Text := Splice(document.Text, change.StartPos, change.EndPos, "");
    case Replace =>
      document.Text := Splice(document.Text, change.StartPos, change.EndPos, variant.Text.GetOr(""));
    case Comment =>
      if !IsNullOrEmpty(variant.Comment) {
        document.Comments := document.Comments + [Annotation(change.StartPos, change.EndPos, variant.Comment.value)];
      }
    case Format =>
      ApplyFormatting(document, change.StartPos, change.EndPos, variant);
    case Unknown =>
  }

  /**
   * ApplyChanges on an open copy of the original: flatten, keep the selected changes,
   * sort them by descending start and apply each in turn.  The result is the order
   * in which the changes were applied.
   */
  method ApplyChanges(document: Document, allChanges: seq<ChangeSet>) returns (applied: seq<WordChange>)
    modifies document
    ensures multiset(applied) == multiset(old(Selected(Flat(allChanges))))
    ensures SortedDesc(applied)
    ensures document.State() == ApplyAll(old(document.State()), applied)
  {
    ghost var chosen := Selected(Flat(allChanges));
    var allWordChanges := FlattenChanges(allChanges);
    var selectedChanges := Selected(allWordChanges);
    assert selectedChanges == chosen;
    applied := SortByStartDescending(selectedChanges);
    ApplyInOrder(document, applied);
  }

  /** The `foreach` of ApplyChanges: each change in turn, none stopping the ones after it. */
  method ApplyInOrder(document: Document, ops: seq<WordChange>)
    modifies document
    ensures document.State() == ApplyAll(old(document.State()), ops)
  {
    for i := 0 to |ops|
      invariant ApplyAll(document.State(), ops[i..]) == ApplyAll(old(document.State()), ops)
    {
      assert ops[i..][1..] == ops[i + 1..];
      ApplySingleChange(document, ops[i]);
    }
    assert ops[|ops|..] == [];
  }

  /** Changes starting at or after `p` never disturb the text before `p`. */
  lemma {:induction false} ApplyAllKeepsPrefix(d: Doc, ops: seq<WordChange>, p: int)
    requires 0 <= p <= |d.Text|
    requires forall k :: 0 <= k < |ops| ==> ops[k].StartPos >= p
    ensures |ApplyAll(d, ops).Text| >= p && ApplyAll(d, ops).Text[..p] == d.Text[..p]
    decreases |ops|
  {
    if ops != [] {
      var d' := Step(d, ops[0]);
      StepFrame(d, ops[0]);
      if 0 <= ops[0].StartPos <= |d.Text| {
        assert d'.Text[..p] == d'.Text[..ops[0].StartPos][..p];
      } else {
        assert d' == d;
      }
      ApplyAllKeepsPrefix(d', ops[1..], p);
    }
  }

  /**
   * The rationale of the descending sort: when every change ends at or before the start
   * of the changes applied before it, each change, on its turn, finds the document
   * unchanged up to its end, so its offsets still mean what they meant in the original.
   */
  lemma SeparatedSeesOriginal(d: Doc, ops: seq<WordChange>, l: int)
    requires Separated(ops)
    requires 0 <= l < |ops| && 0 <= ops[l].EndPos <= |d.Text|
    ensures |ApplyAll(d, ops[..l]).Text| >= ops[l].EndPos
    ensures ApplyAll(d, ops[..l]).Text[..ops[l].EndPos] == d.Text[..ops[l].EndPos]
    ensures InBounds(ops[l], |ApplyAll(d, ops[..l]).Text|) <==> InBounds(ops[l], |d.Text|)
  {
    ApplyAllKeepsPrefix(d, ops[..l], ops[l].EndPos);
  }

  /**
   * The same for the order ApplyChanges produces: in a list sorted by descending start,
   * a change that ends at or before the start of the change applied just before it
   * finds the original text up to its end, whatever came earlier in the list.
   */
  lemma SortedSeesOriginal(d: Doc, ops: seq<WordChange>, l: int)
    requires SortedDesc(ops)
    requires 0 < l < |ops| && 0 <= ops[l].EndPos <= |d.Text|
    requires ops[l].EndPos <= ops[l - 1].StartPos
    ensures |ApplyAll(d, ops[..l]).Text| >= ops[l].EndPos
    ensures ApplyAll(d, ops[..l]).Text[..ops[l].EndPos] == d.Text[..ops[l].EndPos]
    ensures InBounds(ops[l], |ApplyAll(d, ops[..l]).Text|) <==> InBounds(ops[l], |d.Text|)
  {
    ApplyAllKeepsPrefix(d, ops[..l], ops[l].EndPos);
  }

  /** The text a change leaves on [StartPos, RewriteEnd): its replacement, or the text already there. */
  function Middle(c: WordChange, text: string): string
    reads c
    requires HasSelection(c) && InBounds(c, |text|)
  {
    match Replacement(c)
    case Some(t) => t
    case None => text[c.StartPos..RewriteEnd(c)]
  }

  /**
   * The merged text computed on the original alone: a change that has a selection and
   * fits the text cuts it at its range, leaves its Middle there, and the changes after
   * it work on the text before its start.
   */
  function Merged(text: string, ops: seq<WordChange>): (r: string)
    reads ops
    decreases |ops|
  {
    if ops == [] then text
    else
      var c := ops[0];
      if !HasSelection(c) || !InBounds(c, |text|) then Merged(text, ops[1..])
      else Merged(text[..c.StartPos], ops[1..]) + Middle(c, text) + text[RewriteEnd(c)..]
  }

  /** The changes after the first of a separated list are separated and end where the first starts. */
  lemma SeparatedTail(ops: seq<WordChange>)
    requires Separated(ops) && ops != []
    ensures Separated(ops[1..])
    ensures forall k :: 0 <= k < |ops[1..]| ==> ops[1..][k].EndPos <= ops[0].StartPos
  {
    assert forall k :: 0 <= k < |ops[1..]| ==> ops[1..][k] == ops[k + 1];
  }

  /** A splice inside a prefix `p` does the same whatever text follows `p`. */
  lemma SpliceLocal(p: string, q: string, s: int, e: int, t: string)
    requires 0 <= s <= e <= |p|
    ensures Splice(p + q, s, e, t) == Splice(p, s, e, t) + q
  {
    assert (p + q)[..s] == p[..s];
    assert (p + q)[e..] == p[e..] + q;
  }

  /** One change inside a prefix `p` does the same whatever text follows `p`. */
  lemma StepLocal(p: string, q: string, cs: seq<Annotation>, fs: seq<FormatMark>, c: WordChange)
    requires c.EndPos <= |p|
    ensures Step(Doc(p + q, cs, fs), c) == Step(Doc(p, cs, fs), c).(Text := Step(Doc(p, cs, fs), c).Text + q)
  {
    assert InBounds(c, |p + q|) <==> InBounds(c, |p|);
    if HasSelection(c) && InBounds(c, |p|) && Replacement(c).Some? {
      SpliceLocal(p, q, c.StartPos, RewriteEnd(c), Replacement(c).value);
    }
  }

  /**
   * Applying changes that lie within a prefix `p` of the text gives the same result
   * whatever follows `p`: the suffix is carried along untouched.
   */
  lemma {:induction false} ApplyAllLocal(p: string, q: string, cs: seq<Annotation>, fs: seq<FormatMark>, ops: seq<WordChange>)
    requires Separated(ops)
    requires forall k :: 0 <= k < |ops| ==> ops[k].EndPos <= |p|
    ensures ApplyAll(Doc(p + q, cs, fs), ops) ==
              ApplyAll(Doc(p, cs, fs), ops).(Text := ApplyAll(Doc(p, cs, fs), ops).Text + q)
    decreases |ops|
  {
    if ops != [] {
      var c := ops[0];
      var short := Step(Doc(p, cs, fs), c);
      StepLocal(p, q, cs, fs, c);
      SeparatedTail(ops);
      ApplyAllLocal(short.Text, q, short.Comments, short.Formats, ops[1..]);
    }
  }

  /** A change that has a selection and fits the text leaves its Middle between the two cut ends. */
  lemma StepText(d: Doc, c: WordChange)
    requires HasSelection(c) && InBounds(c, |d.Text|)
    ensures Step(d, c).Text == d.Text[..c.StartPos] + (Middle(c, d.Text) + d.Text[RewriteEnd(c)..])
  {
    var p, m, e := d.Text[..c.StartPos], Middle(c, d.Text), d.Text[RewriteEnd(c)..];
    if Replacement(c).None? {
      assert d.Text == d.Text[..c.StartPos] + d.Text[c.StartPos..c.EndPos] + d.Text[c.EndPos..];
    }
    assert Step(d, c).Text == p + m + e;
    AppendAssoc(p, m, e);
  }

  /**
   * Applying separated changes one after the other on the live document gives the text
   * computed on the original alone.
   */
  lemma {:induction false} ApplyAllMerged(d: Doc, ops: seq<WordChange>)
    requires Separated(ops)
    ensures ApplyAll(d, ops).Text == Merged(d.Text, ops)
    decreases |ops|, 1
  {
    if ops != [] {
      if !HasSelection(ops[0]) || !InBounds(ops[0], |d.Text|) {
        SeparatedTail(ops);
        ApplyAllMerged(d, ops[1..]);
      } else {
        ApplyAllMergedCut(d, ops);
      }
    }
  }

  /**
   * The case of ApplyAllMerged where the first change takes effect: the rest work
   * inside the text before its start, whatever it left after that.
   */
  lemma {:induction false} ApplyAllMergedCut(d: Doc, ops: seq<WordChange>)
    requires Separated(ops) && ops != [] && HasSelection(ops[0]) && InBounds(ops[0], |d.Text|)
    ensures ApplyAll(d, ops).Text == Merged(d.Text, ops)
    decreases |ops|, 0
  {
    var c, rest := ops[0], ops[1..];
    var d' := Step(d, c);
    var p := d.Text[..c.StartPos];
    var q := Middle(c, d.Text) + d.Text[RewriteEnd(c)..];
    var e := Doc(p, d'.Comments, d'.Formats);
    SeparatedTail(ops);
    StepText(d, c);
    calc {
      ApplyAll(d, ops).Text;
      ApplyAll(d', rest).Text;
      { assert d' == Doc(p + q, d'.Comments, d'.Formats);
        ApplyAllLocal(p, q, d'.Comments, d'.Formats, rest); }
      ApplyAll(e, rest).Text + q;
      { ApplyAllMerged(e, rest); }
      Merged(p, rest) + q;
      { AppendAssoc(Merged(p, rest), Middle(c, d.Text), d.Text[RewriteEnd(c)..]); }
      Merged(p, rest) + Middle(c, d.Text) + d.Text[RewriteEnd(c)..];
      Merged(d.Text, ops);
    }
  }

  /** The comments the changes in `ops` add when every one of them passes the range guard. */
  function NotesOf(ops: seq<WordChange>): (r: seq<Annotation>)
    reads ops
    ensures |r| <= |ops|
  {
    if ops == [] then []
    else (if HasSelection(ops[0]) then NoteOf(ops[0]) else []) + NotesOf(ops[1..])
  }

  /** The font settings the changes in `ops` make when every one of them passes the range guard. */
  function MarksOfAll(ops: seq<WordChange>): (r: seq<FormatMark>)
    reads ops
    ensures |r| <= 3 * |ops|
  {
    if ops == [] then []
    else (if HasSelection(ops[0]) then MarksOf(ops[0]) else []) + MarksOfAll(ops[1..])
  }

  /** A change that fits the text adds exactly its own comment and font settings. */
  lemma StepSideLists(d: Doc, c: WordChange)
    requires InBounds(c, |d.Text|)
    ensures Step(d, c).Comments == d.Comments + (if HasSelection(c) then NoteOf(c) else [])
    ensures Step(d, c).Formats == d.Formats + (if HasSelection(c) then MarksOf(c) else [])
  {
  }

  /** Separated changes that fit the text still fit it after the first of them is applied. */
  lemma FitsAfterStep(d: Doc, ops: seq<WordChange>)
    requires Separated(ops) && ops != []
    requires forall k :: 0 <= k < |ops| ==> InBounds(ops[k], |d.Text|)
    ensures forall k :: 0 <= k < |ops[1..]| ==> InBounds(ops[1..][k], |Step(d, ops[0]).Text|)
  {
    SeparatedTail(ops);
    StepFrame(d, ops[0]);
    assert forall k :: 0 <= k < |ops[1..]| ==> ops[1..][k] == ops[k + 1];
  }

  /**
   * One round of the application loop on the comments and font settings: when the
   * first change fits the text, what the rest add after it is what the whole list adds.
   */
  lemma SideListsCons(d: Doc, ops: seq<WordChange>)
    requires ops != [] && InBounds(ops[0], |d.Text|)
    requires ApplyAll(Step(d, ops[0]), ops[1..]).Comments == Step(d, ops[0]).Comments + NotesOf(ops[1..])
    requires ApplyAll(Step(d, ops[0]), ops[1..]).Formats == Step(d, ops[0]).Formats + MarksOfAll(ops[1..])
    ensures ApplyAll(d, ops).Comments == d.Comments + NotesOf(ops)
    ensures ApplyAll(d, ops).Formats == d.Formats + MarksOfAll(ops)
  {
    var c := ops[0];
    var d' := Step(d, c);
    assert ApplyAll(d, ops) == ApplyAll(d', ops[1..]);
    StepSideLists(d, c);
    var note := if HasSelection(c) then NoteOf(c) else [];
    var marks := if HasSelection(c) then MarksOf(c) else [];
    assert NotesOf(ops) == note + NotesOf(ops[1..]);
    assert MarksOfAll(ops) == marks + MarksOfAll(ops[1..]);
    AppendAssoc(d.Comments, note, NotesOf(ops[1..]));
    AppendAssoc(d.Formats, marks, MarksOfAll(ops[1..]));
  }

  /**
   * When separated changes all fit the original text, every one of them passes the
   * range guard on its turn: the merged document holds every comment they add and
   * every font setting they make, in application order and in original coordinates.
   */
  lemma {:induction false} ApplyAllSideLists(d: Doc, ops: seq<WordChange>)
    requires Separated(ops)
    requires forall k :: 0 <= k < |ops| ==> InBounds(ops[k], |d.Text|)
    ensures ApplyAll(d, ops).Comments == d.Comments + NotesOf(ops)
    ensures ApplyAll(d, ops).Formats == d.Formats + MarksOfAll(ops)
    decreases |ops|
  {
    if ops != [] {
      SeparatedTail(ops);
      FitsAfterStep(d, ops);
      ApplyAllSideLists(Step(d, ops[0]), ops[1..]);
      SideListsCons(d, ops);
    }
  }
}
