/**
 * The few .NET string operations the core relies on: `ToLower`, the ordinal
 * `Contains`, `string.IsNullOrEmpty` and the single-character `Replace` calls.
 */
module Strings {
  import opened Nullable

  /** `string.IsNullOrEmpty`. */
  predicate IsNullOrEmpty(s: Option<string>) {
    s.None? || s.value == ""
  }

  /** Lower-casing of one character; only the ASCII letters are mapped. */
  function LowerChar(ch: char): (r: char)
    ensures 'A' <= ch <= 'Z' ==> 'a' <= r <= 'z'
    ensures !('A' <= ch <= 'Z') ==> r == ch
  {
    if 'A' <= ch <= 'Z' then (ch as int - 'A' as int + 'a' as int) as char else ch
  }

  /** `String.ToLower`, character by character. */
  function Lower(s: string): (r: string)
    ensures |r| == |s|
    ensures forall i :: 0 <= i < |s| ==> r[i] == LowerChar(s[i])
  {
    if s == [] then [] else [LowerChar(s[0])] + Lower(s[1..])
  }

  /** Lower-casing twice is lower-casing once. */
  lemma LowerIdempotent(s: string)
    ensures Lower(Lower(s)) == Lower(s)
  {
    assert forall i :: 0 <= i < |s| ==> Lower(Lower(s))[i] == Lower(s)[i];
  }

  /** The ordinal `String.Contains(string)`: `sub` occurs in `s` at the front or further on. */
  predicate Contains(s: string, sub: string)
    decreases |s|
  {
    |sub| <= |s| && (s[..|sub|] == sub || (|s| > 0 && Contains(s[1..], sub)))
  }

  /** `sub` occurs in `s` starting at offset `i`. */
  predicate OccursAt(s: string, sub: string, i: int) {
    0 <= i <= |s| - |sub| && s[i..i + |sub|] == sub
  }

  /** `Contains` holds exactly when `sub` occurs at some offset of `s`. */
  lemma {:induction false} ContainsAt(s: string, sub: string)
    ensures Contains(s, sub) <==> exists i :: OccursAt(s, sub, i)
  {
    if |sub| <= |s| && s[..|sub|] == sub {
      assert OccursAt(s, sub, 0);
    } else if |sub| <= |s| && |s| > 0 {
      ContainsAt(s[1..], sub);
      if Contains(s[1..], sub) {
        var i :| OccursAt(s[1..], sub, i);
        assert s[i + 1..i + 1 + |sub|] == s[1..][i..i + |sub|];
        assert OccursAt(s, sub, i + 1);
      } else if exists i :: OccursAt(s, sub, i) {
        var i :| OccursAt(s, sub, i);
        assert i != 0;
        assert s[1..][i - 1..i - 1 + |sub|] == s[i..i + |sub|];
        assert OccursAt(s[1..], sub, i - 1);
        assert false;
      }
    }
  }

  /** `s.Replace(from, "")`: every `from` character removed. */
  function RemoveAll(s: string, from: char): (r: string)
    ensures from !in r
    ensures |r| == |s| - multiset(s)[from]
    ensures from !in s ==> r == s
    ensures forall ch :: ch != from ==> multiset(r)[ch] == multiset(s)[ch]
  {
    if s == [] then []
    else
      assert s == [s[0]] + s[1..];
      (if s[0] == from then [] else [s[0]]) + RemoveAll(s[1..], from)
  }

  /** Removal works piece by piece, so the characters kept stay in their order. */
  lemma {:induction false} RemoveAllAppend(a: string, b: string, from: char)
    ensures RemoveAll(a + b, from) == RemoveAll(a, from) + RemoveAll(b, from)
  {
    if a == [] {
      assert a + b == b;
    } else {
      RemoveAllAppend(a[1..], b, from);
      var head := if a[0] == from then [] else [a[0]];
      TailOfAppend(a, b);
      assert RemoveAll(a + b, from) == head + RemoveAll(a[1..] + b, from);
      assert RemoveAll(a, from) == head + RemoveAll(a[1..], from);
      AppendAssoc(head, RemoveAll(a[1..], from), RemoveAll(b, from));
    }
  }

  /** Concatenation is associative; stated on its own so that proofs can call it with a small context. */
  lemma AppendAssoc<T>(a: seq<T>, b: seq<T>, c: seq<T>)
    ensures a + (b + c) == (a + b) + c
  {
  }

  /** The tail of a concatenation with a non-empty front. */
  lemma TailOfAppend<T>(a: seq<T>, b: seq<T>)
    requires a != []
    ensures (a + b)[0] == a[0] && (a + b)[1..] == a[1..] + b
  {
  }

  /** One character is dropped when it is `from` and kept otherwise. */
  lemma RemoveAllChar(ch: char, from: char)
    ensures RemoveAll([ch], from) == (if ch == from then [] else [ch])
  {
    assert [ch][1..] == [];
  }

  /** `s.Replace(from, to)` for one-character strings `from` and `to`. */
  function ReplaceAll(s: string, from: char, to: char): (r: string)
    ensures |r| == |s|
    ensures forall i :: 0 <= i < |s| ==> r[i] == (if s[i] == from then to else s[i])
    ensures from !in s ==> r == s
  {
    if s == [] then []
    else [if s[0] == from then to else s[0]] + ReplaceAll(s[1..], from, to)
  }

  /** A character that breaks a one-line label: carriage return, line feed or tab. */
  predicate IsBreak(ch: char) {
    ch == '\r' || ch == '\n' || ch == '\t'
  }

  /**
   * `text.Replace("\r", "").Replace("\n", " ").Replace("\t", " ")`: the text as one line.
   * No break character is left, nothing but carriage returns is dropped, and a text
   * without breaks comes back unchanged.
   */
  function SingleLine(s: string): (r: string)
    ensures forall i :: 0 <= i < |r| ==> !IsBreak(r[i])
    ensures |r| <= |s|
    ensures '\r' !in s ==> |r| == |s|
    ensures '\r' !in s ==> forall i :: 0 <= i < |s| ==> r[i] == (if s[i] == '\n' || s[i] == '\t' then ' ' else s[i])
    ensures (forall i :: 0 <= i < |s| ==> !IsBreak(s[i])) ==> r == s
  {
    ReplaceAll(ReplaceAll(RemoveAll(s, '\r'), '\n', ' '), '\t', ' ')
  }

  /**
   * Carriage returns are only dropped: the line of a text is the line of the text
   * without them, so with RemoveAllAppend every other character keeps its place.
   */
  lemma SingleLineDropsReturns(s: string)
    ensures SingleLine(s) == SingleLine(RemoveAll(s, '\r'))
    ensures |SingleLine(s)| == |s| - multiset(s)['\r']
  {
    var t := RemoveAll(s, '\r');
    assert RemoveAll(t, '\r') == t;
  }
}

/**
 * .NET strings as the sequences of UTF-16 code units they are stored as: `Length`,
 * `Substring` and the label text of the review form count code units, while a Dafny
 * `string` holds Unicode scalar values.
 */
module Utf16 {
  import opened Nullable
  import opened Strings

  /** One UTF-16 code unit. */
  type CodeUnit = u: int | 0 <= u < 0x1_0000

  /** The code units of one character: itself below U+10000, else a surrogate pair. */
  function EncodeChar(ch: char): (r: seq<CodeUnit>)
    ensures |r| == (if ch as int < 0x1_0000 then 1 else 2)
  {
    if ch as int < 0x1_0000 then [ch as int]
    else
      var v := ch as int - 0x1_0000;
      [0xD800 + v / 0x400, 0xDC00 + v % 0x400]
  }

  /** A string as the code units .NET stores it in. */
  function Encode(s: string): (r: seq<CodeUnit>)
    ensures |s| <= |r| <= 2 * |s|
  {
    if s == [] then [] else EncodeChar(s[0]) + Encode(s[1..])
  }

  /** Reading code units back as characters; `None` for an unpaired surrogate. */
  function Decode(u: seq<CodeUnit>): (r: Option<string>)
    decreases |u|
  {
    if u == [] then Some([])
    else if u[0] < 0xD800 || 0xE000 <= u[0] then
      var rest := Decode(u[1..]);
      if rest.None? then None else Some([u[0] as char] + rest.value)
    else if u[0] < 0xDC00 && |u| >= 2 && 0xDC00 <= u[1] < 0xE000 then
      var hi, lo, rest := u[0] as int, u[1] as int, Decode(u[2..]);
      if rest.None? then None
      else Some([(0x1_0000 + (hi - 0xD800) * 0x400 + (lo - 0xDC00)) as char] + rest.value)
    else None
  }

  /** Decoding undoes encoding: no two strings share their code units. */
  lemma {:induction false} DecodeEncode(s: string)
    ensures Decode(Encode(s)) == Some(s)
  {
    if s != [] {
      DecodeEncode(s[1..]);
      var head := EncodeChar(s[0]);
      var u := Encode(s);
      assert u == head + Encode(s[1..]);
      assert u[|head|..] == Encode(s[1..]);
      if |head| == 2 {
        var v := s[0] as int - 0x1_0000;
        assert v == (u[0] as int - 0xD800) * 0x400 + (u[1] as int - 0xDC00);
      }
      assert [s[0]] + s[1..] == s;
    }
  }

  /** The number of characters at or above U+10000, each stored as a surrogate pair. */
  function WideCount(s: string): (r: nat)
    ensures r <= |s|
  {
    if s == [] then 0 else (if s[0] as int >= 0x1_0000 then 1 else 0) + WideCount(s[1..])
  }

  /** A string takes one code unit per character plus one more per wide character. */
  lemma {:induction false} EncodeLength(s: string)
    ensures |Encode(s)| == |s| + WideCount(s)
  {
    if s != [] {
      EncodeLength(s[1..]);
    }
  }

  /** A string of characters all at or above U+10000 takes two code units each. */
  lemma {:induction false} EncodeWide(s: string)
    requires forall i :: 0 <= i < |s| ==> s[i] as int >= 0x1_0000
    ensures |Encode(s)| == 2 * |s|
  {
    if s != [] {
      EncodeWide(s[1..]);
    }
  }

  /** A carriage return, line feed or tab code unit. */
  predicate IsBreakUnit(u: CodeUnit) {
    u == '\r' as int || u == '\n' as int || u == '\t' as int
  }

  /** A string without break characters has no break code units. */
  lemma {:induction false} EncodeNoBreak(s: string)
    requires forall i :: 0 <= i < |s| ==> !IsBreak(s[i])
    ensures forall j :: 0 <= j < |Encode(s)| ==> !IsBreakUnit(Encode(s)[j])
  {
    if s != [] {
      EncodeNoBreak(s[1..]);
      var head := EncodeChar(s[0]);
      assert !IsBreak(s[0]);
      forall j | 0 <= j < |Encode(s)|
        ensures !IsBreakUnit(Encode(s)[j])
      {
        if j >= |head| {
          assert Encode(s)[j] == Encode(s[1..])[j - |head|];
        }
      }
    }
  }

  /** Below U+10000 every character is one code unit. */
  lemma {:induction false} EncodeNarrow(s: string)
    requires forall i :: 0 <= i < |s| ==> s[i] as int < 0x1_0000
    ensures |Encode(s)| == |s|
    ensures forall i :: 0 <= i < |s| ==> Encode(s)[i] == s[i] as int
  {
    if s != [] {
      EncodeNarrow(s[1..]);
    }
  }
}
