/**
 * The JavaScript string operations the pages use: `split` on a one-character
 * separator, indexing the resulting array, and `replace` with a string
 * pattern (which replaces the first occurrence only).
 */
module Strings {
  import opened Wrappers

  /** Position of the first `c` in `s` (`s.indexOf(c)` when it is not -1). */
  function FirstIndex(s: string, c: char): (i: nat)
    requires c in s
    ensures i < |s| && s[i] == c
    ensures c !in s[..i]
  {
    if s[0] == c then 0
    else
      assert s == [s[0]] + s[1..];
      var j := FirstIndex(s[1..], c);
      assert s[..j + 1] == [s[0]] + s[1..][..j];
      j + 1
  }

  /** The text of `t` up to its first `sep`, or all of `t` when there is none. */
  function UpTo(t: string, sep: char): (r: string)
    ensures sep !in r
    ensures r <= t
    ensures sep in t ==> |r| < |t| && t[|r|] == sep
  {
    if sep in t then t[..FirstIndex(t, sep)] else t
  }

  /** `s.split(sep)` for a one-character separator. */
  function Split(s: string, sep: char): (pieces: seq<string>)
    ensures |pieces| >= 1
    ensures forall k :: 0 <= k < |pieces| ==> sep !in pieces[k]
    ensures pieces[0] == UpTo(s, sep)
    ensures |pieces| >= 2 <==> sep in s
    decreases |s|
  {
    if sep !in s then [s]
    else
      var i := FirstIndex(s, sep);
      [s[..i]] + Split(s[i + 1..], sep)
  }

  /** `s.split(sep)[k]`: Undefined (None) when the array is too short. */
  function SplitAt(s: string, sep: char, k: nat): Option<string> {
    var pieces := Split(s, sep);
    if k < |pieces| then Some(pieces[k]) else None
  }

  /** `pieces.join(sep)`. */
  function Join(pieces: seq<string>, sep: char): string {
    if pieces == [] then ""
    else if |pieces| == 1 then pieces[0]
    else pieces[0] + [sep] + Join(pieces[1..], sep)
  }

  /** In `a + [sep] + t` with no `sep` in `a`, the first `sep` is the one after `a`. */
  lemma FirstIndexAfter(a: string, sep: char, t: string)
    requires sep !in a
    ensures sep in a + [sep] + t
    ensures FirstIndex(a + [sep] + t, sep) == |a|
  {
    var s := a + [sep] + t;
    assert s[|a|] == sep;
    assert s[..|a|] == a;
  }

  /** Joining the pieces of a split gives back the original string. */
  lemma {:induction false} JoinSplit(s: string, sep: char)
    ensures Join(Split(s, sep), sep) == s
    decreases |s|
  {
    if sep in s {
      var i := FirstIndex(s, sep);
      JoinSplit(s[i + 1..], sep);
      assert s == s[..i] + [sep] + s[i + 1..];
    }
  }

  /** A string that starts with a separator-free `a` and a separator splits into `a` and the split of the rest. */
  lemma SplitCons(a: string, sep: char, t: string)
    requires sep !in a
    ensures Split(a + [sep] + t, sep) == [a] + Split(t, sep)
  {
    var s := a + [sep] + t;
    FirstIndexAfter(a, sep, t);
    assert s[..|a|] == a;
    assert s[|a| + 1..] == t;
  }

  /** Splitting a join of separator-free pieces gives back the pieces. */
  lemma {:induction false} SplitJoin(pieces: seq<string>, sep: char)
    requires |pieces| >= 1
    requires forall k :: 0 <= k < |pieces| ==> sep !in pieces[k]
    ensures Split(Join(pieces, sep), sep) == pieces
  {
    if |pieces| > 1 {
      var tail := pieces[1..];
      SplitJoin(tail, sep);
      SplitCons(pieces[0], sep, Join(tail, sep));
      assert pieces == [pieces[0]] + tail;
    } else {
      assert sep !in pieces[0];
    }
  }

  /** `s.split(sep)[1]`: the text after the first separator up to the next one, Undefined without a separator. */
  lemma SplitAtOne(s: string, sep: char)
    ensures SplitAt(s, sep, 1) == if sep in s then Some(UpTo(s[FirstIndex(s, sep) + 1..], sep)) else None
    ensures SplitAt(s, sep, 1).None? <==> sep !in s
    ensures SplitAt(s, sep, 1).Some? ==> sep !in SplitAt(s, sep, 1).value
  {
  }

  /**
   * The second piece of a split is the text between the first separator and
   * the next one (or the end): in `a + [sep] + b + rest` with no separator in
   * `a` or `b`, and `rest` empty or starting with the separator, it is `b`.
   */
  lemma SecondPiece(a: string, b: string, rest: string, sep: char)
    requires sep !in a && sep !in b
    requires rest == [] || rest[0] == sep
    ensures SplitAt(a + [sep] + b + rest, sep, 1) == Some(b)
  {
    var s := a + [sep] + b + rest;
    FirstIndexAfter(a, sep, b + rest);
    assert s == a + [sep] + (b + rest);
    assert s[|a| + 1..] == b + rest;
    if rest != [] {
      FirstIndexAfter(b, sep, rest[1..]);
      assert b + rest == b + [sep] + rest[1..];
      assert UpTo(b + rest, sep) == b;
    } else {
      assert b + rest == b;
    }
  }

  /** `pat` occurs in `s` starting at position `i`. */
  predicate OccursAt(s: string, pat: string, i: nat) {
    i + |pat| <= |s| && s[i..i + |pat|] == pat
  }

  /** `pat` occurs at `i` and nowhere before it. */
  predicate FirstOccurrence(s: string, pat: string, i: nat) {
    OccursAt(s, pat, i) && forall j: nat :: j < i ==> !OccursAt(s, pat, j)
  }

  /** The first position at or after `from` where `pat` occurs in `s`. */
  function FindFrom(s: string, pat: string, from: nat): (r: Option<nat>)
    ensures r.Some? ==> from <= r.value && OccursAt(s, pat, r.value)
    ensures r.Some? ==> forall j: nat :: from <= j < r.value ==> !OccursAt(s, pat, j)
    ensures r.None? ==> forall j: nat :: from <= j ==> !OccursAt(s, pat, j)
    decreases |s| + 1 - from
  {
    if from + |pat| > |s| then None
    else if OccursAt(s, pat, from) then Some(from)
    else FindFrom(s, pat, from + 1)
  }

  /** `s.indexOf(pat)`, with None for -1. */
  function Find(s: string, pat: string): Option<nat> {
    FindFrom(s, pat, 0)
  }

  /**
   * `s.replace(pat, rep)` with a string pattern: only the first occurrence of
   * `pat` is replaced, and `s` is returned unchanged when there is none.
   * (JavaScript's `$` patterns in `rep` are not modelled; no replacement text
   * used by the pages contains `$`.)
   */
  function ReplaceFirst(s: string, pat: string, rep: string): (r: string)
    ensures (forall j: nat :: !OccursAt(s, pat, j)) ==> r == s
    ensures forall i: nat :: FirstOccurrence(s, pat, i) ==> r == s[..i] + rep + s[i + |pat|..]
  {
    match Find(s, pat)
    case None => s
    case Some(i) =>
      assert forall k: nat :: FirstOccurrence(s, pat, k) ==> k == i;
      s[..i] + rep + s[i + |pat|..]
  }

  /** A pattern at the very start of `s` is the one replaced. */
  lemma ReplaceAtStart(pat: string, rest: string, rep: string)
    ensures ReplaceFirst(pat + rest, pat, rep) == rep + rest
  {
    var s := pat + rest;
    assert OccursAt(s, pat, 0);
    assert FirstOccurrence(s, pat, 0);
    assert s[..0] == [];
    assert s[|pat|..] == rest;
  }

  /** A one-character pattern occurs exactly where that character stands. */
  lemma OccursChar(s: string, a: char, j: nat)
    ensures OccursAt(s, [a], j) <==> j < |s| && s[j] == a
  {
    if j < |s| {
      assert s[j..j + 1] == [s[j]];
    }
  }

  /** `s.indexOf(a)` for a one-character pattern is the first index of `a`. */
  lemma FindChar(s: string, a: char)
    ensures Find(s, [a]) == if a in s then Some(FirstIndex(s, a)) else None
  {
    var r := Find(s, [a]);
    if a in s {
      var i := FirstIndex(s, a);
      OccursChar(s, a, i);
      assert r.Some?;
      OccursChar(s, a, r.value);
      assert r.value >= i by {
        assert forall k :: 0 <= k < i ==> s[..i][k] == s[k];
      }
    } else if r.Some? {
      OccursChar(s, a, r.value);
    }
  }

  /**
   * Replacing the first occurrence of one character by another keeps the
   * length and changes exactly the position of the first occurrence.
   */
  lemma ReplaceFirstChar(s: string, a: char, b: char)
    ensures |ReplaceFirst(s, [a], [b])| == |s|
    ensures a !in s ==> ReplaceFirst(s, [a], [b]) == s
    ensures a in s ==> ReplaceFirst(s, [a], [b]) == s[FirstIndex(s, a) := b]
  {
    FindChar(s, a);
    if a in s {
      UpdateAsSlices(s, FirstIndex(s, a), b);
    }
  }

  /** Overwriting position `i` is cutting the sequence there and putting `b` in between. */
  lemma UpdateAsSlices(s: string, i: nat, b: char)
    requires i < |s|
    ensures s[..i] + [b] + s[i + 1..] == s[i := b]
  {
    var r := s[..i] + [b] + s[i + 1..];
    forall j | 0 <= j < |s| ensures r[j] == s[i := b][j] {
      if j < i {
        assert r[j] == s[..i][j];
      } else if j > i {
        assert r[j] == s[i + 1..][j - i - 1];
      }
    }
  }
}
