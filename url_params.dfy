/**
 * The part of `URLSearchParams` the pages use: build the list of name/value
 * pairs from a string and `get` the first value for a name. Percent-decoding
 * and the `+`-to-space rule are not modelled.
 */
module UrlParams {
  import opened Wrappers
  import opened Strings

  type Pair = (string, string)

  /** The constructor drops one leading `?` from its string argument. */
  function StripQuestion(q: string): (r: string)
    ensures q == r || q == ['?'] + r
    ensures |q| > 0 && q[0] == '?' ==> r == q[1..]
    ensures (q == "" || q[0] != '?') ==> r == q
  {
    if |q| > 0 && q[0] == '?' then q[1..] else q
  }

  /** One `name=value` piece: split at its first `=`; without one the value is empty. */
  function ParsePair(piece: string): (p: Pair)
    ensures '=' !in p.0
    ensures '=' in piece ==> piece == p.0 + "=" + p.1
    ensures '=' !in piece ==> p == (piece, "")
  {
    if '=' in piece then
      var i := FirstIndex(piece, '=');
      assert piece == piece[..i] + "=" + piece[i + 1..];
      (piece[..i], piece[i + 1..])
    else (piece, "")
  }

  /** The pairs of the `&`-separated pieces, empty pieces skipped. */
  function PairsOf(pieces: seq<string>): (ps: seq<Pair>)
    ensures |ps| <= |pieces|
    ensures (forall k :: 0 <= k < |pieces| ==> pieces[k] != "") ==> |ps| == |pieces|
    ensures forall k :: 0 <= k < |ps| ==> '=' !in ps[k].0
  {
    if pieces == [] then []
    else (if pieces[0] == "" then [] else [ParsePair(pieces[0])]) + PairsOf(pieces[1..])
  }

  /** The pairs of consecutive runs of pieces are the pairs of each run, in order. */
  lemma {:induction false} PairsOfAppend(a: seq<string>, b: seq<string>)
    ensures PairsOf(a + b) == PairsOf(a) + PairsOf(b)
  {
    if a != [] {
      assert (a + b)[1..] == a[1..] + b;
      PairsOfAppend(a[1..], b);
    } else {
      assert a + b == b;
    }
  }

  /** An empty piece yields no pair; any other piece yields exactly its own pair. */
  lemma PairsOfSingle(piece: string)
    ensures PairsOf([piece]) == if piece == "" then [] else [ParsePair(piece)]
  {
    assert [piece][1..] == [];
  }

  /** `new URLSearchParams(q)` as its list of pairs. */
  function Parse(q: string): (ps: seq<Pair>)
    ensures forall k :: 0 <= k < |ps| ==> '=' !in ps[k].0
    ensures StripQuestion(q) == "" ==> ps == []
    ensures StripQuestion(q) != "" && '&' !in StripQuestion(q) ==> ps == [ParsePair(StripQuestion(q))]
  {
    PairsOf(Split(StripQuestion(q), '&'))
  }

  /** The value of the first pair named `name`, or None. */
  function Lookup(pairs: seq<Pair>, name: string): (r: Option<string>)
    ensures r.None? <==> forall k :: 0 <= k < |pairs| ==> pairs[k].0 != name
    ensures r.Some? ==> exists k :: 0 <= k < |pairs| && pairs[k] == (name, r.value) &&
                                    (forall j :: 0 <= j < k ==> pairs[j].0 != name)
  {
    if pairs == [] then None
    else if pairs[0].0 == name then
      assert pairs[0] == (name, pairs[0].1);
      Some(pairs[0].1)
    else
      var r := Lookup(pairs[1..], name);
      assert forall k :: 1 <= k < |pairs| ==> pairs[k] == pairs[1..][k - 1];
      if r.Some? then
        var k :| 0 <= k < |pairs[1..]| && pairs[1..][k] == (name, r.value) &&
                 (forall j :: 0 <= j < k ==> pairs[1..][j].0 != name);
        assert pairs[k + 1] == (name, r.value);
        r
      else r
  }

  /** `new URLSearchParams(q).get(name)`, with None for `null`. */
  function Get(q: string, name: string): (r: Option<string>)
    ensures '=' in name ==> r.None?
    ensures r.None? <==> forall k :: 0 <= k < |Parse(q)| ==> Parse(q)[k].0 != name
    ensures r.Some? ==> exists k :: 0 <= k < |Parse(q)| && Parse(q)[k] == (name, r.value) &&
                                    forall j :: 0 <= j < k ==> Parse(q)[j].0 != name
  {
    Lookup(Parse(q), name)
  }

  /** The `name=value` pieces of a list of pairs. */
  function Pieces(pairs: seq<Pair>): (ps: seq<string>)
    ensures |ps| == |pairs|
    ensures forall k :: 0 <= k < |pairs| ==> ps[k] == pairs[k].0 + "=" + pairs[k].1
  {
    if pairs == [] then [] else [pairs[0].0 + "=" + pairs[0].1] + Pieces(pairs[1..])
  }

  /** A query string `n1=v1&n2=v2&...`. */
  function Serialize(pairs: seq<Pair>): string {
    Join(Pieces(pairs), '&')
  }

  /** Pairs that survive serializing: no `&` anywhere, no `=` in a name, and no leading `?`. */
  predicate Serializable(pairs: seq<Pair>) {
    && (forall k :: 0 <= k < |pairs| ==> '&' !in pairs[k].0 && '=' !in pairs[k].0 && '&' !in pairs[k].1)
    && (|pairs| > 0 && |pairs[0].0| > 0 ==> pairs[0].0[0] != '?')
  }

  lemma {:induction false} PairsOfPieces(pairs: seq<Pair>)
    requires forall k :: 0 <= k < |pairs| ==> '=' !in pairs[k].0
    ensures PairsOf(Pieces(pairs)) == pairs
  {
    if pairs != [] {
      var p := pairs[0];
      var piece := p.0 + "=" + p.1;
      assert piece == p.0 + ['='] + p.1;
      FirstIndexAfter(p.0, '=', p.1);
      assert piece[..|p.0|] == p.0;
      assert piece[|p.0| + 1..] == p.1;
      assert Pieces(pairs)[1..] == Pieces(pairs[1..]);
      PairsOfPieces(pairs[1..]);
    }
  }

  /** Parsing a serialized list of pairs gives the list back. */
  lemma ParseSerialize(pairs: seq<Pair>)
    requires Serializable(pairs)
    ensures Parse(Serialize(pairs)) == pairs
  {
    var q := Serialize(pairs);
    if pairs == [] {
      assert Split(q, '&') == [""];
    } else {
      var ps := Pieces(pairs);
      assert q[0] == ps[0][0] by {
        assert |ps| >= 1;
        if |ps| > 1 { assert q == ps[0] + ['&'] + Join(ps[1..], '&'); }
      }
      assert StripQuestion(q) == q;
      forall k | 0 <= k < |ps| ensures '&' !in ps[k] {
        assert ps[k] == pairs[k].0 + "=" + pairs[k].1;
      }
      SplitJoin(ps, '&');
      PairsOfPieces(pairs);
    }
  }

  /** Hence `get` on a serialized query finds the first value stored under the name. */
  lemma GetSerialized(pairs: seq<Pair>, name: string)
    requires Serializable(pairs)
    ensures Get(Serialize(pairs), name) == Lookup(pairs, name)
  {
    ParseSerialize(pairs);
  }
}
