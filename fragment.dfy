/**
 * Reading the `response_code` that the wallet appends to the address as a
 * fragment: `new URLSearchParams(asPath.split('#')[1]).get('response_code')`
 * (pages/index.js and pages/mdl_result.js do the same).
 */
module Fragment {
  import opened Wrappers
  import opened Strings
  import UrlParams

  const CodeParam := "response_code"

  /** `asPath.split('#')[1]`: the fragment text, Undefined (None) without a `#`. */
  function Hash(asPath: string): Option<string> {
    SplitAt(asPath, '#', 1)
  }

  /** The `response_code` parameter of the fragment; `URLSearchParams(undefined)` is empty. */
  function ResponseCode(asPath: string): (r: Option<string>)
    ensures Hash(asPath).None? ==> r.None?
  {
    match Hash(asPath)
    case None => None
    case Some(h) => UrlParams.Get(h, CodeParam)
  }

  /** The code the page sends to the backend: only a truthy (non-empty) one. */
  function ExchangeCode(asPath: string): (r: Option<string>)
    ensures r.Some? ==> r.value != "" && ResponseCode(asPath) == r
    ensures r.None? <==> ResponseCode(asPath).None? || ResponseCode(asPath) == Some("")
  {
    match ResponseCode(asPath)
    case Some(code) => if code != "" then Some(code) else None
    case None => None
  }

  /** An address without `#` carries no code, so nothing is exchanged. */
  lemma NoHashNoExchange(asPath: string)
    requires '#' !in asPath
    ensures ResponseCode(asPath).None? && ExchangeCode(asPath).None?
  {
  }

  /**
   * Only the text between the first `#` and the next `#` (or the end) is
   * parsed: whatever follows a second `#` is ignored.
   */
  lemma OnlyFirstFragmentParsed(before: string, fragment: string, rest: string)
    requires '#' !in before && '#' !in fragment
    requires rest == "" || rest[0] == '#'
    ensures ResponseCode(before + "#" + fragment + rest) == UrlParams.Get(fragment, CodeParam)
  {
    SecondPiece(before, fragment, rest, '#');
  }

  /** A fragment built from well-formed pairs yields the first `response_code` among them. */
  lemma CodeOfSerializedFragment(before: string, pairs: seq<UrlParams.Pair>)
    requires '#' !in before
    requires UrlParams.Serializable(pairs)
    requires forall k :: 0 <= k < |pairs| ==> '#' !in pairs[k].0 && '#' !in pairs[k].1
    ensures ResponseCode(before + "#" + UrlParams.Serialize(pairs)) == UrlParams.Lookup(pairs, CodeParam)
  {
    var f := UrlParams.Serialize(pairs);
    NoHashInSerialized(pairs);
    OnlyFirstFragmentParsed(before, f, "");
    assert before + "#" + f + "" == before + "#" + f;
    UrlParams.GetSerialized(pairs, CodeParam);
  }

  /** Pairs free of `#` serialize to a query string free of `#`. */
  lemma NoHashInSerialized(pairs: seq<UrlParams.Pair>)
    requires forall k :: 0 <= k < |pairs| ==> '#' !in pairs[k].0 && '#' !in pairs[k].1
    ensures '#' !in UrlParams.Serialize(pairs)
  {
    var ps := UrlParams.Pieces(pairs);
    forall k | 0 <= k < |ps| ensures '#' !in ps[k] {
      assert ps[k] == pairs[k].0 + "=" + pairs[k].1;
    }
    JoinKeepsOut(ps, '&', '#');
  }

  /** A character absent from every piece and different from the separator is absent from the join. */
  lemma {:induction false} JoinKeepsOut(pieces: seq<string>, sep: char, c: char)
    requires c != sep
    requires forall k :: 0 <= k < |pieces| ==> c !in pieces[k]
    ensures c !in Join(pieces, sep)
  {
    if |pieces| > 1 {
      JoinKeepsOut(pieces[1..], sep, c);
    }
  }

  /** The address a wallet returns to, `https://x/#response_code=abc123`. */
  const ExampleReturn := "https://x/" + "#" + (CodeParam + "=" + "abc123")

  /** An address whose code is empty, `https://x/#response_code=`. */
  const ExampleEmpty := "https://x/" + "#" + (CodeParam + "=" + "")

  /** The example return address carries the code `abc123`, which is exchanged. */
  lemma ExampleReturnAddress()
    ensures ExchangeCode(ExampleReturn) == Some("abc123")
  {
    var pairs := [(CodeParam, "abc123")];
    assert UrlParams.Pieces(pairs) == [CodeParam + "=" + "abc123"];
    assert UrlParams.Serialize(pairs) == CodeParam + "=" + "abc123";
    CodeOfSerializedFragment("https://x/", pairs);
    assert ExampleReturn == "https://x/" + "#" + UrlParams.Serialize(pairs);
  }

  /** An empty code (`#response_code=`) is found but not exchanged. */
  lemma ExampleEmptyCode()
    ensures ResponseCode(ExampleEmpty) == Some("")
    ensures ExchangeCode(ExampleEmpty).None?
  {
    var pairs := [(CodeParam, "")];
    assert UrlParams.Pieces(pairs) == [CodeParam + "=" + ""];
    assert UrlParams.Serialize(pairs) == CodeParam + "=" + "";
    CodeOfSerializedFragment("https://x/", pairs);
    assert ExampleEmpty == "https://x/" + "#" + UrlParams.Serialize(pairs);
  }
}
