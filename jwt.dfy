/**
 * `parseJwt` of pages/index.js: take the payload segment of a JWS compact
 * serialization (RFC 7515 section 7.1, the form RFC 7519 section 3 uses for
 * a JWT), undo the base64url alphabet of RFC 4648 section 5, and hand the
 * text to `JSON.parse(window.atob(...))`. Base64 and JSON decoding are not
 * modelled: `decode` stands for them, with None where they throw.
 */
module Jwt {
  import opened Wrappers
  import opened Js
  import opened Strings

  /** `token.split('.')[1]`: the payload segment, Undefined (None) without a `.`. */
  function PayloadSegment(token: string): Option<string> {
    SplitAt(token, '.', 1)
  }

  /** The payload segment is the text between the first `.` and the next `.` (or the end). */
  lemma PayloadIsSecondSegment(header: string, payload: string, rest: string)
    requires '.' !in header && '.' !in payload
    requires rest == "" || rest[0] == '.'
    ensures PayloadSegment(header + "." + payload + rest) == Some(payload)
  {
    SecondPiece(header, payload, rest, '.');
  }

  /** A character `c` that `s` holds at most once. */
  predicate AtMostOnce(s: string, c: char) {
    forall i, j :: 0 <= i < j < |s| && s[i] == c ==> s[j] != c
  }

  /** Position `k` holds the first `c` of `s`. */
  lemma FirstIndexIs(s: string, c: char, k: nat)
    requires k < |s| && s[k] == c && c !in s[..k]
    ensures FirstIndex(s, c) == k
  {
  }

  /** Overwriting a position that holds neither `c` nor becomes `c` keeps the first `c` where it was. */
  lemma FirstIndexAfterUpdate(s: string, c: char, k: nat, x: char)
    requires k < |s| && s[k] != c && x != c
    ensures c in s[k := x] <==> c in s
    ensures c in s ==> FirstIndex(s[k := x], c) == FirstIndex(s, c)
  {
    var t := s[k := x];
    if c in s {
      var i := FirstIndex(s, c);
      assert t[i] == c;
      forall j | 0 <= j < i ensures t[j] != c {
        assert s[..i][j] == s[j];
      }
      assert c !in t[..i];
      FirstIndexIs(t, c, i);
    }
  }

  /**
   * `base64Url.replace('-', '+').replace('_', '/')`: only the FIRST `-` and
   * the FIRST `_` are mapped back to the standard alphabet; the length and
   * every other character are kept.
   */
  function UndoUrlAlphabet(segment: string): (r: string)
    ensures |r| == |segment|
    ensures forall j :: 0 <= j < |segment| ==>
      r[j] == if '-' in segment && j == FirstIndex(segment, '-') then '+'
              else if '_' in segment && j == FirstIndex(segment, '_') then '/'
              else segment[j]
  {
    ReplaceTwice(segment);
    ReplaceFirst(ReplaceFirst(segment, "-", "+"), "_", "/")
  }

  /** The two replacements act on distinct positions: the first `-`, then the first `_`. */
  lemma ReplaceTwice(segment: string)
    ensures var r := ReplaceFirst(ReplaceFirst(segment, "-", "+"), "_", "/");
      |r| == |segment| &&
      forall j :: 0 <= j < |segment| ==>
        r[j] == if '-' in segment && j == FirstIndex(segment, '-') then '+'
                else if '_' in segment && j == FirstIndex(segment, '_') then '/'
                else segment[j]
  {
    var mid := ReplaceFirst(segment, "-", "+");
    ReplaceFirstChar(segment, '-', '+');
    if '-' in segment {
      FirstIndexAfterUpdate(segment, '_', FirstIndex(segment, '-'), '+');
    }
    ReplaceFirstChar(mid, '_', '/');
  }

  /** The standard-alphabet character for a base64url one (RFC 4648 section 5). */
  function StdChar(c: char): char {
    if c == '-' then '+' else if c == '_' then '/' else c
  }

  /** The base64url character for a standard-alphabet one. */
  function UrlChar(c: char): char {
    if c == '+' then '-' else if c == '/' then '_' else c
  }

  /** The complete base64url-to-base64 mapping, every character converted. */
  function UrlToStd(s: string): (r: string)
    ensures |r| == |s| && forall i :: 0 <= i < |s| ==> r[i] == StdChar(s[i])
  {
    seq(|s|, i requires 0 <= i < |s| => StdChar(s[i]))
  }

  /** Base64 text as a JWT carries it, in the URL-safe alphabet. */
  function StdToUrl(s: string): (r: string)
    ensures |r| == |s| && forall i :: 0 <= i < |s| ==> r[i] == UrlChar(s[i])
  {
    seq(|s|, i requires 0 <= i < |s| => UrlChar(s[i]))
  }

  /** With at most one `-` and one `_`, the first-occurrence replacement converts the whole segment. */
  lemma UndoCompleteWhenOnce(segment: string)
    requires AtMostOnce(segment, '-') && AtMostOnce(segment, '_')
    ensures UndoUrlAlphabet(segment) == UrlToStd(segment)
  {
    var r, full := UndoUrlAlphabet(segment), UrlToStd(segment);
    forall j | 0 <= j < |segment| ensures r[j] == full[j] {
      if segment[j] == '-' {
        assert '-' !in segment[..j] by {
          forall i | 0 <= i < j ensures segment[..j][i] != '-' {
            assert segment[..j][i] == segment[i];
          }
        }
        FirstIndexIs(segment, '-', j);
      } else if segment[j] == '_' {
        assert '_' !in segment[..j] by {
          forall i | 0 <= i < j ensures segment[..j][i] != '_' {
            assert segment[..j][i] == segment[i];
          }
        }
        FirstIndexIs(segment, '_', j);
      }
    }
  }

  /** A second occurrence of `c` lies after the first one. */
  lemma LaterOccurrence(s: string, c: char, i: nat, j: nat)
    requires i < j < |s| && s[i] == c && s[j] == c
    ensures c in s && FirstIndex(s, c) < j
  {
    assert s[i] in s;
  }

  /**
   * The page's first-occurrence replacement agrees with the complete mapping
   * exactly when the segment holds at most one `-` and at most one `_`.
   */
  lemma UndoIsCompleteIff(segment: string)
    ensures UndoUrlAlphabet(segment) == UrlToStd(segment) <==>
            AtMostOnce(segment, '-') && AtMostOnce(segment, '_')
  {
    var r, full := UndoUrlAlphabet(segment), UrlToStd(segment);
    if AtMostOnce(segment, '-') && AtMostOnce(segment, '_') {
      UndoCompleteWhenOnce(segment);
    } else if !AtMostOnce(segment, '-') {
      var i, j :| 0 <= i < j < |segment| && segment[i] == '-' && segment[j] == '-';
      LaterOccurrence(segment, '-', i, j);
      assert r[j] == '-' && full[j] == '+';
    } else {
      var i, j :| 0 <= i < j < |segment| && segment[i] == '_' && segment[j] == '_';
      LaterOccurrence(segment, '_', i, j);
      assert r[j] == '_' && full[j] == '/';
    }
  }

  /**
   * `parseJwt(token)`: Undefined for a falsy token; a TypeError (None) for a
   * truthy non-string or a string without `.`; otherwise what `decode` makes
   * of the payload segment after the first-occurrence alphabet replacement.
   */
  function ParseJwt(token: Value, decode: string -> Option<Value>): (r: Option<Value>)
    ensures !Truthy(token) ==> r == Some(Undefined)
    ensures Truthy(token) && !token.Str? ==> r.None?
    ensures token.Str? && token.s != "" && '.' !in token.s ==> r.None?
    ensures token.Str? && '.' in token.s ==>
      r == decode(UndoUrlAlphabet(UpTo(token.s[FirstIndex(token.s, '.') + 1..], '.')))
  {
    if !Truthy(token) then Some(Undefined)
    else match token
      case Str(s) =>
        SplitAtOne(s, '.');
        if '.' !in s then None
        else
          var segment := UpTo(s[FirstIndex(s, '.') + 1..], '.');
          assert PayloadSegment(s) == Some(segment);
          decode(UndoUrlAlphabet(segment))
      case _ => None
  }

  /**
   * Base64 text free of `.`, `-` and `_`, with at most one `+` and one `/`,
   * written in the URL-safe alphabet: no `.` appears, and the page's
   * replacement restores the text.
   */
  lemma UrlSafePayload(text: string)
    requires forall i :: 0 <= i < |text| ==> text[i] != '.' && text[i] != '-' && text[i] != '_'
    requires AtMostOnce(text, '+') && AtMostOnce(text, '/')
    ensures '.' !in StdToUrl(text)
    ensures UndoUrlAlphabet(StdToUrl(text)) == text
  {
    var payload := StdToUrl(text);
    assert '.' !in payload by {
      forall i | 0 <= i < |payload| ensures payload[i] != '.' {
        assert payload[i] == UrlChar(text[i]);
      }
    }
    assert AtMostOnce(payload, '-') && AtMostOnce(payload, '_') by {
      forall i, j | 0 <= i < j < |payload| && payload[i] == '-' ensures payload[j] != '-' {
        assert text[i] == '+';
      }
      forall i, j | 0 <= i < j < |payload| && payload[i] == '_' ensures payload[j] != '_' {
        assert text[i] == '/';
      }
    }
    UndoCompleteWhenOnce(payload);
    assert UrlToStd(payload) == text;
  }

  /**
   * Round trip: a token `header.payload.signature` whose payload is standard
   * base64 text written in the URL-safe alphabet parses to whatever `decode`
   * makes of that text, provided the text holds at most one `+` and one `/`.
   */
  lemma ParseJwtRoundTrip(header: string, text: string, signature: string,
                          claims: Value, decode: string -> Option<Value>)
    requires '.' !in header
    requires forall i :: 0 <= i < |text| ==> text[i] != '.' && text[i] != '-' && text[i] != '_'
    requires AtMostOnce(text, '+') && AtMostOnce(text, '/')
    requires decode(text) == Some(claims)
    ensures ParseJwt(Str(header + "." + StdToUrl(text) + "." + signature), decode) == Some(claims)
  {
    UrlSafePayload(text);
    ParseToken(header, StdToUrl(text), signature, text, decode);
  }

  /** A token `header.payload.signature` whose payload the replacement turns into `text` parses to `decode(text)`. */
  lemma ParseToken(header: string, payload: string, signature: string, text: string,
                   decode: string -> Option<Value>)
    requires '.' !in header && '.' !in payload
    requires UndoUrlAlphabet(payload) == text
    ensures ParseJwt(Str(header + "." + payload + "." + signature), decode) == decode(text)
  {
    DottedPayload(header, payload, signature);
    ParseDotted(header + "." + payload + "." + signature, payload, decode);
  }

  /** A token holding a `.` parses to what `decode` makes of its second segment after the replacement. */
  lemma ParseDotted(token: string, payload: string, decode: string -> Option<Value>)
    requires '.' in token && UpTo(token[FirstIndex(token, '.') + 1..], '.') == payload
    ensures ParseJwt(Str(token), decode) == decode(UndoUrlAlphabet(payload))
  {
    SegmentParsed(token, decode);
  }

  /** ParseJwt's last postcondition, for a string token. */
  lemma SegmentParsed(token: string, decode: string -> Option<Value>)
    requires '.' in token
    ensures ParseJwt(Str(token), decode) == decode(UndoUrlAlphabet(UpTo(token[FirstIndex(token, '.') + 1..], '.')))
  {
  }

  /** In `header.payload.signature` the payload is what follows the first `.`, up to the next one. */
  lemma DottedPayload(header: string, payload: string, signature: string)
    requires '.' !in header && '.' !in payload
    ensures var token := header + "." + payload + "." + signature;
      '.' in token && UpTo(token[FirstIndex(token, '.') + 1..], '.') == payload
  {
    var token := header + "." + payload + "." + signature;
    assert token == header + "." + payload + ("." + signature);
    PayloadIsSecondSegment(header, payload, "." + signature);
    SplitAtOne(token, '.');
  }

  /**
   * The round trip fails once the text holds two `+`: the second one reaches
   * the decoder still in its URL-safe form `-`, outside the base64 alphabet.
   */
  lemma SecondDashNotMapped()
    ensures UndoUrlAlphabet(StdToUrl("++")) == "+-"
  {
    var s := StdToUrl("++");
    assert s == "--";
    FirstIndexIs(s, '-', 0);
  }
}
