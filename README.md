# Credential-verification demo: the presentation flow in Dafny

This project models the client-side logic of a small Next.js demo that
verifies two digital credentials through a wallet. First it verifies a mobile
driving licence (mDL, ISO/IEC 18013-5). Then it verifies a verifiable
credential (VP).

- **`HomePage`** (pages/index.js) models the main page as a class `Home`.
  Its fields are `status`, `url`, `presentationMDL`, `presentationVP` and the
  router address. There is one method per event:
  - the mount effect that reads `#response_code=...`;
  - the completion of the licence exchange;
  - the "Start MDL" and "Reset" buttons;
  - the answers to the two start requests;
  - the completion of a poll.

  Pressing "Start VC" changes no state until its request is answered, so
  that answer is the step.

  The render guards become the `requires` of the button handlers. The
  "Start VC" guard is the exception: no step stands for that click, so the
  guard is stated only in `HomePage.ButtonsCoverEveryStatus`. Backend
  replies are parameters. `None` stands for a request, or a JSON parse, that
  threw. `Valid()` is the invariant every handler keeps.
- **`Poller`** models `pollForPresentation` as a loop over the replies the
  backend would give. The loop is proved equal to the recursive definition.
  Lemmas give the number of queries and the returned reply.
- **`Jwt`** models `parseJwt`: the second `.` segment of a JWS compact
  serialization (RFC 7515 section 7.1), and the page's partial undoing of the
  base64url alphabet (RFC 4648 section 5).
- **`Fragment`** and **`UrlParams`** model `asPath.split('#')[1]` and
  `URLSearchParams(...).get('response_code')`. Both pages use them.
- **`MdlResultPage`** (pages/mdl_result.js) models the result page, whose
  effect re-runs when the address changes.
- **`MdlCard`**, **`VpCard`** and **`Cards`** (components/) model the
  null-safe `getAttribute` lookups and the keys each card reads.
- **`Strings`** and **`Js`** model the JavaScript string operations and the
  value shapes (`undefined`, `null`, objects, arrays) that the rest relies on.

The model follows the code, including where the code departs from the
flow's evident design:
- `reset` does not cancel a pending poll. A verified reply that arrives after
  a reset moves the page from `non_started` to `vp_verified`
  (`HomePage.ResetDoesNotCancelPoll`).
- An empty `response_code` is not exchanged, because the code tests
  truthiness.
- `parseJwt` of a falsy token returns `undefined` rather than failing.
- `onClickMdl` sets `mdl_waiting` before its request, so the status changes
  even when the request fails.
- No answer checks the status, so a start reply after a reset also lands.
  `HomePage.ResetThenMdlStartReply` leaves `non_started` with a wallet URL.
  `HomePage.ResetThenVpStartReply` moves `non_started` to `vp_waiting`.
- `parseJwt` maps only the first `-` and the first `_` back to `+` and `/`.
  `Jwt.UndoIsCompleteIff` shows that this equals the full conversion exactly
  when the segment holds at most one of each.

## Model

| member | source | states |
|---|---|---|
| `Js.Member` | pages/index.js:40 | `v.key` throws exactly on `null`/`undefined`; otherwise it is the own field, or `undefined` when missing |
| `Js.Chain` | components/mdlCard.js:2 | `v?.[key]` never throws: `undefined` past a nullish link, otherwise the same as `v.key` |
| `Js.FalsyValues` | pages/index.js:80 | `Truthy` is ECMAScript ToBoolean over the modelled values: exactly `undefined`, `null`, `false`, `0` and `""` are falsy (the test in `if (responseCode)` and in `!token` at line 138) |
| `Strings.SplitAtOne` | pages/index.js:76 | `s.split(sep)[1]` is `undefined` (None) iff `s` holds no separator; otherwise it is the text after the first separator up to the next one, free of the separator (also `token.split('.')[1]` at line 141) |
| `Strings.Split` | pages/index.js:76 | `split` on one character: at least one piece, no piece holds the separator, the first piece is the text before the first separator, and there are two or more pieces iff the separator occurs |
| `Strings.JoinSplit` | pages/index.js:76 | joining the pieces of a split with the separator gives back the string |
| `Strings.SplitCons` | pages/index.js:76 | text that starts with a separator-free piece and a separator splits into that piece followed by the split of the rest |
| `Strings.SplitJoin` | pages/mdl_result.js:26 | splitting a join of separator-free pieces gives back the pieces |
| `Strings.SecondPiece` | pages/mdl_result.js:26 | `split(sep)[1]` is the text between the first separator and the next one (or the end) |
| `Strings.FindFrom` | pages/index.js:93-96 | the search returns the first position at or after `from` where the pattern occurs, or none when it occurs nowhere |
| `Strings.ReplaceFirst` | pages/index.js:93-96 | `replace` with a string pattern replaces exactly the first occurrence, and returns the string unchanged when there is none |
| `Strings.ReplaceAtStart` | pages/index.js:119-122 | a URL starting with the scheme becomes the wallet page followed by the rest of the URL |
| `Strings.ReplaceFirstChar` | pages/index.js:142 | replacing a one-character pattern keeps the length and changes only the first occurrence |
| `UrlParams.StripQuestion` | pages/index.js:77 | the constructor drops exactly one leading `?` when there is one, and otherwise keeps the string unchanged |
| `UrlParams.ParsePair` | pages/mdl_result.js:27 | a `name=value` piece splits at its first `=`; the name holds no `=`; without `=` the value is empty |
| `UrlParams.PairsOf` | pages/index.js:77 | never more pairs than pieces, exactly one per piece when no piece is empty; no name holds `=` |
| `UrlParams.PairsOfAppend` | pages/index.js:77 | the pairs of two runs of pieces are the pairs of the first run followed by those of the second |
| `UrlParams.PairsOfSingle` | pages/index.js:77 | an empty piece yields no pair; any other piece yields exactly its own `name=value` pair (with `PairsOfAppend`: pieces map to pairs one by one, empty ones skipped) |
| `UrlParams.Parse` | pages/index.js:77 | `new URLSearchParams(q)`: no name holds `=`; an empty query (or a lone `?`) has no pairs; a query without `&` is the single pair of its one piece |
| `UrlParams.Lookup` | pages/mdl_result.js:28 | `get` is None iff no pair has the name; otherwise it is the value of the first pair with that name |
| `UrlParams.Get` | pages/index.js:78 | `get(name)` is `null` (None) iff no parsed pair has the name; otherwise it is the value of the first parsed pair with that name; a name containing `=` is never found, which holds only because percent-decoding is not modelled (`a%3Db=1` would carry the name `a=b`) |
| `UrlParams.ParseSerialize` | pages/mdl_result.js:27 | parsing `n1=v1&n2=v2...` gives back the pairs when no name holds `=` or `&`, no value holds `&`, and there is no leading `?` |
| `UrlParams.GetSerialized` | pages/mdl_result.js:28 | `get` on such a query string returns the first value stored under the name |
| `Fragment.ResponseCode` | pages/index.js:76-78 | without a fragment there is no `response_code` |
| `Fragment.ExchangeCode` | pages/mdl_result.js:28-30 | a code is exchanged only when the extracted `response_code` is non-empty, and then it is exactly that value |
| `Fragment.NoHashNoExchange` | pages/mdl_result.js:26-31 | an address without `#` has no `response_code`, so no request is made |
| `Fragment.OnlyFirstFragmentParsed` | pages/mdl_result.js:26-27 | only the text between the first `#` and the next `#` (or the end) is parsed for parameters |
| `Fragment.JoinKeepsOut` | pages/mdl_result.js:26 | a character absent from all pieces and unequal to the separator is absent from their join |
| `Fragment.CodeOfSerializedFragment` | pages/index.js:76-78 | a fragment built from well-formed pairs yields the first `response_code` among them |
| `Fragment.ExampleReturnAddress` | pages/index.js:76-80 | `https://x/#response_code=abc123` leads to exchanging `abc123` |
| `Fragment.ExampleEmptyCode` | pages/mdl_result.js:28-30 | `#response_code=` yields the empty code, which is not exchanged |
| `Cards.Card` | components/mdlCard.js:26-32 | one value per key, in order: value i is what the card's lookup reads for key i |
| `Cards.CardDeterminedByKeys` | components/mdlCard.js:26-32 | two presentations give the same card iff they agree on every key the card reads |
| `MdlCard.GetAttribute` | components/mdlCard.js:1-3 | returns the value under `key` in `attributes["org.iso.18013.5.1"]` when every link exists; returns `undefined` when the presentation, `attributes`, the namespace or the key is missing; never throws |
| `MdlCard.View` | components/mdlCard.js:26-32 | the card shows one value per key of its five keys, value i being `getAttribute(presentation, key i)` |
| `MdlCard.ViewOfMissingNamespace` | components/mdlCard.js:2 | without `attributes` or the namespace, every field of the card is absent |
| `MdlCard.ViewReadsExactlyKeys` | components/mdlCard.js:28-31 | the card reads exactly `given_name`, `family_name`, `birth_date`, `expiry_date`, `document_number` |
| `VpCard.GetAttribute` | components/vpCard.js:1-4 | returns `vc.credentialSubject[key]` when every link exists; returns `undefined` when the presentation, `vc`, `credentialSubject` or the key is missing; never throws |
| `VpCard.View` | components/vpCard.js:6-15 | the card shows one value per key of its eight keys, value i being `getAttribute(presentation, key i)` |
| `VpCard.ViewOfMissingSubject` | components/vpCard.js:3 | without `vc` or `vc.credentialSubject`, every field of the card is absent |
| `VpCard.ViewReadsExactlyKeys` | components/vpCard.js:8-14 | the card reads exactly its eight claims, from `givenName` to `licensingAuthority` |
| `Jwt.PayloadIsSecondSegment` | pages/index.js:141 | the payload is the text between the first `.` and the next one |
| `Jwt.FirstIndexAfterUpdate` | pages/index.js:142 | the first `-` to `+` step leaves the position of the first `_` unchanged |
| `Jwt.ReplaceTwice` | pages/index.js:142 | the two chained replacements change only the first `-` and the first `_` |
| `Jwt.UndoUrlAlphabet` | pages/index.js:142 | same length as the segment; only the first `-` becomes `+` and only the first `_` becomes `/`; every other character is kept |
| `Jwt.UrlToStd` | pages/index.js:142 | reference definition, not code of the page: the complete base64url-to-base64 mapping of RFC 4648 section 5, every character converted; `Jwt.UndoIsCompleteIff` compares the page's replacement against it |
| `Jwt.StdToUrl` | pages/index.js:141-142 | reference definition, not code of the page: base64 text as the token's issuer writes it in the URL-safe alphabet, every character mapped; `Jwt.ParseJwtRoundTrip` starts from it |
| `Jwt.UndoCompleteWhenOnce` | pages/index.js:142 | with at most one `-` and one `_`, the page's replacement equals the complete conversion |
| `Jwt.LaterOccurrence` | pages/index.js:142 | a second occurrence of a character lies after the first one |
| `Jwt.UndoIsCompleteIff` | pages/index.js:142 | the page's replacement equals the complete conversion iff the segment holds at most one `-` and at most one `_` |
| `Jwt.ParseJwt` | pages/index.js:137-144 | a falsy token gives `undefined`; a truthy non-string, or a string without `.`, throws; otherwise the result is the decoding of the second segment after the replacement |
| `Jwt.UrlSafePayload` | pages/index.js:141-142 | base64 text with at most one `+` and one `/`, written in base64url, contains no `.`, and the page's replacement restores it exactly |
| `Jwt.ParseToken` | pages/index.js:141-143 | a token `header.payload.signature` with `.`-free header and payload parses to what the decoder makes of the payload after the page's replacement |
| `Jwt.DottedPayload` | pages/index.js:141 | in `header.payload.signature` the text after the first `.` up to the next one is the payload |
| `Jwt.ParseDotted` | pages/index.js:141-143 | a token whose second segment is `payload` parses to what the decoder makes of `payload` after the replacement |
| `Jwt.ParseJwtRoundTrip` | pages/index.js:137-144 | for `header.payload.signature` with the payload written in base64url, the result is what the decoder makes of the original base64 text, when that text holds at most one `+` and one `/` |
| `Jwt.SecondDashNotMapped` | pages/index.js:142 | for `++` written as `--`, the decoder receives `+-`: the second `-` stays outside the base64 alphabet |
| `Poller.Judge` | pages/index.js:37-40 | a reply ends the poll iff `status === 'verified'`; it aborts iff the request failed or the body is `null` or `undefined` |
| `Poller.Result` | pages/index.js:25-56 | the recursive poll: a verified outcome is the body of some reply judged verified; an abort comes from some reply that failed or was nullish; still polling means every reply asked to retry |
| `Poller.Queries` | pages/index.js:25-56 | the recursive count of queries: at most one per reply, at least one when there is a reply, and every reply before the last one queried asked to retry |
| `Poller.Poll` | pages/index.js:25-56 | the loop returns the result of the recursive poll and sends one query per reply consumed, all with the same request id |
| `Poller.StopsAtFirstTerminal` | pages/index.js:25-56 | if reply k is the first that is verified or aborts, exactly k + 1 queries are made and that reply (or nothing) is returned |
| `Poller.KeepsPolling` | pages/index.js:42-52 | while every reply is non-terminal, the poll queries once per reply and keeps going |
| `Poller.ExampleThirdReplyVerified` | pages/index.js:25-56 | `initiated`, `initiated`, `verified` gives three queries and returns the third reply |
| `HomePage.NamesDistinct` | pages/index.js:7-12 | the six status constants are pairwise distinct |
| `HomePage.Enabled` | pages/index.js:156-200 | the render guards agree with the page's string comparisons: start MDL iff `status === 'non_started'`, start VC iff `status === 'mdl_verified'`, reset iff `status !== 'non_started'` |
| `HomePage.ButtonsCoverEveryStatus` | pages/index.js:156-200 | some button is shown in every status; the two start buttons never show together; reset shows exactly when start-MDL does not |
| `HomePage.MapAll` | pages/index.js:104 | `map` with a callback that may throw: it succeeds iff every call does, and then has one entry per element, entry i being the result of call i |
| `HomePage.ParseAll` | pages/index.js:103-104 | `map(parseJwt)` succeeds iff every token parses, and then entry i is the parse of token i |
| `HomePage.DecodeCredentials` | pages/index.js:102-105 | succeeds iff the presentation is an object whose `verifiableCredential` is an array of tokens that all parse; the result differs from the presentation only in that array, each entry replaced by its parse |
| `HomePage.VpResult` | pages/index.js:102-105 | what a poll leaves for `presentationVP`: nothing unless the poll ends verified; a stored value is a presentation whose `verifiableCredential` is an array and whose other fields equal those of the reply's `presentation` (which value, or none when decoding throws, is given by `HomePage.VpResultOfFirstVerified`) |
| `HomePage.VpResultOfFirstVerified` | pages/index.js:102-108 | when reply k is the first that does not ask to retry and it is verified, what is stored is exactly the decoding of reply k's `presentation`: that presentation with its credentials parsed, or nothing when a parse throws |
| `HomePage.Home.constructor` | pages/index.js:15-19 | starts in `non_started` with an empty `url` and no presentations |
| `HomePage.Home.OnMount` | pages/index.js:58-85 | with a non-empty `response_code`: status `mdl_fetching`, fragment removed (`/`), and exactly that code posted; otherwise nothing changes |
| `HomePage.Home.LeaveForExchange` | pages/index.js:80-82 | with a code: status `mdl_fetching` and the fragment removed, all else kept; without one nothing changes |
| `HomePage.Home.OnMdlFetched` | pages/index.js:59-74 | the exchange reply becomes `presentationMDL` and the status `mdl_verified`; a failed request changes nothing |
| `HomePage.Home.OnClickMdl` | pages/index.js:112-114 | the button sets `mdl_waiting` at once, before the request is answered; nothing else changes |
| `HomePage.Home.OnMdlStartReply` | pages/index.js:117-126 | in any status: a reply sets `url` to the returned URL with its first `mdoc-openid4vp://` rewritten and changes nothing else; a failed request changes nothing |
| `HomePage.Home.OnVpStartReply` | pages/index.js:87-101 | in any status: a reply sets `url` to the returned URL with its first `openid-vc://` rewritten, the status to `vp_waiting`, and starts a poll with the returned id; a failed request changes nothing |
| `HomePage.Home.OnPollReplies` | pages/index.js:99-110 | `vp_verified` only after a verified reply whose credentials all decode, storing the decoded presentation; an aborted poll, or a decoding that throws, leaves the page unchanged |
| `HomePage.Home.Reset` | pages/index.js:129-135 | status `non_started`, with `url`, `presentationMDL` and `presentationVP` cleared |
| `HomePage.RetriesThenVerified` | pages/index.js:25-56 | retries followed by a verified reply `last`: one query per reply, and what is stored is decoded from `last`'s presentation alone |
| `HomePage.PollEndingInEmptyVerified` | pages/index.js:99-106 | retries followed by a verified reply with an empty credential array store a presentation, after one query per reply |
| `HomePage.ResetDoesNotCancelPoll` | pages/index.js:129-135 | a poll that completes after a reset leaves the page in `vp_verified` with an empty `url` |
| `HomePage.ResetThenMdlStartReply` | pages/index.js:123 | the MDL start reply arriving after a reset leaves the page in `non_started` with the wallet URL set |
| `HomePage.ResetThenVpStartReply` | pages/index.js:97-102 | the VC start reply arriving after a reset takes the page from `non_started` to `vp_waiting` and starts a poll, with no licence result |
| `HomePage.HappyPath` | pages/index.js:58-110 | from any address carrying a non-empty `response_code`: the exchange, the VC start reply, and a poll of retries ending in a verified reply whose credentials all decode end in `vp_verified` at `/`, with the rewritten wallet URL, the licence, that reply's decoded presentation stored, and one query per reply |
| `MdlResultPage.MdlResult.constructor` | pages/mdl_result.js:8 | `mdlResults` starts `undefined` |
| `MdlResultPage.MdlResult.Render` | pages/mdl_result.js:10-32 | the effect runs only for a new address; it posts exactly the non-empty extracted code; a reply then becomes `mdlResults` |
| `MdlResultPage.NoFragmentNoRequest` | pages/mdl_result.js:26-31 | an address without `#` never issues a request or changes `mdlResults` |

## Left out

- Requests to the backend (`fetch`, bodies, headers) are left out. Their replies are parameters. A reply that fails at any point is `None`: the request, `res.json()`, destructuring, or `url.replace` on a missing URL.
- pages/api/verify/fetch_mdl.js is a proxy to the external provider. Its environment checks and its rule that a missing id throws are I/O plumbing.
- tailwind.config.js is styling configuration.
- The 1000 ms `setTimeout` between polls is an untimed step. `timerRef` is not modelled. `reset` never clears it, and it never cancels the pending poll (see `HomePage.ResetDoesNotCancelPoll`).
- Async interleaving is modelled only step by step. Each handler is one atomic step, and so is each answer: the two start replies, the licence exchange and the poll.
  - An answer may arrive in any status, because the callbacks do not check it.
  - The model does not tie an answer to an earlier request, so it also admits answers that no request asked for.
  - On the result page, the exchange reply is folded into the render that posted it. So a reply to an earlier address that arrives after the reply to a later one, and overwrites it, is not captured.
- `onClickVP` overwrites `presentation.verifiableCredential` in place. The model treats the presentation as a value, so aliasing with the poll's reply object is not captured.
- `window.atob` and `JSON.parse` are an abstract `decode` parameter. `None` means they threw.
- `URLSearchParams` percent-decoding and the `+`-to-space rule are not modelled. Neither are JavaScript's `$` patterns in `replace`; no replacement text used here contains `$`.
- Property lookup on non-objects is treated as missing (array indices, `length`, prototype members), and so are the inherited members of plain objects (such as `({}).toString`); the pages read only fixed keys that are own fields. Numbers are integers; `NaN` is not modelled.
- The VP request id is modelled as a string. A reply without `request_id` would poll with `undefined`.
- JSX markup, `Head`, `Loader`, CSS modules and `console.log` (including the one in the VP card's `getAttribute`) are presentation or logging only.
- Navigation beyond "the fragment is removed" (`router.push('/')`) is not modelled.
- Jwt.ParseJwtRoundTrip: proved only for payloads whose base64 text holds at most one `+` and one `/`, because the page replaces only the first `-` and `_`. `Jwt.SecondDashNotMapped` shows the failure otherwise.
