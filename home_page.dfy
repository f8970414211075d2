/**
 * The main page (pages/index.js): a state machine that runs the licence
 * (mDL) presentation flow, then the verifiable-credential (VP) flow. Each
 * event handler is a method; what the backend answers is a parameter, with
 * None standing for a request or a JSON parse that threw.
 */
module HomePage {
  import opened Wrappers
  import opened Js
  import opened Strings
  import Fragment
  import Poller
  import Jwt

  /** The six values of `status`. */
  datatype Status = NonStarted | MdlWaiting | MdlFetching | MdlVerified | VpWaiting | VpVerified

  /** The string constant the page uses for each status. */
  function Name(s: Status): string {
    match s
    case NonStarted => "non_started"
    case MdlWaiting => "mdl_waiting"
    case MdlFetching => "mdl_fetching"
    case MdlVerified => "mdl_verified"
    case VpWaiting => "vp_waiting"
    case VpVerified => "vp_verified"
  }

  /** The six constants are distinct, so `status === X` tells the states apart. */
  lemma NamesDistinct(s: Status, t: Status)
    ensures Name(s) == Name(t) ==> s == t
  {
  }

  /** The user's actions: the three buttons the page renders. */
  datatype UserEvent = StartMdl | StartVp | ResetFlow

  /**
   * The render guards: which button is on screen in which status. The page
   * compares the status strings; the guard agrees with those comparisons.
   */
  predicate Enabled(s: Status, e: UserEvent): (shown: bool)
    ensures shown <==> match e
      case StartMdl => Name(s) == "non_started"
      case StartVp => Name(s) == "mdl_verified"
      case ResetFlow => Name(s) != "non_started"
  {
    match e
    case StartMdl => s == NonStarted
    case StartVp => s == MdlVerified
    case ResetFlow => s != NonStarted
  }

  /** In every status some button is shown, and never both start buttons. */
  lemma ButtonsCoverEveryStatus(s: Status)
    ensures exists e :: Enabled(s, e)
    ensures !(Enabled(s, StartMdl) && Enabled(s, StartVp))
    ensures Enabled(s, StartMdl) <==> !Enabled(s, ResetFlow)
  {
    if s == NonStarted {
      assert Enabled(s, StartMdl);
    } else {
      assert Enabled(s, ResetFlow);
    }
  }

  /** The wallet-app schemes the backend returns, and the web wallet pages they become. */
  const MdlScheme := "mdoc-openid4vp://"
  const MdlWallet := "https://wallet.verifiablecredentials.dev/mdl/request"
  const VpScheme := "openid-vc://"
  const VpWallet := "https://wallet.verifiablecredentials.dev/siop"

  /** The reply of the VP start request: `{ url, request_id }`. */
  datatype StartReply = StartReply(url: string, requestId: string)

  /** `xs.map(f)` for an `f` that may throw (None): None as soon as one call does. */
  function MapAll(xs: seq<Value>, f: Value -> Option<Value>): (r: Option<seq<Value>>)
    ensures r.Some? <==> forall i :: 0 <= i < |xs| ==> f(xs[i]).Some?
    ensures r.Some? ==> |r.value| == |xs|
    ensures r.Some? ==> forall i :: 0 <= i < |xs| ==> r.value[i] == f(xs[i]).value
  {
    if xs == [] then Some([])
    else
      match f(xs[0])
      case None => None
      case Some(first) =>
        match MapAll(xs[1..], f)
        case None =>
          assert forall i :: 1 <= i < |xs| ==> xs[i] == xs[1..][i - 1];
          None
        case Some(rest) =>
          assert forall i :: 1 <= i < |xs| ==> xs[i] == xs[1..][i - 1];
          Some([first] + rest)
  }

  /** `tokens.map(parseJwt)`: None when any call throws. */
  function ParseAll(tokens: seq<Value>, decode: string -> Option<Value>): (r: Option<seq<Value>>)
    ensures r.Some? <==> forall i :: 0 <= i < |tokens| ==> Jwt.ParseJwt(tokens[i], decode).Some?
    ensures r.Some? ==> |r.value| == |tokens|
    ensures r.Some? ==> forall i :: 0 <= i < |tokens| ==> r.value[i] == Jwt.ParseJwt(tokens[i], decode).value
  {
    MapAll(tokens, t => Jwt.ParseJwt(t, decode))
  }

  /**
   * `presentation.verifiableCredential = presentation.verifiableCredential.map(parseJwt)`:
   * None when it throws (no object, no array there, or a token that fails);
   * otherwise the presentation with each credential replaced by its claims.
   */
  function DecodeCredentials(presentation: Value, decode: string -> Option<Value>): (r: Option<Value>)
    ensures r.Some? <==>
      && presentation.Obj?
      && "verifiableCredential" in presentation.fields
      && presentation.fields["verifiableCredential"].Arr?
      && forall i :: 0 <= i < |presentation.fields["verifiableCredential"].items| ==>
           Jwt.ParseJwt(presentation.fields["verifiableCredential"].items[i], decode).Some?
    ensures r.Some? ==>
      && r.value.Obj?
      && r.value.fields.Keys == presentation.fields.Keys
      && (forall k :: k in presentation.fields && k != "verifiableCredential" ==>
            r.value.fields[k] == presentation.fields[k])
      && r.value.fields["verifiableCredential"].Arr?
      && var tokens := presentation.fields["verifiableCredential"].items;
         var claims := r.value.fields["verifiableCredential"].items;
         |claims| == |tokens| &&
         forall i :: 0 <= i < |tokens| ==> claims[i] == Jwt.ParseJwt(tokens[i], decode).value
  {
    match presentation
    case Obj(fields) =>
      if "verifiableCredential" in fields && fields["verifiableCredential"].Arr? then
        match ParseAll(fields["verifiableCredential"].items, decode)
        case Some(claims) => Some(Obj(fields["verifiableCredential" := Arr(claims)]))
        case None => None
      else None
    case _ => None
  }

  /**
   * What a poll over `replies` leaves for `presentationVP`: the `presentation`
   * of the verified reply with its credentials decoded, or nothing when the
   * poll does not end verified or the decoding throws.
   */
  function VpResult(replies: seq<Poller.Attempt>, decode: string -> Option<Value>): (r: Option<Value>)
    ensures !Poller.Result(replies).Verified? ==> r.None?
    ensures r.Some? ==> DecodedPresentation(r.value)
    ensures r.Some? ==> var p := Chain(Poller.Result(replies).data, "presentation");
      && p.Obj? && r.value.fields.Keys == p.fields.Keys
      && forall key :: key in p.fields && key != "verifiableCredential" ==> r.value.fields[key] == p.fields[key]
  {
    match Poller.Result(replies)
    case Verified(data) => DecodeCredentials(Chain(data, "presentation"), decode)
    case _ => None
  }

  /**
   * When reply `k` is the first that does not ask to retry and it is
   * verified, what is stored is that reply's presentation with its
   * credentials decoded, and nothing when the decoding throws.
   */
  lemma VpResultOfFirstVerified(replies: seq<Poller.Attempt>, k: nat, decode: string -> Option<Value>)
    requires k < |replies|
    requires forall j :: 0 <= j < k ==> Poller.Judge(replies[j]) == Poller.Retry
    requires Poller.Judge(replies[k]) == Poller.Done
    ensures VpResult(replies, decode) == DecodeCredentials(Chain(replies[k].data, "presentation"), decode)
  {
    Poller.StopsAtFirstTerminal(replies, k);
  }

  /** A presentation as the VP flow stores it: its credentials decoded into an array. */
  ghost predicate DecodedPresentation(v: Value) {
    v.Obj? && "verifiableCredential" in v.fields && v.fields["verifiableCredential"].Arr?
  }

  /** The state of one `Home` page instance. */
  class Home {
    var status: Status
    var url: string
    var presentationMDL: Value
    var presentationVP: Value
    /** `router.asPath`, the address the page shows. */
    var location: string

    /**
     * Only the initial state and `reset` produce `non_started`, and both clear
     * the two presentations; `vp_verified` is only reached with a decoded
     * presentation. (`url` may be set in `non_started`: a start reply can
     * arrive after a reset.)
     */
    ghost predicate Valid()
      reads this
    {
      && (status == NonStarted ==> presentationMDL == Undefined && presentationVP == Undefined)
      && (status == VpVerified ==> DecodedPresentation(presentationVP))
    }

    /** The first render at address `asPath`. */
    constructor (asPath: string)
      ensures Valid()
      ensures status == NonStarted && url == ""
      ensures presentationMDL == Undefined && presentationVP == Undefined
      ensures location == asPath
    {
      status := NonStarted;
      url := "";
      presentationMDL := Undefined;
      presentationVP := Undefined;
      location := asPath;
    }

    /**
     * The mount effect: with a non-empty `response_code` in the fragment the
     * page moves to `mdl_fetching`, drops the fragment (`router.push('/')`)
     * and posts the code, which is returned; otherwise nothing happens.
     */
    method OnMount() returns (exchange: Option<string>)
      requires Valid()
      modifies this
      ensures Valid()
      ensures exchange == Fragment.ExchangeCode(old(location))
      ensures exchange.Some? ==> status == MdlFetching && location == "/"
      ensures exchange.Some? ==> url == old(url) && presentationMDL == old(presentationMDL) &&
                                 presentationVP == old(presentationVP)
      ensures exchange.None? ==> unchanged(this)
    {
      exchange := Fragment.ExchangeCode(location);
      LeaveForExchange(exchange);
    }

    /** The state change of the mount effect once the code is known. */
    method LeaveForExchange(exchange: Option<string>)
      requires Valid()
      modifies this
      ensures Valid()
      ensures exchange.Some? ==> status == MdlFetching && location == "/"
      ensures exchange.Some? ==> url == old(url) && presentationMDL == old(presentationMDL) &&
                                 presentationVP == old(presentationVP)
      ensures exchange.None? ==> unchanged(this)
    {
      if exchange.Some? {
        status := MdlFetching;
        location := "/";
      }
    }

    /**
     * The licence exchange completes: its body becomes `presentationMDL` and
     * the status `mdl_verified`. A failed request changes nothing. The
     * callback does not look at the status, so it also lands after a reset.
     */
    method OnMdlFetched(reply: Option<Value>)
      requires Valid()
      modifies this
      ensures Valid()
      ensures reply.Some? ==> status == MdlVerified && presentationMDL == reply.value
      ensures reply.Some? ==> url == old(url) && presentationVP == old(presentationVP) && location == old(location)
      ensures reply.None? ==> unchanged(this)
    {
      if reply.Some? {
        presentationMDL := reply.value;
        status := MdlVerified;
      }
    }

    /**
     * "Start MDL Presentation Flow": the status becomes `mdl_waiting` at once,
     * before the start request is answered (so also when it fails).
     */
    method OnClickMdl()
      requires Valid() && Enabled(status, StartMdl)
      modifies this
      ensures Valid()
      ensures status == MdlWaiting
      ensures url == old(url) && presentationMDL == old(presentationMDL) &&
              presentationVP == old(presentationVP) && location == old(location)
    {
      status := MdlWaiting;
    }

    /**
     * The MDL start request answers: `url` becomes the returned URL with its
     * first `mdoc-openid4vp://` turned into the web wallet page; the status
     * is left alone. A failed request changes nothing. The callback does not
     * look at the status, so the reply also lands after a reset.
     */
    method OnMdlStartReply(reply: Option<string>)
      requires Valid()
      modifies this
      ensures Valid()
      ensures reply.Some? ==> url == ReplaceFirst(reply.value, MdlScheme, MdlWallet)
      ensures reply.Some? ==> status == old(status) && presentationMDL == old(presentationMDL) &&
                              presentationVP == old(presentationVP) && location == old(location)
      ensures reply.None? ==> unchanged(this)
    {
      if reply.Some? {
        url := ReplaceFirst(reply.value, MdlScheme, MdlWallet);
      }
    }

    /**
     * The VC start request, sent by "Start VC Presentation Flow" (which
     * changes nothing before it is answered), answers: `url` is the returned
     * URL with its first `openid-vc://` turned into the web wallet page, the
     * status becomes `vp_waiting` and a poll starts with the returned request
     * id. A failed request changes nothing. Like every callback of the page
     * it does not look at the status, so it also lands after a reset.
     */
    method OnVpStartReply(reply: Option<StartReply>) returns (poll: Option<string>)
      requires Valid()
      modifies this
      ensures Valid()
      ensures reply.Some? ==> status == VpWaiting && poll == Some(reply.value.requestId) &&
                              url == ReplaceFirst(reply.value.url, VpScheme, VpWallet)
      ensures reply.Some? ==> presentationMDL == old(presentationMDL) &&
                              presentationVP == old(presentationVP) && location == old(location)
      ensures reply.None? ==> poll.None? && unchanged(this)
    {
      poll := None;
      if reply.Some? {
        url := ReplaceFirst(reply.value.url, VpScheme, VpWallet);
        status := VpWaiting;
        poll := Some(reply.value.requestId);
      }
    }

    /**
     * The poll started by the VP flow runs over `replies`. Only when it
     * returns a verified reply whose credentials all decode does the page
     * store the decoded presentation and move to `vp_verified`; an aborted
     * poll, or one that throws while decoding, leaves the page as it was.
     */
    method OnPollReplies(requestId: string, replies: seq<Poller.Attempt>, decode: string -> Option<Value>)
      returns (sent: seq<string>)
      requires Valid()
      modifies this
      ensures Valid()
      ensures |sent| == Poller.Queries(replies) && forall k :: 0 <= k < |sent| ==> sent[k] == requestId
      ensures VpResult(replies, decode).Some? ==>
        status == VpVerified && presentationVP == VpResult(replies, decode).value
      ensures VpResult(replies, decode).Some? ==>
        url == old(url) && presentationMDL == old(presentationMDL) && location == old(location)
      ensures VpResult(replies, decode).None? ==> unchanged(this)
    {
      var outcome;
      outcome, sent := Poller.Poll(requestId, replies);
      if outcome.Verified? {
        var decoded := DecodeCredentials(Chain(outcome.data, "presentation"), decode);
        if decoded.Some? {
          presentationVP := decoded.value;
          status := VpVerified;
        }
      }
    }

    /**
     * "Reset": back to `non_started` with `url`, `presentationMDL` and
     * `presentationVP` cleared. The address, a pending poll and its timer are
     * left alone.
     */
    method Reset()
      requires Valid() && Enabled(status, ResetFlow)
      modifies this
      ensures Valid()
      ensures status == NonStarted && url == ""
      ensures presentationMDL == Undefined && presentationVP == Undefined
      ensures location == old(location)
    {
      status := NonStarted;
      presentationMDL := Undefined;
      presentationVP := Undefined;
      url := "";
    }
  }

  /**
   * After replies that all ask to retry, a verified reply `last` ends the
   * poll: one query per reply, and what is stored comes from `last` alone.
   */
  lemma RetriesThenVerified(retries: seq<Poller.Attempt>, last: Poller.Attempt, decode: string -> Option<Value>)
    requires forall j :: 0 <= j < |retries| ==> Poller.Judge(retries[j]) == Poller.Retry
    requires Poller.Judge(last) == Poller.Done
    ensures Poller.Queries(retries + [last]) == |retries| + 1
    ensures VpResult(retries + [last], decode) == DecodeCredentials(Chain(last.data, "presentation"), decode)
  {
    var replies := retries + [last];
    assert replies[|retries|] == last;
    assert forall j :: 0 <= j < |retries| ==> replies[j] == retries[j];
    Poller.StopsAtFirstTerminal(replies, |retries|);
  }

  /** A verified reply whose presentation holds no credentials. */
  function EmptyVerifiedReply(): Poller.Attempt {
    Poller.Reply(Obj(map["status" := Str("verified"),
                         "presentation" := Obj(map["verifiableCredential" := Arr([])])]))
  }

  /** A poll whose last reply is that one, after `retries` replies that ask to retry, stores a presentation. */
  lemma PollEndingInEmptyVerified(retries: seq<Poller.Attempt>, decode: string -> Option<Value>)
    requires forall j :: 0 <= j < |retries| ==> Poller.Judge(retries[j]) == Poller.Retry
    ensures Poller.Queries(retries + [EmptyVerifiedReply()]) == |retries| + 1
    ensures VpResult(retries + [EmptyVerifiedReply()], decode).Some?
  {
    EmptyVerifiedDecodes(decode);
    RetriesThenVerified(retries, EmptyVerifiedReply(), decode);
  }

  /** That reply ends a poll, and its (empty) credential list decodes. */
  lemma EmptyVerifiedDecodes(decode: string -> Option<Value>)
    ensures Poller.Judge(EmptyVerifiedReply()) == Poller.Done
    ensures DecodeCredentials(Chain(EmptyVerifiedReply().data, "presentation"), decode).Some?
  {
    var data := EmptyVerifiedReply().data;
    assert Chain(data, "presentation") == Obj(map["verifiableCredential" := Arr([])]);
  }

  /**
   * Reset does not cancel a poll: a verified reply arriving after a reset
   * takes the page from `non_started` straight to `vp_verified`, with no
   * wallet URL and no licence result.
   */
  method ResetDoesNotCancelPoll(h: Home, requestId: string, decode: string -> Option<Value>)
    requires h.Valid() && h.status == VpWaiting
    modifies h
    ensures h.status == VpVerified && h.url == "" && h.presentationMDL == Undefined
  {
    h.Reset();
    PollEndingInEmptyVerified([], decode);
    assert [] + [EmptyVerifiedReply()] == [EmptyVerifiedReply()];
    var sent := h.OnPollReplies(requestId, [EmptyVerifiedReply()], decode);
  }

  /**
   * Reset does not cancel the MDL start request either: its reply, arriving
   * after a reset, leaves the page in `non_started` with a wallet URL set.
   */
  method ResetThenMdlStartReply(h: Home, rest: string)
    requires h.Valid() && h.status == MdlWaiting
    modifies h
    ensures h.status == NonStarted && h.url == MdlWallet + rest
  {
    h.Reset();
    ReplaceAtStart(MdlScheme, rest, MdlWallet);
    h.OnMdlStartReply(Some(MdlScheme + rest));
  }

  /**
   * Nor the VC start request: its reply after a reset takes the page from
   * `non_started` to `vp_waiting` and starts a poll, with no licence result.
   */
  method ResetThenVpStartReply(h: Home, reply: StartReply) returns (poll: Option<string>)
    requires h.Valid() && h.status != NonStarted
    modifies h
    ensures h.status == VpWaiting && poll == Some(reply.requestId)
    ensures h.presentationMDL == Undefined && h.presentationVP == Undefined
  {
    h.Reset();
    poll := h.OnVpStartReply(Some(reply));
  }

  /**
   * The whole flow: the wallet returns to an address carrying a non-empty
   * `response_code`, the exchange succeeds, the VC start request answers
   * with an `openid-vc://` URL, and the poll sees `retries` and then a
   * verified reply `last` whose credentials all decode.
   */
  method HappyPath(asPath: string, licence: Value, walletPath: string,
                   retries: seq<Poller.Attempt>, last: Poller.Attempt, decode: string -> Option<Value>)
    returns (h: Home, sent: seq<string>)
    requires Fragment.ExchangeCode(asPath).Some?
    requires forall j :: 0 <= j < |retries| ==> Poller.Judge(retries[j]) == Poller.Retry
    requires Poller.Judge(last) == Poller.Done
    requires DecodeCredentials(Chain(last.data, "presentation"), decode).Some?
    ensures h.status == VpVerified && h.location == "/"
    ensures h.presentationMDL == licence
    ensures h.presentationVP == DecodeCredentials(Chain(last.data, "presentation"), decode).value
    ensures h.url == VpWallet + walletPath
    ensures |sent| == |retries| + 1
  {
    h := new Home(asPath);
    var exchange := h.OnMount();
    h.OnMdlFetched(Some(licence));
    ReplaceAtStart(VpScheme, walletPath, VpWallet);
    var poll := h.OnVpStartReply(Some(StartReply(VpScheme + walletPath, "request-1")));
    RetriesThenVerified(retries, last, decode);
    sent := h.OnPollReplies(poll.value, retries + [last], decode);
  }
}
