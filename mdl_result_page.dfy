/**
 * The licence result page (pages/mdl_result.js): whenever its address
 * changes it reads the `response_code` of the fragment and, when there is a
 * non-empty one, posts it to the backend and shows the reply.
 */
module MdlResultPage {
  import opened Wrappers
  import opened Js
  import Fragment

  class MdlResult {
    /** `mdlResults`, Undefined until a reply arrives. */
    var mdlResults: Value
    /** The address the effect last ran for; None before the first render. */
    var effectPath: Option<string>

    constructor ()
      ensures mdlResults == Undefined && effectPath == None
    {
      mdlResults := Undefined;
      effectPath := None;
    }

    /**
     * A render at `asPath`. The effect runs only when `asPath` differs from
     * the address it last ran for. It posts exactly the extracted non-empty
     * code (returned), and a reply that arrives (`reply`) becomes
     * `mdlResults`; a failed request leaves `mdlResults` as it was.
     */
    method Render(asPath: string, reply: Option<Value>) returns (posted: Option<string>)
      modifies this
      ensures effectPath == Some(asPath)
      ensures posted == if old(effectPath) == Some(asPath) then None else Fragment.ExchangeCode(asPath)
      ensures mdlResults == if posted.Some? && reply.Some? then reply.value else old(mdlResults)
    {
      posted := None;
      if effectPath != Some(asPath) {
        effectPath := Some(asPath);
        posted := Fragment.ExchangeCode(asPath);
        if posted.Some? && reply.Some? {
          mdlResults := reply.value;
        }
      }
    }
  }

  /** An address without a fragment never triggers a request, on any render. */
  method NoFragmentNoRequest(page: MdlResult, asPath: string, reply: Option<Value>)
    returns (posted: Option<string>)
    requires '#' !in asPath
    modifies page
    ensures posted.None? && page.mdlResults == old(page.mdlResults)
  {
    Fragment.NoHashNoExchange(asPath);
    posted := page.Render(asPath, reply);
  }
}
