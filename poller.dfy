/**
 * `pollForPresentation` of pages/index.js: query the backend with the same
 * `request_id` until a reply has `status === 'verified'`, pausing between
 * queries; any exception ends the poll with Undefined. The backend's replies
 * are given as a sequence, one per query, and the pause is an untimed step.
 */
module Poller {
  import opened Wrappers
  import opened Js

  /** What one query yields: the parsed reply body, or a failure (fetch or `res.json()` threw). */
  datatype Attempt = Reply(data: Value) | Failure

  /** How the poll treats one attempt. */
  datatype Verdict = Done | Retry | Abort

  /** How a poll over a finite sequence of replies ends. */
  datatype Outcome =
    | Verified(data: Value)  // a reply had status 'verified': it is returned
    | Aborted                // an exception was caught: the poll returns Undefined
    | StillPolling           // the replies ran out first: the poll goes on querying

  /**
   * A failure, or a reply body on which `data.status` throws (null), aborts;
   * `status === 'verified'` ends the poll; anything else retries.
   */
  function Judge(a: Attempt): (v: Verdict)
    ensures v == Done <==> a.Reply? && a.data.Obj? && "status" in a.data.fields &&
                           a.data.fields["status"] == Str("verified")
    ensures v == Abort <==> a.Failure? || Nullish(a.data)
  {
    match a
    case Failure => Abort
    case Reply(data) =>
      match Member(data, "status")
      case None => Abort
      case Some(status) => if status == Str("verified") then Done else Retry
  }

  /** The poll's result, following the recursion of the source. */
  function Result(replies: seq<Attempt>): (r: Outcome)
    ensures r.Verified? ==> exists k :: 0 <= k < |replies| && Judge(replies[k]) == Done && r.data == replies[k].data
    ensures r.Aborted? ==> exists k :: 0 <= k < |replies| && Judge(replies[k]) == Abort
    ensures r.StillPolling? ==> forall k :: 0 <= k < |replies| ==> Judge(replies[k]) == Retry
  {
    if replies == [] then StillPolling
    else match Judge(replies[0])
      case Done => Verified(replies[0].data)
      case Abort => Aborted
      case Retry => Result(replies[1..])
  }

  /** How many queries the poll issues over `replies`. */
  function Queries(replies: seq<Attempt>): (n: nat)
    ensures n <= |replies|
    ensures replies != [] ==> n >= 1
    ensures forall k :: 0 <= k < n - 1 ==> Judge(replies[k]) == Retry
  {
    if replies == [] then 0
    else if Judge(replies[0]) == Retry then 1 + Queries(replies[1..])
    else 1
  }

  /**
   * The poll as a loop: one query per reply, all with `requestId`, stopping at
   * the first reply that is verified or aborts.
   */
  method Poll(requestId: string, replies: seq<Attempt>) returns (outcome: Outcome, sent: seq<string>)
    ensures outcome == Result(replies)
    ensures |sent| == Queries(replies)
    ensures forall k :: 0 <= k < |sent| ==> sent[k] == requestId
  {
    sent := [];
    var i := 0;
    while i < |replies|
      invariant 0 <= i <= |replies|
      invariant |sent| == i && forall k :: 0 <= k < i ==> sent[k] == requestId
      invariant Result(replies) == Result(replies[i..])
      invariant Queries(replies) == i + Queries(replies[i..])
    {
      assert replies[i..][1..] == replies[i + 1..];
      sent := sent + [requestId];
      match Judge(replies[i])
      case Done =>
        return Verified(replies[i].data), sent;
      case Abort =>
        return Aborted, sent;
      case Retry =>
        i := i + 1;
    }
    outcome := StillPolling;
  }

  /**
   * If the k-th reply is the first that is not a retry, the poll makes exactly
   * k + 1 queries and returns that reply (verified) or nothing (aborted).
   */
  lemma {:induction false} StopsAtFirstTerminal(replies: seq<Attempt>, k: nat)
    requires k < |replies|
    requires forall j :: 0 <= j < k ==> Judge(replies[j]) == Retry
    requires Judge(replies[k]) != Retry
    ensures Queries(replies) == k + 1
    ensures Result(replies) == if Judge(replies[k]) == Done then Verified(replies[k].data) else Aborted
  {
    if k > 0 {
      assert Judge(replies[0]) == Retry;
      StopsAtFirstTerminal(replies[1..], k - 1);
    }
  }

  /** While every reply asks to retry, the poll queries once per reply and is still going. */
  lemma {:induction false} KeepsPolling(replies: seq<Attempt>)
    requires forall j :: 0 <= j < |replies| ==> Judge(replies[j]) == Retry
    ensures Queries(replies) == |replies|
    ensures Result(replies) == StillPolling
  {
    if replies != [] {
      KeepsPolling(replies[1..]);
    }
  }

  /** A reply body with the given status. */
  function StatusReply(status: string): Attempt {
    Reply(Obj(map["status" := Str(status)]))
  }

  /** Two `initiated` replies and then a `verified` one: three queries, the third reply returned. */
  lemma ExampleThirdReplyVerified()
    ensures var replies := [StatusReply("initiated"), StatusReply("initiated"), StatusReply("verified")];
      Queries(replies) == 3 && Result(replies) == Verified(replies[2].data)
  {
    var replies := [StatusReply("initiated"), StatusReply("initiated"), StatusReply("verified")];
    assert Str("initiated") != Str("verified");
    StopsAtFirstTerminal(replies, 2);
  }
}
