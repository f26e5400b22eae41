/**
 * `call_openai_api`: up to three attempts at one completion request.
 * A rate-limit error waits `2^i` seconds (plus a random fraction, not
 * modelled) and tries again; any other error gives up at once; a reply
 * gives the stripped text of its single completion.
 */
module ApiClient {

  import opened Wrappers
  import Text

  /** What one attempt at the request ends in. */
  datatype Outcome = RateLimit | OtherError | Ok(text: string)

  /** The endpoint as seen by one call: the outcome of attempt `i`
      (numbered from 0). */
  type Server = nat -> Outcome

  /** What one call did: its result, how many attempts it made, and the
      integer base of each wait it slept, in order. */
  datatype Trace = Trace(response: Option<string>, attempts: nat, waits: seq<nat>)

  const MaxAttempts: nat := 3

  function Pow2(i: nat): nat
  {
    if i == 0 then 1 else 2 * Pow2(i - 1)
  }

  /** The rest of a call from attempt `i` on. */
  function Run(server: Server, i: nat): Trace
    requires i <= MaxAttempts
    decreases MaxAttempts - i
  {
    if i == MaxAttempts then Trace(None, MaxAttempts, [])
    else
      match server(i)
      case Ok(text) => Trace(Some(Text.Strip(text)), i + 1, [])
      case OtherError => Trace(None, i + 1, [])
      case RateLimit =>
        var rest := Run(server, i + 1);
        Trace(rest.response, rest.attempts, [Pow2(i)] + rest.waits)
  }

  /** The first attempt at or after `i` that is not rate-limited, or
      `MaxAttempts` when every remaining one is. */
  function FirstSettled(server: Server, i: nat): (k: nat)
    requires i <= MaxAttempts
    ensures i <= k <= MaxAttempts
    ensures forall j :: i <= j < k ==> server(j) == RateLimit
    ensures k < MaxAttempts ==> server(k) != RateLimit
    decreases MaxAttempts - i
  {
    if i == MaxAttempts || server(i) != RateLimit then i else FirstSettled(server, i + 1)
  }

  /** Backoff bases `2^from, ..., 2^(to-1)`. */
  predicate Backoffs(waits: seq<nat>, from: nat, to: nat)
  {
    |waits| + from == to && forall j :: 0 <= j < |waits| ==> waits[j] == Pow2(from + j)
  }

  /** The whole behaviour of a call: with `k` the first attempt that is not
      rate-limited, the call made `k + 1` attempts (3 if there is none),
      waited `2^0 .. 2^(k-1)` before it, and returns the stripped text if
      attempt `k` is a reply and nothing otherwise. */
  lemma {:induction false} RunSettles(server: Server, i: nat)
    requires i <= MaxAttempts
    ensures var k := FirstSettled(server, i);
      && Run(server, i).attempts == (if k < MaxAttempts then k + 1 else MaxAttempts)
      && Backoffs(Run(server, i).waits, i, k)
      && Run(server, i).response ==
         (if k < MaxAttempts && server(k).Ok? then Some(Text.Strip(server(k).text)) else None)
    decreases MaxAttempts - i
  {
    if i < MaxAttempts && server(i) == RateLimit {
      RunSettles(server, i + 1);
      RetryStep(server, i);
      BackoffsCons(Run(server, i + 1).waits, i, FirstSettled(server, i));
    } else {
      assert FirstSettled(server, i) == i;
    }
  }

  /** A rate-limited attempt adds its wait in front of the rest of the call. */
  lemma RetryStep(server: Server, i: nat)
    requires i < MaxAttempts && server(i) == RateLimit
    ensures FirstSettled(server, i) == FirstSettled(server, i + 1)
    ensures var rest := Run(server, i + 1);
      Run(server, i) == Trace(rest.response, rest.attempts, [Pow2(i)] + rest.waits)
  {
  }

  lemma BackoffsCons(waits: seq<nat>, i: nat, k: nat)
    requires Backoffs(waits, i + 1, k)
    ensures Backoffs([Pow2(i)] + waits, i, k)
  {
    var w := [Pow2(i)] + waits;
    forall j | 0 <= j < |w| ensures w[j] == Pow2(i + j) {
      if j > 0 {
        assert w[j] == waits[j - 1];
      }
    }
  }

  /** `k < 3` rate limits and then a reply: the call returns the stripped
      reply after exactly `k` waits of base `2^0 .. 2^(k-1)`. */
  lemma RetryThenReply(server: Server, k: nat, text: string)
    requires k < MaxAttempts
    requires forall j :: 0 <= j < k ==> server(j) == RateLimit
    requires server(k) == Ok(text)
    ensures Run(server, 0).response == Some(Text.Strip(text))
    ensures Run(server, 0).attempts == k + 1
    ensures Backoffs(Run(server, 0).waits, 0, k)
  {
    assert FirstSettled(server, 0) == k;
    RunSettles(server, 0);
  }

  /** Any other error ends the call at once: no further attempt and no
      wait after it. */
  lemma OtherErrorGivesUp(server: Server, k: nat)
    requires k < MaxAttempts
    requires forall j :: 0 <= j < k ==> server(j) == RateLimit
    requires server(k) == OtherError
    ensures Run(server, 0).response == None
    ensures Run(server, 0).attempts == k + 1
    ensures Backoffs(Run(server, 0).waits, 0, k)
  {
    assert FirstSettled(server, 0) == k;
    RunSettles(server, 0);
  }

  /** Three rate limits in a row: the call returns nothing after exactly
      three attempts, having waited with bases 1, 2 and 4. */
  lemma RateLimitExhausted(server: Server)
    requires forall j :: 0 <= j < MaxAttempts ==> server(j) == RateLimit
    ensures Run(server, 0) == Trace(None, 3, [1, 2, 4])
  {
    RunSettles(server, 0);
    var w := Run(server, 0).waits;
    assert w[0] == Pow2(0) && w[1] == Pow2(1) && w[2] == Pow2(2);
  }

  /** No fourth attempt: a call depends only on the outcomes of attempts
      0, 1 and 2. */
  lemma {:induction false} RunSeesThreeAttempts(server: Server, other: Server, i: nat)
    requires i <= MaxAttempts
    requires forall j :: i <= j < MaxAttempts ==> server(j) == other(j)
    ensures Run(server, i) == Run(other, i)
    decreases MaxAttempts - i
  {
    if i < MaxAttempts {
      RunSeesThreeAttempts(server, other, i + 1);
    }
  }

  /** `call_openai_api`: the attempt loop with its early returns. */
  method CallApi(server: Server) returns (response: Option<string>, attempts: nat, waits: seq<nat>)
    ensures response == Run(server, 0).response
    ensures attempts == Run(server, 0).attempts
    ensures waits == Run(server, 0).waits
  {
    waits := [];
    for i := 0 to MaxAttempts
      invariant Run(server, 0) ==
        Trace(Run(server, i).response, Run(server, i).attempts, waits + Run(server, i).waits)
    {
      match server(i)
      case Ok(text) =>
        return Some(Text.Strip(text)), i + 1, waits;
      case OtherError =>
        return None, i + 1, waits;
      case RateLimit =>
        assert Run(server, i).waits == [Pow2(i)] + Run(server, i + 1).waits;
        waits := waits + [Pow2(i)];
    }
    return None, MaxAttempts, waits;
  }
}
