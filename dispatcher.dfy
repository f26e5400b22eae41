/**
 * `process_chunks`: empty both files, split the document, log the chunk
 * count, call the endpoint once per chunk, then take the results in the
 * order the calls complete, keeping each response and logging one
 * success or failure line per chunk, and finally write the responses to
 * the output file.
 *
 * The thread pool is not modelled: the completion order is an input, any
 * arrangement of the chunk indices.
 */
module Dispatcher {

  import opened Wrappers
  import Text
  import FileIO
  import Chunker
  import ApiClient

  /** The indices `0 .. n-1` in order. */
  function Range(n: nat): (r: seq<nat>)
    ensures |r| == n && forall i :: 0 <= i < n ==> r[i] == i
  {
    if n == 0 then [] else Range(n - 1) + [n - 1]
  }

  /** Every index in `xs` is below `m`. */
  predicate Below(xs: seq<nat>, m: nat)
  {
    forall k :: 0 <= k < |xs| ==> xs[k] < m
  }

  /** `order` lists every chunk index exactly once: the order in which
      `as_completed` hands out the calls. */
  predicate IsCompletionOrder(order: seq<nat>, n: nat)
  {
    multiset(order) == multiset(Range(n))
  }

  lemma CompletionOrderInRange(order: seq<nat>, n: nat)
    requires IsCompletionOrder(order, n)
    ensures |order| == n
    ensures Below(order, n)
  {
    assert |order| == |multiset(order)| == |multiset(Range(n))| == n;
    forall k | 0 <= k < |order| ensures order[k] < n {
      assert order[k] in multiset(order);
      assert order[k] in Range(n);
    }
  }

  /** The results taken in completion order. */
  function Reorder(results: seq<Option<string>>, order: seq<nat>): seq<Option<string>>
    requires Below(order, |results|)
  {
    seq(|order|, k requires 0 <= k < |order| => results[order[k]])
  }

  lemma ReorderConcat(results: seq<Option<string>>, a: seq<nat>, b: seq<nat>)
    requires Below(a, |results|)
    requires Below(b, |results|)
    ensures forall k :: 0 <= k < |a + b| ==> (a + b)[k] < |results|
    ensures Reorder(results, a + b) == Reorder(results, a) + Reorder(results, b)
  {
    assert forall k :: 0 <= k < |a + b| ==> (a + b)[k] < |results| by {
      forall k | 0 <= k < |a + b| ensures (a + b)[k] < |results| {
        if k >= |a| {
          assert (a + b)[k] == b[k - |a|];
        }
      }
    }
  }

  lemma ReorderPrefix(results: seq<Option<string>>, order: seq<nat>, m: nat)
    requires m <= |results|
    requires Below(order, m)
    ensures Reorder(results[..m], order) == Reorder(results, order)
  {
  }

  /** Taking the last chunk index out of a completion order leaves a
      completion order of the other chunks. */
  lemma SplitAtLast(order: seq<nat>, n: nat) returns (before: seq<nat>, after: seq<nat>)
    requires n > 0 && IsCompletionOrder(order, n)
    ensures order == before + [n - 1] + after
    ensures IsCompletionOrder(before + after, n - 1)
    ensures Below(before, n - 1) && Below(after, n - 1)
  {
    var last: nat := n - 1;
    assert Range(n) == Range(last) + [last];
    assert last in multiset(Range(n));
    assert last in multiset(order);
    var p :| 0 <= p < |order| && order[p] == last;
    before, after := order[..p], order[p + 1..];
    assert order == before + [last] + after;
    RemoveOne(before, after, last, Range(last));
    PartsInRange(before, after, last);
  }

  /** Cancelling one occurrence of `x` on both sides of a multiset equation. */
  lemma RemoveOne(before: seq<nat>, after: seq<nat>, x: nat, others: seq<nat>)
    requires multiset(before + [x] + after) == multiset(others + [x])
    ensures multiset(before + after) == multiset(others)
  {
    assert multiset(before + [x] + after) == multiset(before + after) + multiset{x};
    assert multiset(others + [x]) == multiset(others) + multiset{x};
    forall y: int ensures multiset(before + after)[y] == multiset(others)[y] {
      assert multiset(before + [x] + after)[y] == multiset(before + after)[y] + multiset{x}[y];
      assert multiset(others + [x])[y] == multiset(others)[y] + multiset{x}[y];
    }
  }

  lemma PartsInRange(before: seq<nat>, after: seq<nat>, m: nat)
    requires IsCompletionOrder(before + after, m)
    ensures Below(before, m)
    ensures Below(after, m)
  {
    var rest := before + after;
    CompletionOrderInRange(rest, m);
    assert forall k :: 0 <= k < |before| ==> before[k] == rest[k];
    assert forall k :: 0 <= k < |after| ==> after[k] == rest[|before| + k];
  }

  lemma DropLast(s: seq<Option<string>>)
    requires |s| > 0
    ensures s == s[..|s| - 1] + [s[|s| - 1]]
  {
  }

  /** The completion order with the last chunk somewhere in the middle. */
  lemma ReorderAroundLast(results: seq<Option<string>>, order: seq<nat>, before: seq<nat>, after: seq<nat>)
    requires |results| > 0 && order == before + [|results| - 1] + after
    requires Below(before, |results| - 1)
    requires Below(after, |results| - 1)
    ensures Below(order, |results|)
    ensures Reorder(results, order) ==
      Reorder(results[..|results| - 1], before) + [results[|results| - 1]] +
      Reorder(results[..|results| - 1], after)
  {
    var last := |results| - 1;
    ReorderPrefix(results, before, last);
    ReorderPrefix(results, after, last);
    ReorderConcat(results, before, [last]);
    ReorderConcat(results, before + [last], after);
  }

  /** The step of the permutation proof: the last chunk's result sits
      between the results of the chunks completed before and after it. */
  lemma ReorderPermutesStep(results: seq<Option<string>>, order: seq<nat>, before: seq<nat>, after: seq<nat>)
    requires |results| > 0 && order == before + [|results| - 1] + after
    requires Below(before, |results| - 1)
    requires Below(after, |results| - 1)
    requires multiset(Reorder(results[..|results| - 1], before + after)) == multiset(results[..|results| - 1])
    ensures Below(order, |results|)
    ensures multiset(Reorder(results, order)) == multiset(results)
  {
    var shorter := results[..|results| - 1];
    var x := results[|results| - 1];
    ReorderConcat(shorter, before, after);
    assert multiset(Reorder(shorter, before) + Reorder(shorter, after)) == multiset(shorter);
    ReorderAroundLast(results, order, before, after);
    var a, b := Reorder(shorter, before), Reorder(shorter, after);
    calc {
      multiset(Reorder(results, order));
      multiset(a + [x] + b);
      multiset(a + b) + multiset{x};
      multiset(shorter) + multiset{x};
      { DropLast(results); }
      multiset(results);
    }
  }

  /** Taking the results in completion order loses none and adds none. */
  lemma {:induction false} ReorderPermutes(results: seq<Option<string>>, order: seq<nat>)
    requires IsCompletionOrder(order, |results|)
    ensures Below(order, |results|)
    ensures multiset(Reorder(results, order)) == multiset(results)
    decreases |results|
  {
    var n: nat := |results|;
    if n == 0 {
      CompletionOrderInRange(order, n);
    } else {
      var before, after := SplitAtLast(order, n);
      var shorter := results[..n - 1];
      assert |shorter| == n - 1;
      ReorderPermutes(shorter, before + after);
      ReorderPermutesStep(results, order, before, after);
    }
  }

  /** The responses of the results that are not `None`, in order. */
  function Somes(xs: seq<Option<string>>): seq<string>
  {
    if xs == [] then []
    else (if xs[0].Some? then [xs[0].value] else []) + Somes(xs[1..])
  }

  /** Filtering keeps the order: the responses of two runs of results are
      the responses of the first followed by those of the second. */
  lemma {:induction false} SomesAppend(xs: seq<Option<string>>, ys: seq<Option<string>>)
    ensures Somes(xs + ys) == Somes(xs) + Somes(ys)
    decreases |xs|
  {
    if xs == [] {
      assert xs + ys == ys;
    } else {
      var head := if xs[0].Some? then [xs[0].value] else [];
      assert (xs + ys)[0] == xs[0];
      assert (xs + ys)[1..] == xs[1..] + ys;
      SomesAppend(xs[1..], ys);
      assert Somes(xs + ys) == head + Somes(xs[1..] + ys);
      assert Somes(xs) == head + Somes(xs[1..]);
    }
  }

  /** Each response occurs as often as the results carry it: the
      responses are exactly the non-`None` results. */
  lemma {:induction false} SomesCount(xs: seq<Option<string>>, v: string)
    ensures multiset(Somes(xs))[v] == multiset(xs)[Some(v)]
    decreases |xs|
  {
    if xs != [] {
      var tail := xs[1..];
      var head := if xs[0].Some? then [xs[0].value] else [];
      SomesCount(tail, v);
      assert xs == [xs[0]] + tail;
      assert multiset(xs) == multiset{xs[0]} + multiset(tail);
      assert multiset(Somes(xs)) == multiset(head) + multiset(Somes(tail));
    }
  }

  /** Whatever the completion order, the same responses are collected,
      only possibly in another order; in particular as many as chunks
      succeeded. */
  lemma ResponsesIndependentOfOrder(results: seq<Option<string>>, order: seq<nat>)
    requires IsCompletionOrder(order, |results|)
    ensures Below(order, |results|)
    ensures multiset(Somes(Reorder(results, order))) == multiset(Somes(results))
    ensures |Somes(Reorder(results, order))| == |Somes(results)|
  {
    ReorderPermutes(results, order);
    var completed := Reorder(results, order);
    forall v ensures multiset(Somes(completed))[v] == multiset(Somes(results))[v] {
      SomesCount(completed, v);
      SomesCount(results, v);
    }
    assert multiset(Somes(completed)) == multiset(Somes(results));
    assert |multiset(Somes(completed))| == |multiset(Somes(results))|;
  }

  const SuccessMessage: string := "Successfully processed chunk"
  const FailureMessage: string := "Failed to process chunk"

  /** The log line for one completed call. */
  function Tag(result: Option<string>): string
  {
    if result.None? then FailureMessage else SuccessMessage
  }

  /** One log line per completed call, in completion order. */
  function TagLines(completed: seq<Option<string>>): seq<string>
  {
    seq(|completed|, k requires 0 <= k < |completed| => Tag(completed[k]))
  }

  /** The log has as many success lines as responses were collected, and
      the others are failure lines. */
  lemma {:induction false} SuccessLines(completed: seq<Option<string>>)
    ensures multiset(TagLines(completed))[SuccessMessage] == |Somes(completed)|
    ensures multiset(TagLines(completed))[FailureMessage] == |completed| - |Somes(completed)|
    decreases |completed|
  {
    if completed != [] {
      SuccessLines(completed[1..]);
      assert TagLines(completed) == [Tag(completed[0])] + TagLines(completed[1..]);
      assert SuccessMessage != FailureMessage by {
        assert SuccessMessage[0] != FailureMessage[0];
      }
    }
  }

  /** The first log line: `f"Number of chunks: {nCh}"`. */
  function ChunkCountMessage(n: nat): string
  {
    "Number of chunks: " + Text.NatToDecimal(n)
  }

  /** Every line the log receives: the chunk count, then one line per
      completed call. */
  function LogLines(n: nat, completed: seq<Option<string>>): seq<string>
  {
    [ChunkCountMessage(n)] + TagLines(completed)
  }

  /** The results of calling the endpoint once for each chunk. */
  function ChunkResults(chunks: seq<string>, api: (nat, string) -> ApiClient.Server): (r: seq<Option<string>>)
    ensures |r| == |chunks|
  {
    if chunks == [] then []
    else
      var c := |chunks| - 1;
      ChunkResults(chunks[..c], api) + [ApiClient.Run(api(c, chunks[c]), 0).response]
  }

  /** Call `c` of a run gets chunk `c` and the endpoint's answers to it. */
  lemma {:induction false} ChunkResultAt(chunks: seq<string>, api: (nat, string) -> ApiClient.Server, c: nat)
    requires c < |chunks|
    ensures ChunkResults(chunks, api)[c] == ApiClient.Run(api(c, chunks[c]), 0).response
    decreases |chunks|
  {
    var last := |chunks| - 1;
    var prefix := chunks[..last];
    var r := ApiClient.Run(api(last, chunks[last]), 0).response;
    assert ChunkResults(chunks, api) == ChunkResults(prefix, api) + [r];
    if c < last {
      ChunkResultAt(prefix, api, c);
      assert prefix[c] == chunks[c];
    } else {
      assert c == last;
      assert ChunkResults(chunks, api)[c] == r;
    }
  }

  /** The log reads back as exactly the lines written to it: the chunk
      count and then one outcome line per completed call. */
  lemma LogReadsBack(n: nat, completed: seq<Option<string>>)
    ensures FileIO.ReadLines(FileIO.Terminated(LogLines(n, completed))) == LogLines(n, completed)
  {
    LogLinesSingle(n, completed);
    FileIO.ReadTerminated(LogLines(n, completed));
  }

  /** No line written to the log holds a newline of its own. */
  lemma LogLinesSingle(n: nat, completed: seq<Option<string>>)
    ensures FileIO.SingleLines(LogLines(n, completed))
  {
    var lines := LogLines(n, completed);
    CountHasNoNewline(n);
    forall k | 0 <= k < |lines| ensures '\n' !in lines[k] {
      if k > 0 {
        assert lines[k] == Tag(completed[k - 1]);
      }
    }
  }

  lemma CountHasNoNewline(n: nat)
    ensures '\n' !in ChunkCountMessage(n)
  {
    var digits := Text.NatToDecimal(n);
    assert forall i :: 0 <= i < |digits| ==> digits[i] != '\n';
    assert ChunkCountMessage(n) == "Number of chunks: " + digits;
  }

  /** What a reader of the two files finds after a run with `results` per
      chunk, taken in `order`: the log reads as `1 + n` lines, the chunk
      count first and then one outcome line per chunk, with as many success
      lines as chunks succeeded; the output has one response per succeeded
      chunk, and holds exactly that many newlines and reads as exactly those
      lines when no response holds a newline of its own. */
  lemma RunReport(results: seq<Option<string>>, order: seq<nat>)
    requires IsCompletionOrder(order, |results|)
    ensures Below(order, |results|)
    ensures var completed := Reorder(results, order);
      var log := FileIO.ReadLines(FileIO.Terminated(LogLines(|results|, completed)));
      && |log| == 1 + |results|
      && log[0] == ChunkCountMessage(|results|)
      && multiset(log[1..])[SuccessMessage] == |Somes(results)|
      && multiset(log[1..])[FailureMessage] == |results| - |Somes(results)|
    ensures var responses := Somes(Reorder(results, order));
      && |responses| == |Somes(results)|
      && (FileIO.SingleLines(responses) ==>
            && FileIO.ReadLines(FileIO.Terminated(responses)) == responses
            && multiset(FileIO.Terminated(responses))['\n'] == |Somes(results)|)
  {
    var n := |results|;
    CompletionOrderInRange(order, n);
    ResponsesIndependentOfOrder(results, order);
    var completed := Reorder(results, order);
    LogReadsBack(n, completed);
    var lines := LogLines(n, completed);
    assert |lines| == 1 + n;
    assert lines[1..] == TagLines(completed);
    SuccessLines(completed);
    var responses := Somes(completed);
    if FileIO.SingleLines(responses) {
      FileIO.ReadTerminated(responses);
      FileIO.TerminatedNewlines(responses);
    }
  }

  /** One more completed call extends both the collected responses and the
      log lines by what that call contributes. */
  lemma CollectStep(completed: seq<Option<string>>, k: nat)
    requires k < |completed|
    ensures Somes(completed[..k + 1]) ==
      Somes(completed[..k]) + (if completed[k].Some? then [completed[k].value] else [])
    ensures TagLines(completed[..k + 1]) == TagLines(completed[..k]) + [Tag(completed[k])]
  {
    assert completed[..k + 1] == completed[..k] + [completed[k]];
    SomesAppend(completed[..k], [completed[k]]);
    assert Somes([completed[k]]) == (if completed[k].Some? then [completed[k].value] else []) by {
      assert [completed[k]][1..] == [];
    }
  }

  /** The submission step: exactly one call per chunk, the result of call
      `c` being what the endpoint's answers to chunk `c` give. */
  method SubmitAll(chunks: seq<string>, api: (nat, string) -> ApiClient.Server)
    returns (results: seq<Option<string>>)
    ensures results == ChunkResults(chunks, api)
  {
    results := [];
    for c := 0 to |chunks|
      invariant results == ChunkResults(chunks[..c], api)
    {
      var response, _, _ := ApiClient.CallApi(api(c, chunks[c]));
      assert chunks[..c + 1][..c] == chunks[..c];
      results := results + [response];
    }
    assert chunks[..|chunks|] == chunks;
  }

  lemma AppendLine(start: string, logged: string, line: string)
    ensures start + logged + line + "\n" == start + (logged + line + "\n")
  {
  }

  /** The `as_completed` loop: each result, in completion order, is kept
      when it is a response, and logged as a success or a failure. */
  method CollectResponses(log: FileIO.TextFile, results: seq<Option<string>>, order: seq<nat>)
    returns (responses: seq<string>)
    requires Below(order, |results|)
    modifies log
    ensures responses == Somes(Reorder(results, order))
    ensures log.content == old(log.content) + FileIO.Terminated(TagLines(Reorder(results, order)))
  {
    ghost var completed := Reorder(results, order);
    ghost var start := log.content;
    responses := [];
    assert TagLines(completed[..0]) == [];
    for k := 0 to |order|
      invariant responses == Somes(completed[..k])
      invariant log.content == start + FileIO.Terminated(TagLines(completed[..k]))
    {
      var response := results[order[k]];
      assert response == completed[k];
      CollectStep(completed, k);
      ghost var logged := FileIO.Terminated(TagLines(completed[..k]));
      FileIO.TerminatedSnoc(TagLines(completed[..k]), Tag(response));
      ghost var line := Tag(response);
      if response.None? {
        FileIO.LogToFile(log, FailureMessage);
        assert log.content == start + logged + line + "\n";
      } else {
        responses := responses + [response.value];
        FileIO.LogToFile(log, SuccessMessage);
        assert log.content == start + logged + line + "\n";
      }
      AppendLine(start, logged, line);
    }
    assert completed[..|order|] == completed;
  }

  /** `process_chunks`. Both files end as a reader of the run expects: the
      output holds the collected responses one per line in completion
      order, and the log (when it is another file than the output) holds
      the chunk count followed by one outcome line per chunk. */
  method ProcessChunks(output: FileIO.TextFile, log: FileIO.TextFile, text: string,
                       encoding: Chunker.Encoding, chunksize: int,
                       api: (nat, string) -> ApiClient.Server, order: seq<nat>)
    requires chunksize != 0
    requires IsCompletionOrder(order, |Chunker.TokenWindows(encoding.encode(text), chunksize)|)
    modifies output, log
    ensures var chunks := Chunker.DecodeAll(Chunker.TokenWindows(encoding.encode(text), chunksize), encoding.decode);
      var results := ChunkResults(chunks, api);
      Below(order, |results|) &&
      var completed := Reorder(results, order);
      && output.content == FileIO.Terminated(Somes(completed))
      && (output != log ==> log.content == FileIO.Terminated(LogLines(|chunks|, completed)))
  {
    FileIO.InitializeFiles(output, log);
    var chunks := Chunker.SplitIntoChunks(text, encoding, chunksize);
    var nCh := |chunks|;
    FileIO.LogToFile(log, ChunkCountMessage(nCh));
    FileIO.TerminatedSnoc([], ChunkCountMessage(nCh));
    assert [] + [ChunkCountMessage(nCh)] == [ChunkCountMessage(nCh)];
    var results := SubmitAll(chunks, api);
    CompletionOrderInRange(order, nCh);
    var responses := CollectResponses(log, results, order);
    ghost var completed := Reorder(results, order);
    FileIO.TerminatedAppend([ChunkCountMessage(nCh)], TagLines(completed));
    assert log.content == FileIO.Terminated(LogLines(nCh, completed));
    ghost var logged := log.content;
    FileIO.SaveToFile(responses, output);
    assert output != log ==> log.content == logged;
  }
}
