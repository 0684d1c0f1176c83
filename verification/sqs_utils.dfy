/** `SQSUtils`: hands the records to the queue, five at a time, falling back to one send
    per message for a batch the queue did not fully accept. The queue service is an
    input: the response to each batch send and the outcome of each single send. */
module Sqs {
  import opened Wrappers

  /** Largest group `batch_send_to_sqs` sends in one call. */
  const BatchSize := 5

  datatype Credentials = ExplicitKeys(accessKeyId: string, secretAccessKey: string) | DefaultChain

  /** The queue client, known here only by the credentials it was created with. */
  datatype SqsClient = SqsClient(credentials: Credentials)

  /** What `get_queue_url` returns: the whole response, kept as the queue handle. */
  datatype QueueUrlResponse = GetQueueUrlResponse(queueName: string)

  /** Python truthiness of an optional string: present and not empty. */
  predicate Truthy(v: Option<string>) {
    v.Some? && v.value != ""
  }

  /** The credential choice of the constructor: the explicit keys only when both are given
      and non-empty, the default credential chain otherwise. */
  function ChooseCredentials(accessKeyId: Option<string>, secretAccessKeyId: Option<string>): (c: Credentials)
    ensures c.ExplicitKeys? <==> Truthy(accessKeyId) && Truthy(secretAccessKeyId)
    ensures c.ExplicitKeys? ==> c.accessKeyId == accessKeyId.value && c.secretAccessKey == secretAccessKeyId.value
  {
    if Truthy(accessKeyId) && Truthy(secretAccessKeyId) then ExplicitKeys(accessKeyId.value, secretAccessKeyId.value)
    else DefaultChain
  }

  function Flatten<M>(gs: seq<seq<M>>): seq<M>
    decreases |gs|
  {
    if gs == [] then [] else gs[0] + Flatten(gs[1..])
  }

  lemma {:induction false} FlattenAppend<M>(a: seq<seq<M>>, b: seq<seq<M>>)
    ensures Flatten(a + b) == Flatten(a) + Flatten(b)
    decreases |a|
  {
    if a == [] {
      assert a + b == b;
    } else {
      assert (a + b)[0] == a[0] && (a + b)[1..] == a[1..] + b;
      FlattenAppend(a[1..], b);
    }
  }

  /** `grouper(articles, size)`: consecutive groups, all full but possibly the last. */
  function Grouper<M>(articles: seq<M>, size: nat): (gs: seq<seq<M>>)
    requires size > 0
    ensures Flatten(gs) == articles
    ensures forall i :: 0 <= i < |gs| ==> 0 < |gs[i]| <= size
    ensures forall i :: 0 <= i < |gs| - 1 ==> |gs[i]| == size
    decreases |articles|
  {
    if articles == [] then []
    else if |articles| <= size then [articles]
    else
      var rest := Grouper(articles[size..], size);
      assert articles == articles[..size] + articles[size..];
      [articles[..size]] + rest
  }

  /** The response to one `send_message_batch`: the `Failed` entries it lists (none, or
      the key absent), or the call raised. */
  datatype BatchResponse = BatchResponse(failed: seq<string>) | BatchRaises

  /** The group is resent message by message: the call raised, or `Failed` is non-empty. */
  predicate NeedsFallback(r: BatchResponse) {
    r.BatchRaises? || r.failed != []
  }

  /** A call made to the queue service. */
  datatype SqsCall<M> =
    | SendMessageBatch(queueUrl: QueueUrlResponse, entries: seq<M>)
    | SendMessage(queueUrl: QueueUrlResponse, body: M)

  /** One `send_message` per message, in order. */
  function SingleSends<M>(q: QueueUrlResponse, g: seq<M>): (calls: seq<SqsCall<M>>)
    ensures |calls| == |g|
    ensures forall j :: 0 <= j < |g| ==> calls[j] == SendMessage(q, g[j])
  {
    seq(|g|, j requires 0 <= j < |g| => SendMessage(q, g[j]))
  }

  /** The calls made for one group: one batch attempt, then every message of the group
      once more on its own when the batch was not fully accepted. */
  function GroupCalls<M>(q: QueueUrlResponse, g: seq<M>, response: BatchResponse): seq<SqsCall<M>> {
    [SendMessageBatch(q, g)] + (if NeedsFallback(response) then SingleSends(q, g) else [])
  }

  /** Reference reading of the calls made for the groups `gs`; `response(i)` answers the
      batch send of group `i`. */
  function Plan<M>(q: QueueUrlResponse, gs: seq<seq<M>>, response: nat -> BatchResponse): (calls: seq<SqsCall<M>>)
    ensures |gs| <= |calls|
    ensures forall k :: 0 <= k < |calls| ==> calls[k].queueUrl == q
    decreases |gs|
  {
    if gs == [] then []
    else
      var n := |gs| - 1;
      Plan(q, gs[..n], response) + GroupCalls(q, gs[n], response(n))
  }

  /** Messages of group `i` whose own send raised, in order (logged and dropped). */
  function FailedSends<M>(i: nat, g: seq<M>, sent: (nat, nat) -> bool): seq<M>
    decreases |g|
  {
    if g == [] then []
    else
      var n := |g| - 1;
      FailedSends(i, g[..n], sent) + (if sent(i, n) then [] else [g[n]])
  }

  /** Reference reading of the messages dropped over the groups `gs`; `sent(i, j)` tells
      whether the single send of message `j` of group `i` went through. */
  function Dropped<M>(gs: seq<seq<M>>, response: nat -> BatchResponse, sent: (nat, nat) -> bool): (dropped: seq<M>)
    ensures forall m :: m in dropped ==> exists i :: 0 <= i < |gs| && NeedsFallback(response(i)) && m in gs[i]
    decreases |gs|
  {
    if gs == [] then []
    else
      var n := |gs| - 1;
      FailedSendsWithin(n, gs[n], sent);
      assert forall i :: 0 <= i < n ==> gs[..n][i] == gs[i];
      Dropped(gs[..n], response, sent) + (if NeedsFallback(response(n)) then FailedSends(n, gs[n], sent) else [])
  }

  /** The groups resent message by message. */
  function FallbackGroups<M>(gs: seq<seq<M>>, response: nat -> BatchResponse): (fs: seq<seq<M>>)
    ensures |fs| <= |gs|
    decreases |gs|
  {
    if gs == [] then []
    else
      var n := |gs| - 1;
      FallbackGroups(gs[..n], response) + (if NeedsFallback(response(n)) then [gs[n]] else [])
  }

  /** The entries of the batch calls, in order. */
  function BatchAttempts<M>(calls: seq<SqsCall<M>>): seq<seq<M>>
    decreases |calls|
  {
    if calls == [] then []
    else
      var n := |calls| - 1;
      BatchAttempts(calls[..n]) + (if calls[n].SendMessageBatch? then [calls[n].entries] else [])
  }

  /** The bodies of the single-message calls, in order. */
  function SingleBodies<M>(calls: seq<SqsCall<M>>): seq<M>
    decreases |calls|
  {
    if calls == [] then []
    else
      var n := |calls| - 1;
      SingleBodies(calls[..n]) + (if calls[n].SendMessage? then [calls[n].body] else [])
  }

  lemma {:induction false} BatchAttemptsAppend<M>(a: seq<SqsCall<M>>, b: seq<SqsCall<M>>)
    ensures BatchAttempts(a + b) == BatchAttempts(a) + BatchAttempts(b)
    decreases |b|
  {
    if b != [] {
      var n := |b| - 1;
      assert (a + b)[..|a + b| - 1] == a + b[..n];
      BatchAttemptsAppend(a, b[..n]);
    } else {
      assert a + b == a;
    }
  }

  lemma {:induction false} SingleBodiesAppend<M>(a: seq<SqsCall<M>>, b: seq<SqsCall<M>>)
    ensures SingleBodies(a + b) == SingleBodies(a) + SingleBodies(b)
    decreases |b|
  {
    if b != [] {
      var n := |b| - 1;
      assert (a + b)[..|a + b| - 1] == a + b[..n];
      SingleBodiesAppend(a, b[..n]);
    } else {
      assert a + b == a;
    }
  }

  lemma {:induction false} SingleSendsBodies<M>(q: QueueUrlResponse, g: seq<M>)
    ensures BatchAttempts(SingleSends(q, g)) == []
    ensures SingleBodies(SingleSends(q, g)) == g
    decreases |g|
  {
    if g != [] {
      var n := |g| - 1;
      assert SingleSends(q, g)[..n] == SingleSends(q, g[..n]);
      SingleSendsBodies(q, g[..n]);
      assert g == g[..n] + [g[n]];
    }
  }

  /** One group's calls: exactly one batch attempt, with the group as entries; single sends
      of the whole group, in order, when the batch was not fully accepted, and none when
      it was. */
  lemma GroupCallsShape<M>(q: QueueUrlResponse, g: seq<M>, response: BatchResponse)
    ensures BatchAttempts(GroupCalls(q, g, response)) == [g]
    ensures SingleBodies(GroupCalls(q, g, response)) == if NeedsFallback(response) then g else []
  {
    var head: seq<SqsCall<M>> := [SendMessageBatch(q, g)];
    assert BatchAttempts(head) == [g] by {
      assert head[..0] == [];
    }
    assert SingleBodies(head) == [] by {
      assert head[..0] == [];
    }
    var tail: seq<SqsCall<M>> := if NeedsFallback(response) then SingleSends(q, g) else [];
    BatchAttemptsAppend(head, tail);
    SingleBodiesAppend(head, tail);
    SingleSendsBodies(q, g);
  }

  /** Each group gets exactly one batch attempt, in group order. */
  lemma {:induction false} OneBatchAttemptPerGroup<M>(q: QueueUrlResponse, gs: seq<seq<M>>, response: nat -> BatchResponse)
    ensures BatchAttempts(Plan(q, gs, response)) == gs
    decreases |gs|
  {
    if gs != [] {
      var n := |gs| - 1;
      PlanSnoc(q, gs, response);
      OneBatchAttemptPerGroup(q, gs[..n], response);
      GroupCallsShape(q, gs[n], response(n));
      BatchAttemptsAppend(Plan(q, gs[..n], response), GroupCalls(q, gs[n], response(n)));
    }
  }

  /** The last group's calls come after those of the groups before it. */
  lemma PlanSnoc<M>(q: QueueUrlResponse, gs: seq<seq<M>>, response: nat -> BatchResponse)
    requires gs != []
    ensures Plan(q, gs, response) == Plan(q, gs[..|gs| - 1], response) + GroupCalls(q, gs[|gs| - 1], response(|gs| - 1))
    ensures gs == gs[..|gs| - 1] + [gs[|gs| - 1]]
  {
    var n := |gs| - 1;
    assert gs == gs[..n] + [gs[n]];
  }

  /** The single sends are exactly the messages of the groups whose batch was not fully
      accepted, each once, in order; a fully accepted group adds none. */
  lemma {:induction false} SingleSendsAreFallbackMessages<M>(q: QueueUrlResponse, gs: seq<seq<M>>, response: nat -> BatchResponse)
    ensures SingleBodies(Plan(q, gs, response)) == Flatten(FallbackGroups(gs, response))
    decreases |gs|
  {
    if gs != [] {
      var n := |gs| - 1;
      PlanSnoc(q, gs, response);
      FallbackSnoc(gs, response);
      SingleSendsAreFallbackMessages(q, gs[..n], response);
      GroupCallsShape(q, gs[n], response(n));
      SingleBodiesAppend(Plan(q, gs[..n], response), GroupCalls(q, gs[n], response(n)));
    }
  }

  /** The messages of the fallback groups, extended by the last group when it fell back. */
  lemma FallbackSnoc<M>(gs: seq<seq<M>>, response: nat -> BatchResponse)
    requires gs != []
    ensures var n := |gs| - 1;
      Flatten(FallbackGroups(gs, response))
        == Flatten(FallbackGroups(gs[..n], response)) + if NeedsFallback(response(n)) then gs[n] else []
  {
    var n := |gs| - 1;
    var extra := if NeedsFallback(response(n)) then [gs[n]] else [];
    FlattenAppend(FallbackGroups(gs[..n], response), extra);
    if NeedsFallback(response(n)) {
      assert extra[1..] == [];
      assert Flatten(extra) == gs[n] + [];
    }
  }

  /** Nothing is retried beyond that: the calls are the batch attempts plus the single
      sends of the fallback groups. */
  lemma {:induction false} CallCount<M>(q: QueueUrlResponse, gs: seq<seq<M>>, response: nat -> BatchResponse)
    ensures |Plan(q, gs, response)| == |gs| + |Flatten(FallbackGroups(gs, response))|
    decreases |gs|
  {
    if gs != [] {
      var n := |gs| - 1;
      PlanSnoc(q, gs, response);
      FallbackSnoc(gs, response);
      CallCount(q, gs[..n], response);
    }
  }

  /** A message is dropped only when its group fell back and its own send failed. */
  lemma {:induction false} DroppedFromFallbackGroups<M>(gs: seq<seq<M>>, response: nat -> BatchResponse, sent: (nat, nat) -> bool)
    ensures |Dropped(gs, response, sent)| <= |Flatten(FallbackGroups(gs, response))|
    ensures forall m :: m in Dropped(gs, response, sent) ==> m in Flatten(FallbackGroups(gs, response))
    decreases |gs|
  {
    if gs != [] {
      var n := |gs| - 1;
      FallbackSnoc(gs, response);
      DroppedFromFallbackGroups(gs[..n], response, sent);
      FailedSendsWithin(n, gs[n], sent);
    }
  }

  lemma {:induction false} FailedSendsWithin<M>(i: nat, g: seq<M>, sent: (nat, nat) -> bool)
    ensures |FailedSends(i, g, sent)| <= |g|
    ensures forall m :: m in FailedSends(i, g, sent) ==> m in g
    decreases |g|
  {
    if g != [] {
      var n := |g| - 1;
      FailedSendsWithin(i, g[..n], sent);
      assert g == g[..n] + [g[n]];
    }
  }

  class SqsUtils {
    var sqsClient: SqsClient
    var queueUrl: QueueUrlResponse

    /** The client is created with the explicit keys only when both are given; the queue
        handle is the response of the queue-url lookup for `queueName`. */
    constructor (queueName: string, accessKeyId: Option<string>, secretAccessKeyId: Option<string>)
      ensures sqsClient.credentials.ExplicitKeys? <==> Truthy(accessKeyId) && Truthy(secretAccessKeyId)
      ensures sqsClient == SqsClient(ChooseCredentials(accessKeyId, secretAccessKeyId))
      ensures queueUrl == GetQueueUrlResponse(queueName)
    {
      sqsClient := SqsClient(ChooseCredentials(accessKeyId, secretAccessKeyId));
      queueUrl := GetQueueUrlResponse(queueName);
    }

    /** `batch_send_to_sqs`: returns the calls made to the queue and the messages whose
        single send failed; no failure of a send escapes it. */
    method BatchSendToSqs<M(==)>(articles: seq<M>, response: nat -> BatchResponse, sent: (nat, nat) -> bool)
      returns (calls: seq<SqsCall<M>>, dropped: seq<M>)
      ensures calls == Plan(queueUrl, Grouper(articles, BatchSize), response)
      ensures dropped == Dropped(Grouper(articles, BatchSize), response, sent)
    {
      var groups := Grouper(articles, BatchSize);
      calls, dropped := [], [];
      for i := 0 to |groups|
        invariant calls == Plan(queueUrl, groups[..i], response)
        invariant dropped == Dropped(groups[..i], response, sent)
      {
        var groupCalls, groupDropped := SendGroup(i, groups[i], response(i), sent);
        PlanStep(queueUrl, groups, i, response);
        DroppedStep(groups, i, response, sent);
        calls, dropped := calls + groupCalls, dropped + groupDropped;
      }
      assert groups[..|groups|] == groups;
    }

    /** One pass of the loop over the groups: the batch send of group `i`, and when the
        batch was not fully accepted, the single sends of its messages. */
    method SendGroup<M>(i: nat, batch: seq<M>, r: BatchResponse, sent: (nat, nat) -> bool)
      returns (groupCalls: seq<SqsCall<M>>, groupDropped: seq<M>)
      ensures groupCalls == GroupCalls(queueUrl, batch, r)
      ensures groupDropped == if NeedsFallback(r) then FailedSends(i, batch, sent) else []
    {
      var q := queueUrl;
      groupCalls, groupDropped := [SendMessageBatch(q, batch)], [];
      if r.BatchRaises? || r.failed != [] {
        // the batch raised, or listed failures and the code raised itself: the except
        // branch sends every message of the group on its own
        for j := 0 to |batch|
          invariant groupCalls == [SendMessageBatch(q, batch)] + SingleSends(q, batch[..j])
          invariant groupDropped == FailedSends(i, batch[..j], sent)
        {
          SingleSendsSnoc(q, batch, j);
          FailedSendsSnoc(i, batch, j, sent);
          groupCalls := groupCalls + [SendMessage(q, batch[j])];
          if !sent(i, j) {
            // logged with the failed message, and dropped
            groupDropped := groupDropped + [batch[j]];
          }
        }
        assert batch[..|batch|] == batch;
      }
    }
  }

  lemma PlanStep<M>(q: QueueUrlResponse, groups: seq<seq<M>>, i: nat, response: nat -> BatchResponse)
    requires i < |groups|
    ensures Plan(q, groups[..i + 1], response) == Plan(q, groups[..i], response) + GroupCalls(q, groups[i], response(i))
  {
    assert groups[..i + 1][..i] == groups[..i];
  }

  lemma DroppedStep<M>(groups: seq<seq<M>>, i: nat, response: nat -> BatchResponse, sent: (nat, nat) -> bool)
    requires i < |groups|
    ensures Dropped(groups[..i + 1], response, sent)
         == Dropped(groups[..i], response, sent) + if NeedsFallback(response(i)) then FailedSends(i, groups[i], sent) else []
  {
    assert groups[..i + 1][..i] == groups[..i];
  }

  lemma SingleSendsSnoc<M>(q: QueueUrlResponse, g: seq<M>, j: nat)
    requires j < |g|
    ensures SingleSends(q, g[..j + 1]) == SingleSends(q, g[..j]) + [SendMessage(q, g[j])]
  {
  }

  lemma FailedSendsSnoc<M>(i: nat, g: seq<M>, j: nat, sent: (nat, nat) -> bool)
    requires j < |g|
    ensures FailedSends(i, g[..j + 1], sent) == FailedSends(i, g[..j], sent) + if sent(i, j) then [] else [g[j]]
  {
    assert g[..j + 1][..j] == g[..j];
  }
}
