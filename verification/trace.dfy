/** A connection's traffic as a sequence of events seen by the handler, one
    at a time, with each write completing before the next event. Requests
    and responses are matched by position in the queue alone, and the
    handler stops seeing traffic once it has removed itself. */
module Trace {
  import opened Types
  import opened Pipeline
  import opened ServerExtensionHandler

  datatype Event = Inbound(msg: Msg) | Outbound(msg: Msg, outcome: Outcome)

  /** One event. While the handler is in the pipeline an inbound message
      runs the inbound path and an outbound one the outbound path, whose
      listeners then fire with the write's outcome; once it has left, the
      event passes by untouched. */
  function Step(h: Handler, u: Util, s: State, e: Event): (r: StepResult)
    ensures !Active(s) ==> r == StepResult(s, e.msg)
    ensures e.Inbound? ==> r.forwarded == e.msg && r.state.pipeline == s.pipeline
    ensures e.Outbound? && e.outcome.Failure? ==> r.state.pipeline == s.pipeline
  {
    if !Active(s) then StepResult(s, e.msg)
    else
      match e
      case Inbound(m) =>
        ChannelRead(h, u, s, m)
      case Outbound(m, outcome) =>
        var w := Write(h, u, s, m);
        StepResult(w.state.(pipeline := OnComplete(w.state.pipeline, w.listeners, outcome)), w.forwarded)
  }

  /** The state after `events`, in order. */
  function Run(h: Handler, u: Util, s: State, events: seq<Event>): State
    decreases |events|
  {
    if events == [] then s else Run(h, u, Step(h, u, s, events[0]).state, events[1..])
  }

  lemma {:induction false} RunAppend(h: Handler, u: Util, s: State, a: seq<Event>, b: seq<Event>)
    ensures Run(h, u, s, a + b) == Run(h, u, Run(h, u, s, a), b)
    decreases |a|
  {
    if a == [] {
      assert a + b == b;
    } else {
      assert (a + b)[0] == a[0];
      assert (a + b)[1..] == a[1..] + b;
      RunAppend(h, u, Step(h, u, s, a[0]).state, a[1..], b);
    }
  }

  /** The pipeline stops delivering events to a handler that has removed
      itself. `Step` models that by letting every event pass once the
      handler is detached; this lifts it to whole runs: nothing the handler
      holds changes any more. */
  lemma {:induction false} RetiredIsInert(h: Handler, u: Util, s: State, events: seq<Event>)
    requires !Active(s)
    ensures Run(h, u, s, events) == s
    decreases |events|
  {
    if events != [] {
      RetiredIsInert(h, u, s, events[1..]);
    }
  }

  /** Inbound requests with the given header blocks. */
  function Requests(reqs: seq<Headers>): (es: seq<Event>)
    ensures |es| == |reqs|
    ensures forall i :: 0 <= i < |reqs| ==> es[i] == Inbound(Request(reqs[i]))
  {
    seq(|reqs|, i requires 0 <= i < |reqs| => Inbound(Request(reqs[i])))
  }

  /** The entries the requests with header blocks `reqs` queue, in order. */
  function OfferedAll(h: Handler, u: Util, reqs: seq<Headers>): (entries: seq<seq<Ext>>)
    ensures |entries| == |reqs|
    ensures forall i :: 0 <= i < |reqs| ==> entries[i] == Offered(h, u, reqs[i])
  {
    seq(|reqs|, i requires 0 <= i < |reqs| => Offered(h, u, reqs[i]))
  }

  lemma StepRequest(h: Handler, u: Util, s: State, headers: Headers)
    requires Active(s)
    ensures Step(h, u, s, Inbound(Request(headers))).state
      == State(s.queue + [Offered(h, u, headers)], s.pipeline)
  {
  }

  /** Requests queue one entry each, in arrival order, and leave the
      pipeline alone. */
  lemma {:induction false} RequestsQueueInOrder(h: Handler, u: Util, s: State, reqs: seq<Headers>)
    requires Active(s)
    ensures Run(h, u, s, Requests(reqs)) == State(s.queue + OfferedAll(h, u, reqs), s.pipeline)
    decreases |reqs|
  {
    if reqs != [] {
      var s1 := State(s.queue + [Offered(h, u, reqs[0])], s.pipeline);
      assert Run(h, u, s, Requests(reqs)) == Run(h, u, s1, Requests(reqs[1..])) by {
        assert Requests(reqs)[0] == Inbound(Request(reqs[0]));
        assert Requests(reqs)[1..] == Requests(reqs[1..]);
        StepRequest(h, u, s, reqs[0]);
      }
      RequestsQueueInOrder(h, u, s1, reqs[1..]);
      assert s1.queue + OfferedAll(h, u, reqs[1..]) == s.queue + OfferedAll(h, u, reqs);
    }
  }

  /** The event writes a response after which the handler stays: any
      response that is not a 101 upgrade, or a 101 upgrade whose write
      fails. Each still takes its entry off the queue. */
  predicate KeepsHandler(u: Util, e: Event)
  {
    e.Outbound? && e.msg.Response? && (!IsUpgradeResponse(u, e.msg) || e.outcome.Failure?)
  }

  lemma StepKeepsHandler(h: Handler, u: Util, s: State, e: Event)
    requires Active(s) && KeepsHandler(u, e)
    ensures Step(h, u, s, e).state == State(if s.queue == [] then [] else s.queue[1..], s.pipeline)
  {
    var w := Write(h, u, s, e.msg);
    assert OnComplete(w.state.pipeline, w.listeners, e.outcome) == s.pipeline;
    if s.queue != [] {
      assert [s.queue[0]] + w.state.queue == s.queue;
    }
  }

  /** Responses after which the handler stays take one entry each off the
      front of the queue, while there is one (a poll of an empty queue
      yields nothing and leaves it empty), and leave the handler in
      place. */
  lemma {:induction false} ResponsesConsumeInOrder(h: Handler, u: Util, s: State, resps: seq<Event>)
    requires Active(s)
    requires forall i :: 0 <= i < |resps| ==> KeepsHandler(u, resps[i])
    ensures var n := if |resps| <= |s.queue| then |resps| else |s.queue|;
      Run(h, u, s, resps) == State(s.queue[n..], s.pipeline)
    decreases |resps|
  {
    if resps != [] {
      StepKeepsHandler(h, u, s, resps[0]);
      var s1 := Step(h, u, s, resps[0]).state;
      assert forall i :: 0 <= i < |resps| - 1 ==> resps[1..][i] == resps[i + 1];
      ResponsesConsumeInOrder(h, u, s1, resps[1..]);
      if s.queue != [] {
        var n1 := if |resps| - 1 <= |s1.queue| then |resps| - 1 else |s1.queue|;
        assert s.queue[1..][n1..] == s.queue[n1 + 1..];
      }
    }
  }

  /** Request and response are matched by position: after `reqs` arrive
      and the first `|consumed|` responses leave the handler in place
      (whether they turn the upgrade down or their write fails), a
      successful upgrade response installs exactly the extensions
      negotiated for the next request in line, where the handler stood,
      the handler leaves, and the response goes out with the extensions
      header merged from that same entry. */
  lemma Correlation(h: Handler, u: Util, before: seq<StageId>, after: seq<StageId>,
                    reqs: seq<Headers>, consumed: seq<Event>, upgrade: Msg)
    requires |consumed| < |reqs|
    requires forall i :: 0 <= i < |consumed| ==> KeepsHandler(u, consumed[i])
    requires IsUpgradeResponse(u, upgrade)
    ensures var s := Run(h, u, Init(Attached(before, after)),
                         Requests(reqs) + consumed + [Outbound(upgrade, Success)]);
      && !Active(s)
      && Stages(s.pipeline) == before + CodecStages(Offered(h, u, reqs[|consumed|])) + after
    ensures var s2 := Run(h, u, Init(Attached(before, after)), Requests(reqs) + consumed);
      var out := Step(h, u, s2, Outbound(upgrade, Success)).forwarded;
      var exts := Offered(h, u, reqs[|consumed|]);
      && (exts != [] && MergedValue(u, upgrade, exts).Some? ==>
            Get(out.headers, SecWebSocketExtensions) == MergedValue(u, upgrade, exts))
      && (!(exts != [] && MergedValue(u, upgrade, exts).Some?) ==> out == upgrade)
  {
    var s0 := Init(Attached(before, after));
    RequestsQueueInOrder(h, u, s0, reqs);
    var s1 := Run(h, u, s0, Requests(reqs));
    assert s1.queue == OfferedAll(h, u, reqs);
    ResponsesConsumeInOrder(h, u, s1, consumed);
    var s2 := Run(h, u, s1, consumed);
    assert s2.queue[0] == Offered(h, u, reqs[|consumed|]);
    UpgradeCompletes(h, u, s2, upgrade);
    var s3 := Step(h, u, s2, Outbound(upgrade, Success)).state;
    assert Run(h, u, s2, [Outbound(upgrade, Success)]) == s3;
    RunAppend(h, u, s0, Requests(reqs), consumed);
    RunAppend(h, u, s0, Requests(reqs) + consumed, [Outbound(upgrade, Success)]);
    assert Step(h, u, s2, Outbound(upgrade, Success)).forwarded == Write(h, u, s2, upgrade).forwarded;
  }

  /** A 101 upgrade response retires the handler exactly when its write
      succeeds; a failed write leaves the pipeline exactly as it was, so
      later traffic still runs through the handler. */
  lemma UpgradeRetiresIffWritten(h: Handler, u: Util, s: State, msg: Msg, outcome: Outcome)
    requires Active(s)
    requires IsUpgradeResponse(u, msg)
    ensures !Active(Step(h, u, s, Outbound(msg, outcome)).state) <==> outcome == Success
    ensures outcome == Failure ==> Step(h, u, s, Outbound(msg, outcome)).state.pipeline == s.pipeline
  {
    if outcome == Success {
      UpgradeCompletes(h, u, s, msg);
    }
  }

  /** Only an upgrade response can take the handler out of the pipeline or
      install codecs: any other message leaves the pipeline as it was. */
  lemma OnlyUpgradesChangePipeline(h: Handler, u: Util, s: State, e: Event)
    requires !(e.Outbound? && IsUpgradeResponse(u, e.msg))
    ensures Step(h, u, s, e).state.pipeline == s.pipeline
  {
  }
}
