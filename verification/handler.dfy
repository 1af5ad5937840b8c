/** The negotiating handler itself: its construction, the inbound path that
    negotiates and queues, the outbound path that dequeues, rewrites the
    extensions header of a 101 response and registers what to do once the
    response is written, and the completion of that write. */
module ServerExtensionHandler {
  import opened Types
  import opened ReservedBits
  import opened Negotiation
  import opened Pipeline

  /** A handler's configuration: its handshakers in priority order. The
      list is fixed at construction; no operation below changes it. */
  datatype Handler = Handler(handshakers: seq<Handshaker>)

  /** Why a handler cannot be built. */
  datatype ConfigError = EmptyHandshakers

  /** The handler's per-connection state: one entry per inbound request
      whose response has not been written yet, oldest first, and the
      channel pipeline. */
  datatype State = State(queue: seq<seq<Ext>>, pipeline: Pipe)

  /** A deferred action registered on the write of a response; it runs
      when the write completes, and only if it succeeded. */
  datatype Listener = InstallCodecsOnSuccess(exts: seq<Ext>) | RemoveSelfOnSuccess

  /** The state after one event and the message passed on. */
  datatype StepResult = StepResult(state: State, forwarded: Msg)

  datatype WriteResult = WriteResult(state: State, forwarded: Msg, listeners: seq<Listener>)

  /** Builds a handler; an empty handshaker list is refused. */
  function NewHandler(hs: seq<Handshaker>): (r: Result<Handler, ConfigError>)
    ensures r.Ok? <==> |hs| > 0
    ensures r.Ok? ==> r.value.handshakers == hs
  {
    if |hs| == 0 then Err(EmptyHandshakers) else Ok(Handler(hs))
  }

  /** A freshly added handler: nothing queued yet. */
  function Init(pipeline: Pipe): State
  {
    State([], pipeline)
  }

  /** The handler still sits in the pipeline and so still sees traffic. */
  predicate Active(s: State)
  {
    s.pipeline.Attached?
  }

  /** The extensions negotiated for an inbound request with `headers`:
      none unless the request is a WebSocket upgrade that carries an
      extensions header. */
  function Offered(h: Handler, u: Util, headers: Headers): (acc: seq<Ext>)
    ensures !u.isWebsocketUpgrade(headers) || SecWebSocketExtensions !in headers ==> acc == []
    ensures u.isWebsocketUpgrade(headers) && SecWebSocketExtensions in headers ==>
      acc == Negotiate(h.handshakers, u.extractExtensions(headers[SecWebSocketExtensions]))
    ensures PairwiseDisjoint(acc)
  {
    match Get(headers, SecWebSocketExtensions)
    case Some(value) =>
      if u.isWebsocketUpgrade(headers) then
        NegotiateSound(h.handshakers, u.extractExtensions(value));
        Negotiate(h.handshakers, u.extractExtensions(value))
      else []
    case None => []
  }

  /** The inbound path: a request queues its negotiated list (possibly
      empty); every message is passed on unchanged. */
  function ChannelRead(h: Handler, u: Util, s: State, msg: Msg): (r: StepResult)
    ensures r.forwarded == msg
    ensures r.state.pipeline == s.pipeline
    ensures msg.Request? ==> r.state.queue == s.queue + [Offered(h, u, msg.headers)]
    ensures !msg.Request? ==> r.state == s
  {
    if msg.Request? then
      StepResult(s.(queue := s.queue + [Offered(h, u, msg.headers)]), msg)
    else
      StepResult(s, msg)
  }

  /** Takes the oldest entry off the queue; an empty queue yields None
      (Java's null) and stays empty. */
  function Poll(queue: seq<seq<Ext>>): (r: (Option<seq<Ext>>, seq<seq<Ext>>))
    ensures queue == [] ==> r == (None, [])
    ensures queue != [] ==> r.0 == Some(queue[0]) && [queue[0]] + r.1 == queue
  {
    if queue == [] then (None, []) else (Some(queue[0]), queue[1..])
  }

  /** Queue entries come out in the order they went in. */
  lemma PollAfterOffer(queue: seq<seq<Ext>>, entry: seq<Ext>)
    ensures queue == [] ==> Poll(queue + [entry]) == (Some(entry), [])
    ensures queue != [] ==> Poll(queue + [entry]) == (Poll(queue).0, Poll(queue).1 + [entry])
  {
    if queue != [] {
      assert (queue + [entry])[1..] == queue[1..] + [entry];
    }
  }

  /** The descriptors the accepted extensions answer with, in order. */
  function ResponseData(exts: seq<Ext>): (r: seq<ExtData>)
    ensures |r| == |exts|
    ensures forall i :: 0 <= i < |exts| ==> r[i] == exts[i].responseData
  {
    seq(|exts|, i requires 0 <= i < |exts| => exts[i].responseData)
  }

  /** The response is a 101 carrying the WebSocket upgrade markers. */
  predicate IsUpgradeResponse(u: Util, msg: Msg)
  {
    msg.Response? && msg.status == SwitchingProtocols && u.isWebsocketUpgrade(msg.headers)
  }

  /** The response is an upgrade and the entry polled for it lists at least
      one extension: the case in which headers and codecs are touched. */
  predicate InstallsCodecs(u: Util, queue: seq<seq<Ext>>, msg: Msg)
  {
    IsUpgradeResponse(u, msg) && queue != [] && queue[0] != []
  }

  /** The extensions header value the merge helper computes for `msg`
      from the polled extensions. */
  function MergedValue(u: Util, msg: Msg, exts: seq<Ext>): Option<string>
    requires msg.Response?
  {
    u.mergeHeaderValue(Get(msg.headers, SecWebSocketExtensions), ResponseData(exts))
  }

  /** The 101 branch of the outbound path: the header rewrite and the
      listeners registered on the write. Only the extensions header can
      change, and self-removal is registered on every upgrade, after any
      installation. */
  function PotentialUpgrade(u: Util, headers: Headers, polled: Option<seq<Ext>>): (r: (Headers, seq<Listener>))
    ensures r.0 - {SecWebSocketExtensions} == headers - {SecWebSocketExtensions}
    ensures !u.isWebsocketUpgrade(headers) ==> r == (headers, [])
    ensures u.isWebsocketUpgrade(headers) ==> r.1 != [] && r.1[|r.1| - 1] == RemoveSelfOnSuccess
    ensures (exists exts :: InstallCodecsOnSuccess(exts) in r.1) <==>
      u.isWebsocketUpgrade(headers) && polled.Some? && polled.value != []
    // with a non-empty entry: install it, then remove self; the header takes the merged value if any
    ensures u.isWebsocketUpgrade(headers) && polled.Some? && polled.value != [] ==>
      var merged := u.mergeHeaderValue(Get(headers, SecWebSocketExtensions), ResponseData(polled.value));
      && r.1 == [InstallCodecsOnSuccess(polled.value), RemoveSelfOnSuccess]
      && r.0 == (if merged.Some? then headers[SecWebSocketExtensions := merged.value] else headers)
    // with a null or empty entry: headers untouched, only self-removal
    ensures u.isWebsocketUpgrade(headers) && !(polled.Some? && polled.value != []) ==>
      r == (headers, [RemoveSelfOnSuccess])
  {
    if !u.isWebsocketUpgrade(headers) then (headers, [])
    else if polled.Some? && polled.value != [] then
      var merged := u.mergeHeaderValue(Get(headers, SecWebSocketExtensions), ResponseData(polled.value));
      var rewritten := if merged.Some? then headers[SecWebSocketExtensions := merged.value] else headers;
      (rewritten, [InstallCodecsOnSuccess(polled.value), RemoveSelfOnSuccess])
    else
      (headers, [RemoveSelfOnSuccess])
  }

  /** The outbound path. Every response takes exactly one entry off the
      queue, whatever its status; other messages leave the queue alone.
      The pipeline is never touched here: changes wait for the write to
      complete. */
  function Write(h: Handler, u: Util, s: State, msg: Msg): (r: WriteResult)
    ensures r.state.pipeline == s.pipeline
    ensures !msg.Response? ==> r.state == s && r.forwarded == msg && r.listeners == []
    ensures msg.Response? && s.queue == [] ==> r.state.queue == []
    ensures msg.Response? && s.queue != [] ==> [s.queue[0]] + r.state.queue == s.queue
    // the forwarded message differs from `msg` at most in its extensions header
    ensures msg.Response? ==>
      && r.forwarded.Response?
      && r.forwarded.status == msg.status
      && r.forwarded.headers - {SecWebSocketExtensions} == msg.headers - {SecWebSocketExtensions}
    // ... which is overwritten exactly when codecs are installed and the merge yields a value
    ensures InstallsCodecs(u, s.queue, msg) && MergedValue(u, msg, s.queue[0]).Some? ==>
      Get(r.forwarded.headers, SecWebSocketExtensions) == MergedValue(u, msg, s.queue[0])
    ensures !(InstallsCodecs(u, s.queue, msg) && MergedValue(u, msg, s.queue[0]).Some?) ==>
      r.forwarded == msg
    // listeners: installation of the polled entry, then self-removal
    ensures InstallsCodecs(u, s.queue, msg) ==>
      r.listeners == [InstallCodecsOnSuccess(s.queue[0]), RemoveSelfOnSuccess]
    ensures IsUpgradeResponse(u, msg) && !InstallsCodecs(u, s.queue, msg) ==>
      r.listeners == [RemoveSelfOnSuccess]
    ensures !IsUpgradeResponse(u, msg) ==> r.listeners == []
  {
    if !msg.Response? then WriteResult(s, msg, [])
    else
      var (polled, rest) := Poll(s.queue);
      var s' := s.(queue := rest);
      if msg.status != SwitchingProtocols then WriteResult(s', msg, [])
      else
        var (headers, listeners) := PotentialUpgrade(u, msg.headers, polled);
        WriteResult(s', msg.(headers := headers), listeners)
  }

  /** What one listener does when the write completes with `outcome`:
      nothing on failure, and nothing once the handler has left. */
  function Fire(p: Pipe, l: Listener, outcome: Outcome): (q: Pipe)
    ensures outcome.Failure? ==> q == p
    ensures p.Detached? ==> q == p
    ensures p.Attached? && outcome.Success? && l.RemoveSelfOnSuccess? ==>
      Stages(q) == p.before + p.after && q.Detached?
    ensures p.Attached? && outcome.Success? && l.InstallCodecsOnSuccess? ==>
      q == Attached(p.before, CodecStages(l.exts) + p.after)
  {
    if outcome.Failure? then p
    else
      match l
      case InstallCodecsOnSuccess(exts) => InstallLayout(p, exts); InstallCodecs(p, exts)
      case RemoveSelfOnSuccess => RemoveHandler(p)
  }

  /** The completion of a write: its listeners fire in registration order.
      A failed write changes nothing. */
  function OnComplete(p: Pipe, listeners: seq<Listener>, outcome: Outcome): (q: Pipe)
    ensures outcome.Failure? ==> q == p
    decreases |listeners|
  {
    if listeners == [] then p else OnComplete(Fire(p, listeners[0], outcome), listeners[1..], outcome)
  }

  /** A successful upgrade write ends with the polled extensions' codecs
      where the handler stood, and the handler gone; this holds with zero
      extensions too, where only the handler disappears. */
  lemma UpgradeCompletes(h: Handler, u: Util, s: State, msg: Msg)
    requires IsUpgradeResponse(u, msg)
    requires Active(s)
    ensures var w := Write(h, u, s, msg);
      var exts := if s.queue == [] then [] else s.queue[0];
      var p := OnComplete(w.state.pipeline, w.listeners, Success);
      p.Detached? && Stages(p) == s.pipeline.before + CodecStages(exts) + s.pipeline.after
  {
    var w := Write(h, u, s, msg);
    var p := s.pipeline;
    var exts := if s.queue == [] then [] else s.queue[0];
    InstallThenRemove(p, exts);
    if InstallsCodecs(u, s.queue, msg) {
      assert w.listeners == [InstallCodecsOnSuccess(exts), RemoveSelfOnSuccess];
      var q := Fire(p, InstallCodecsOnSuccess(exts), Success);
      assert w.listeners[1..] == [RemoveSelfOnSuccess];
      assert OnComplete(p, w.listeners, Success) == OnComplete(q, [RemoveSelfOnSuccess], Success);
      assert OnComplete(q, [RemoveSelfOnSuccess], Success) == RemoveHandler(q);
    } else {
      assert exts == [];
      assert w.listeners == [RemoveSelfOnSuccess];
    }
  }
}
