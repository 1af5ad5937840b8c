# WebSocket server extension negotiation, modelled in Dafny

This project models Netty's `WebSocketServerExtensionHandler`. It is the
pipeline handler that runs the server side of WebSocket extension
negotiation (section 9.1 of RFC 6455) during the upgrade handshake
(section 4.2.2 of RFC 6455). The model covers four things:

- **Construction.** The handler takes its handshakers in priority order and refuses an empty list.
- **Inbound path (`channelRead`).** Every HTTP request queues exactly one list of negotiated extensions. The list is empty unless the request is a WebSocket upgrade with a `Sec-WebSocket-Extensions` header. For each requested extension, the first handshaker that accepts it wins. Its result is kept only if its reserved bits (RSV1 to RSV3, section 5.2 of RFC 6455) miss the bits of the extensions already kept for that request.
- **Outbound path (`write`).** Every HTTP response takes exactly one entry off the queue, whatever its status. An empty queue yields Java's `null`. A 101 response with upgrade headers and a non-empty entry gets its extensions header rewritten when the merge helper yields a value. It also registers a listener that installs the codec stages when the write succeeds. Every 101 response with upgrade headers registers a second listener that removes the handler when the write succeeds.
- **Write completion.** Listeners fire in registration order and act only on success. Each extension's decoder and then its encoder are added directly after the handler. The last accepted extension therefore ends up closest to the handler: `enc_n, dec_n, …, enc_1, dec_1`.

Modules, one file each:

- `Types` (`types.dfy`): descriptors, negotiated extensions, messages and stage ids. It also holds the `Util` record of header helpers, which the model leaves uninterpreted.
- `ReservedBits` (`reserved_bits.dfy`): the union of masks and the conflict check.
- `Negotiation` (`negotiation.dfy`): the handshaker loop and the negotiation loop. Each has a functional definition and a loop that is proved equal to it.
- `Pipeline` (`pipeline.dfy`): the handler's position, insertion directly after it, and its removal.
- `ServerExtensionHandler` (`handler.dfy`): construction, `ChannelRead`, `Write`, and `OnComplete`.
- `Trace` (`trace.dfy`): a connection's events one after another, and request/response correlation.

Details of the code's behaviour that are easy to misread:

- Every `HttpResponse` polls the queue, not only 101 responses.
- Polling an empty queue yields `null`, which the 101 branch tolerates. It is not a fatal error.
- Codec stages are inserted directly after the handler, one extension after the other. The last accepted extension therefore ends up closest to the handler, not the first.
- For each extension, the encoder ends up directly before its decoder.

## Model

| member | source | states |
|---|---|---|
| ServerExtensionHandler.NewHandler | codec-http/src/main/java/io/netty/handler/codec/http/websocketx/extensions/WebSocketServerExtensionHandler.java:63-65 | a handler is built exactly when the handshaker list is non-empty, and it keeps that list in the given order |
| Negotiation.FirstAccept | codec-http/src/main/java/io/netty/handler/codec/http/websocketx/extensions/WebSocketServerExtensionHandler.java:82-90 | the answer is None exactly when every handshaker declines; otherwise it is the answer of a handshaker all of whose predecessors declined |
| Negotiation.Handshake | codec-http/src/main/java/io/netty/handler/codec/http/websocketx/extensions/WebSocketServerExtensionHandler.java:82-90 | the iterator loop that stops at the first non-null answer computes the first-acceptance answer |
| Negotiation.LaterHandshakersIgnored | codec-http/src/main/java/io/netty/handler/codec/http/websocketx/extensions/WebSocketServerExtensionHandler.java:86-90 | once a handshaker accepts, appending further handshakers never changes the answer, so they are not consulted |
| Negotiation.NegotiateSound | codec-http/src/main/java/io/netty/handler/codec/http/websocketx/extensions/WebSocketServerExtensionHandler.java:79-98 | kept extensions have pairwise disjoint masks; they are a subsequence of the handshakers' answers in client order; every answer not kept overlaps the union of the kept masks |
| Negotiation.NegotiatePrefix | codec-http/src/main/java/io/netty/handler/codec/http/websocketx/extensions/WebSocketServerExtensionHandler.java:81-98 | a decision on an earlier requested extension is never revoked: the kept list for a prefix of the request is a prefix of the kept list for the whole request |
| Negotiation.FirstOfConflictingPairWins | codec-http/src/main/java/io/netty/handler/codec/http/websocketx/extensions/WebSocketServerExtensionHandler.java:92-98 | for a request listing exactly two extensions whose answers overlap (for example two deflate variants on RSV1), only the first of the two is kept; with more extensions an earlier kept one may exclude the first of the pair instead |
| Negotiation.NegotiateLoop | codec-http/src/main/java/io/netty/handler/codec/http/websocketx/extensions/WebSocketServerExtensionHandler.java:79-98 | the loop with its running `rsv` keeps exactly the negotiated list, `rsv` ends as the OR of the kept masks, and every kept mask lies within `rsv` |
| Negotiation.Negotiate | codec-http/src/main/java/io/netty/handler/codec/http/websocketx/extensions/WebSocketServerExtensionHandler.java:79-98 | the negotiation fold that `Offered` uses; what it keeps is stated by `NegotiateSound` and `NegotiatePrefix`, and `NegotiateLoop` proves the handler's loop equal to it |
| ReservedBits.DisjointFromUnion | codec-http/src/main/java/io/netty/handler/codec/http/websocketx/extensions/WebSocketServerExtensionHandler.java:92-96 | a mask passes the `(rsv() & rsv) == 0` test against the running union exactly when it misses each kept mask |
| ReservedBits.AppendDisjoint | codec-http/src/main/java/io/netty/handler/codec/http/websocketx/extensions/WebSocketServerExtensionHandler.java:92-97 | keeping an extension that passes the test leaves the kept list pairwise disjoint, and ORing its mask keeps `rsv` equal to the union |
| ReservedBits.UnionCovers | codec-http/src/main/java/io/netty/handler/codec/http/websocketx/extensions/WebSocketServerExtensionHandler.java:96 | every kept mask is contained in the running union |
| ServerExtensionHandler.Offered | codec-http/src/main/java/io/netty/handler/codec/http/websocketx/extensions/WebSocketServerExtensionHandler.java:69-105 | a request without upgrade headers or without an extensions header negotiates nothing; otherwise the entry is the negotiation of the extracted descriptors, always pairwise disjoint |
| ServerExtensionHandler.ChannelRead | codec-http/src/main/java/io/netty/handler/codec/http/websocketx/extensions/WebSocketServerExtensionHandler.java:68-110 | a request appends exactly one entry to the queue; any other message leaves the state alone; every message is forwarded unchanged |
| ServerExtensionHandler.Poll | codec-http/src/main/java/io/netty/handler/codec/http/websocketx/extensions/WebSocketServerExtensionHandler.java:115 | polling an empty queue yields None and keeps it empty; otherwise it returns the oldest entry and leaves the rest |
| ServerExtensionHandler.PollAfterOffer | codec-http/src/main/java/io/netty/handler/codec/http/websocketx/extensions/WebSocketServerExtensionHandler.java:106-115 | the queue is first-in first-out: an offered entry comes out after every entry offered before it |
| ServerExtensionHandler.Write | codec-http/src/main/java/io/netty/handler/codec/http/websocketx/extensions/WebSocketServerExtensionHandler.java:113-170 | every response removes exactly one entry, whatever its status; other messages change nothing; only the extensions header may change, and only for a 101 upgrade with a non-empty entry and a non-null merge; listeners are install-then-remove, remove only, or none, according to status, upgrade headers and entry |
| ServerExtensionHandler.ResponseData | codec-http/src/main/java/io/netty/handler/codec/http/websocketx/extensions/WebSocketServerExtensionHandler.java:135-139 | the response descriptors of the accepted extensions, one per extension, in accepted order |
| ServerExtensionHandler.PotentialUpgrade | codec-http/src/main/java/io/netty/handler/codec/http/websocketx/extensions/WebSocketServerExtensionHandler.java:127-172 | only the extensions header can change; a response without upgrade headers registers nothing and keeps its headers; an upgrade with a non-null, non-empty entry registers exactly the installation of that entry and then self-removal, and its extensions header becomes the merged value when the merge yields one; an upgrade with a null or empty entry keeps its headers and registers only self-removal |
| ServerExtensionHandler.Fire | codec-http/src/main/java/io/netty/handler/codec/http/websocketx/extensions/WebSocketServerExtensionHandler.java:142-170 | a listener does nothing on a failed write or once the handler has left; on success the removal listener detaches the handler keeping the other stages in order, and the installation listener puts exactly the entry's codec stages right after the handler |
| ServerExtensionHandler.OnComplete | codec-http/src/main/java/io/netty/handler/codec/http/websocketx/extensions/WebSocketServerExtensionHandler.java:142-170 | a failed write changes the pipeline in no way |
| ServerExtensionHandler.UpgradeCompletes | codec-http/src/main/java/io/netty/handler/codec/http/websocketx/extensions/WebSocketServerExtensionHandler.java:142-170 | after a successful 101 upgrade write, the polled entry's codec stages stand where the handler stood and the handler is gone, also when the entry is empty |
| Pipeline.AddAfterHandlerPlaces | codec-http/src/main/java/io/netty/handler/codec/http/websocketx/extensions/WebSocketServerExtensionHandler.java:150-152 | `addAfter` with the handler's name puts the new stage at the position right after the handler and shifts the later stages by one |
| Pipeline.InstallCodecs | codec-http/src/main/java/io/netty/handler/codec/http/websocketx/extensions/WebSocketServerExtensionHandler.java:146-153 | the installation loop; its layout is stated by `InstallLayout` and `CodecStagesAt` |
| Pipeline.AddAfterHandler | codec-http/src/main/java/io/netty/handler/codec/http/websocketx/extensions/WebSocketServerExtensionHandler.java:150-152 | `addAfter` with the handler's own name; its placement is stated by `AddAfterHandlerPlaces` |
| Pipeline.RemoveHandler | codec-http/src/main/java/io/netty/handler/codec/http/websocketx/extensions/WebSocketServerExtensionHandler.java:167 | removal detaches the handler and keeps every other stage in order; a second removal changes nothing |
| Pipeline.InstallLayout | codec-http/src/main/java/io/netty/handler/codec/http/websocketx/extensions/WebSocketServerExtensionHandler.java:146-153 | installing a list of extensions puts exactly their codec stages right after the handler and leaves every other stage in place |
| Pipeline.CodecStagesAt | codec-http/src/main/java/io/netty/handler/codec/http/websocketx/extensions/WebSocketServerExtensionHandler.java:146-153 | the installed stages are, position by position, `enc_n, dec_n, …, enc_1, dec_1`, so the last extension is closest to the handler |
| Pipeline.InstallThenRemove | codec-http/src/main/java/io/netty/handler/codec/http/websocketx/extensions/WebSocketServerExtensionHandler.java:142-170 | installing and then removing the handler leaves the codec stages exactly between the stages that surrounded the handler |
| Pipeline.RemovedForGood | codec-http/src/main/java/io/netty/handler/codec/http/websocketx/extensions/WebSocketServerExtensionHandler.java:163-170 | after a successful upgrade the handler appears nowhere in the pipeline |
| Trace.Step | codec-http/src/main/java/io/netty/handler/codec/http/websocketx/extensions/WebSocketServerExtensionHandler.java:109-124 | a retired handler lets every event pass untouched; an inbound message is forwarded unchanged and never changes the pipeline; a failed write never changes the pipeline |
| Trace.RetiredIsInert | codec-http/src/main/java/io/netty/handler/codec/http/websocketx/extensions/WebSocketServerExtensionHandler.java:167 | once the handler has left the pipeline, no sequence of events changes its queue or pipeline |
| Trace.RequestsQueueInOrder | codec-http/src/main/java/io/netty/handler/codec/http/websocketx/extensions/WebSocketServerExtensionHandler.java:103-106 | a run of requests appends one entry per request, in arrival order, and leaves the pipeline alone |
| Trace.ResponsesConsumeInOrder | codec-http/src/main/java/io/netty/handler/codec/http/websocketx/extensions/WebSocketServerExtensionHandler.java:113-125 | responses after which the handler stays (anything but a 101 upgrade, or a 101 upgrade whose write fails) take one entry each off the front of the queue while it has one (a poll of an empty queue yields null and leaves it empty), and leave the handler in place |
| Trace.Correlation | codec-http/src/main/java/io/netty/handler/codec/http/websocketx/extensions/WebSocketServerExtensionHandler.java:103-170 | after N requests and k < N responses that leave the handler in place (non-upgrade responses or upgrades whose write failed), a successful 101 upgrade installs exactly the extensions negotiated for request k+1 where the handler stood and retires the handler; the forwarded response carries the extensions header merged from that same entry when the entry is non-empty and the merge yields a value, and is otherwise forwarded unchanged |
| Trace.UpgradeRetiresIffWritten | codec-http/src/main/java/io/netty/handler/codec/http/websocketx/extensions/WebSocketServerExtensionHandler.java:163-170 | a 101 upgrade response retires the handler if and only if its write succeeds; a failed write leaves the pipeline as it was |
| Trace.OnlyUpgradesChangePipeline | codec-http/src/main/java/io/netty/handler/codec/http/websocketx/extensions/WebSocketServerExtensionHandler.java:119-132 | a message that is not a 101 response with upgrade headers never changes the pipeline |

## Left out

- `WebSocketExtensionUtil.isWebsocketUpgrade`, `extractExtensions` and `computeMergeExtensionsHeaderValue` are not part of this model. They are fields of `Util`, and every result holds for any choice of them.
- Concrete handshakers, extensions, encoders and decoders (for example the compression extension) are not modelled. A handshaker is any total function from descriptor to optional extension. An extension is its mask, its response descriptor and a codec id.
- Stage names are abstracted to ids, and `addAfter`'s duplicate-name failure is not modelled: the model installs every codec stage even when two kept extensions share a codec id, whereas the code's `addAfter` throws at the first duplicate name and the rest of the installation loop is skipped. The handler is not sharable, so it sits in the pipeline at most once.
- Exceptions thrown inside a listener are not modelled. Netty's promise logs and swallows them. In the model, inserting after or removing a handler that has already left changes nothing.
- Header names are single-valued map keys matched exactly. HTTP's case-insensitive names and repeated headers are not modelled.
- Java `null` for the handshaker array or its elements is not modelled; only the empty array is.
- The handler keeps `Arrays.asList` of the caller's array, a view rather than a copy, so a caller who later overwrites an element of that array changes the handler's priority order. The model takes the handshaker list as a value fixed at construction.
- Listener timing is not modelled. `Write` returns its listeners and `OnComplete` runs them for a given outcome. `Trace` completes each write before the next event; completion interleaved with later events is not modelled.
- Netty's `super.channelRead` and `super.write` are modelled as the forwarded message of each step.
- ServerExtensionHandler.OnComplete: its contract only states the failure case. The success case is stated by `UpgradeCompletes` for the listener lists that `Write` can produce.
