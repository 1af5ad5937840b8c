/** Values shared by every part of the WebSocket server extension negotiator:
    extension descriptors, negotiated extensions, pipeline stage ids, the
    HTTP messages the handler sees, and the helpers it calls but whose
    behaviour this model leaves uninterpreted. */
module Types {

  datatype Option<+T> = None | Some(value: T)

  datatype Result<+T, +E> = Ok(value: T) | Err(error: E)

  /** An HTTP header block, one value per (lower-case) header name. */
  type Headers = map<string, string>

  /** The name of the header that carries the extension negotiation. */
  const SecWebSocketExtensions: string := "sec-websocket-extensions"

  /** The status code of a "101 Switching Protocols" response. */
  const SwitchingProtocols: int := 101

  /** The value of header `name`, or None when the header is absent. */
  function Get(headers: Headers, name: string): Option<string>
  {
    if name in headers then Some(headers[name]) else None
  }

  /** One extension token of a negotiation header with its parameters; a
      parameter given without a value (`client_max_window_bits`) maps to
      None. */
  datatype ExtData = ExtData(name: string, parameters: map<string, Option<string>>)

  /** A stage of the channel pipeline. `ExtensionHandler` is the negotiating
      handler itself; an extension's codec stages are told apart by the
      extension's codec id. */
  datatype StageId =
    | ExtensionHandler
    | ExtensionDecoder(codec: nat)
    | ExtensionEncoder(codec: nat)
    | OtherStage(name: string)

  /** A negotiated extension: the reserved bits it claims (a Java `int`,
      hence 32 bits), the descriptor it answers with, and the id of the
      encoder and decoder stages it contributes. */
  datatype Ext = Ext(rsv: bv32, responseData: ExtData, codec: nat)
  {
    function Decoder(): StageId { ExtensionDecoder(codec) }
    function Encoder(): StageId { ExtensionEncoder(codec) }
  }

  /** A message travelling through the handler: an HTTP request (inbound),
      an HTTP response (outbound), or anything else. */
  datatype Msg =
    | Request(headers: Headers)
    | Response(status: int, headers: Headers)
    | Other(content: seq<bv8>)

  /** How the write of an outbound message completed. */
  datatype Outcome = Success | Failure

  /** The header helpers the handler calls: whether a header block carries
      the WebSocket upgrade markers, how an extensions header value splits
      into descriptors, and how accepted descriptors merge into an existing
      header value (None stands for Java's null). */
  datatype Util = Util(
    isWebsocketUpgrade: Headers -> bool,
    extractExtensions: string -> seq<ExtData>,
    mergeHeaderValue: (Option<string>, seq<ExtData>) -> Option<string>)
}
