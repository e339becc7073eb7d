/** Shared vocabulary of the chat gateway model. */
module Types {

  /** A value that may be absent (a JavaScript `undefined`, an SQL NULL). */
  datatype Option<+T> = None | Some(value: T)

  /** A client's network address, as the transport reports it. */
  type Address = string

  /** A clock reading. The gateway never inspects one, so it stays opaque. */
  type Timestamp = string

  /** The identity of one WebSocket connection. */
  type ConnId = nat
}
