/** Logical view of the ICMP Echo messages the codec reads and writes
    ("Echo or Echo Reply Message" in RFC 792), of the outcomes of the two
    collaborators it calls (the ICMP parser and the DNS resolver), and of
    the ways a Go handler can end: a value, an error, or a runtime panic.
    Header layout, checksum and marshalling are not modelled: a message
    is the tuple (type, code, body). */
module Icmp {

  type byte = x: int | 0 <= x < 0x100
  type uint16 = x: int | 0 <= x < 0x1_0000

  /** ICMP type numbers for IPv4 (RFC 792). */
  const TypeEchoReply: byte := 0
  const TypeEcho: byte := 8

  datatype Option<+T> = None | Some(value: T)

  /** The body of an Echo or Echo Reply message: identifier, sequence number and data. */
  datatype Echo = Echo(id: uint16, seqNum: uint16, data: seq<byte>)

  /** A parsed message body is either an Echo body or some other kind of body. */
  datatype Body = EchoBody(echo: Echo) | OtherBody

  datatype Message = Message(typ: byte, code: byte, body: Body)

  /** What parsing the received datagram as an ICMPv4 message produced. */
  datatype Parse = ParseError | Parsed(msg: Message)

  /** What the IPv4 name lookup produced: a failure, or the addresses it
      returned, each as the raw bytes of the address value. */
  datatype Lookup = LookupError | Resolved(ips: seq<seq<byte>>)

  /** The errors the handlers return (the Go code wraps each in a message). */
  datatype Error =
    | ParseFailed        // the datagram is not a well-formed ICMP message
    | NotEchoBody        // type Echo, but the body is not an Echo body
    | DataTooShort       // Echo data shorter than the 16-byte offset region
    | DelimiterNotFound  // fewer than two '?' after the offset region
    | ResolveFailed      // the name lookup failed

  /** The runtime panics the Go code can raise. */
  datatype PanicKind =
    | SliceBoundsOutOfRange  // slicing past the end of a byte slice
    | MakeLenOutOfRange      // allocating a slice of negative length

  /** How a Go call ends: it returns a value, returns an error, or panics. */
  datatype Outcome<+T> = Return(value: T) | Fail(err: Error) | Panic(kind: PanicKind)

  /** `reply` answers `request`: an Echo Reply with code 0 whose identifier
      and sequence number are copied from the request. */
  predicate IsReplyTo(reply: Message, request: Echo)
  {
    && reply.typ == TypeEchoReply
    && reply.code == 0
    && reply.body.EchoBody?
    && reply.body.echo.id == request.id
    && reply.body.echo.seqNum == request.seqNum
  }
}
