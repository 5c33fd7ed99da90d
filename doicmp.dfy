/** The older codec (doicmp.go). It differs from the live one at two
    edges: a missing '?' yields an empty name instead of an error, so the
    empty name is looked up; and the request data is sliced at offset 16
    without a length check, so data shorter than 16 bytes panics. */
module DoIcmp {
  import opened Icmp
  import opened Codec
  import PingDns

  /** extractNameFromPayload: the bytes strictly between the first '?' and
      the next '?' after it, or the empty name, never an error. */
  function ExtractName(payload: seq<byte>): (r: Outcome<seq<byte>>)
    ensures r.Return? && Delim !in r.value
  {
    var start := FirstIndex(payload, Delim);
    if start == -1 then Return([])
    else
      var end := FirstIndex(payload[start + 1..], Delim);
      if end == -1 then Return([])
      else
        assert payload[start + 1..][..end] == payload[start + 1..start + 1 + end];
        Return(payload[start + 1..start + 1 + end])
  }

  /** With two '?' present the variants extract the same name; otherwise
      this one returns the empty name where the live one fails. */
  lemma ExtractNameVersusLive(payload: seq<byte>)
    ensures multiset(payload)[Delim] >= 2 ==> ExtractName(payload) == PingDns.ExtractName(payload)
    ensures multiset(payload)[Delim] < 2 ==>
      ExtractName(payload) == Return([]) && PingDns.ExtractName(payload) == Fail(DelimiterNotFound)
  {
    PingDns.ExtractNameFailsIff(payload);
  }

  /** handleICMPEcho: slice off the offset region (panicking when the data
      is shorter), extract the name, look it up, and answer. The error
      check after extraction never fires. */
  function HandleEcho(request: Echo, resolve: seq<byte> -> Lookup): (r: Outcome<Message>)
    ensures |request.data| < ChecksumLength ==> r == Panic(SliceBoundsOutOfRange)
    ensures r.Fail? ==> r.err == ResolveFailed
    ensures r.Return? ==> IsReplyTo(r.value, request)
    ensures r.Return? ==> |r.value.body.echo.data| == MinimumDataLength
  {
    if |request.data| < ChecksumLength then Panic(SliceBoundsOutOfRange)
    else
      var name := ExtractName(request.data[ChecksumLength..]);
      AnswerWith(request, resolve(name.value))
  }

  /** Where the live variant finds a name, both variants answer alike. */
  lemma HandleEchoAgrees(request: Echo, resolve: seq<byte> -> Lookup)
    requires |request.data| >= ChecksumLength
    requires multiset(request.data[ChecksumLength..])[Delim] >= 2
    ensures HandleEcho(request, resolve) == PingDns.HandleEcho(request, resolve)
  {
    ExtractNameVersusLive(request.data[ChecksumLength..]);
  }

  /** Where a delimiter is missing, this variant looks up the empty name and
      answers from that lookup, while the live one reports the error. */
  lemma HandleEchoLooksUpEmptyName(request: Echo, resolve: seq<byte> -> Lookup)
    requires |request.data| >= ChecksumLength
    requires multiset(request.data[ChecksumLength..])[Delim] < 2
    ensures HandleEcho(request, resolve) == AnswerWith(request, resolve([]))
    ensures PingDns.HandleEcho(request, resolve) == Fail(DelimiterNotFound)
  {
    ExtractNameVersusLive(request.data[ChecksumLength..]);
  }

  /** handleBytes: the same dispatch as the live variant, over this
      variant's handleICMPEcho. */
  function HandleBytes(parsed: Parse, resolve: seq<byte> -> Lookup): (r: Outcome<Option<Message>>)
    ensures parsed.ParseError? ==> r == Fail(ParseFailed)
    ensures r == Return(None) <==> parsed.Parsed? && parsed.msg.typ != TypeEcho
    ensures parsed.Parsed? && parsed.msg.typ == TypeEcho && parsed.msg.body.OtherBody? ==> r == Fail(NotEchoBody)
    ensures r.Return? && r.value.Some? ==>
      && parsed.Parsed? && parsed.msg.typ == TypeEcho && parsed.msg.body.EchoBody?
      && IsReplyTo(r.value.value, parsed.msg.body.echo)
    ensures parsed.Parsed? && parsed.msg.typ == TypeEcho && parsed.msg.body.EchoBody? ==>
      var h := HandleEcho(parsed.msg.body.echo, resolve);
      && (h.Return? ==> r == Return(Some(h.value)))
      && (h.Fail? ==> r == Fail(h.err))
      && (h.Panic? ==> r == Panic(h.kind))
    ensures r.Panic? ==>
      && parsed.Parsed? && parsed.msg.typ == TypeEcho && parsed.msg.body.EchoBody?
      && (r.kind == SliceBoundsOutOfRange <==> |parsed.msg.body.echo.data| < ChecksumLength)
  {
    match parsed
    case ParseError => Fail(ParseFailed)
    case Parsed(msg) =>
      if msg.typ != TypeEcho then Return(None)
      else if !msg.body.EchoBody? then Fail(NotEchoBody)
      else
        match HandleEcho(msg.body.echo, resolve)
        case Return(reply) => Return(Some(reply))
        case Fail(e) => Fail(e)
        case Panic(p) => Panic(p)
  }
}
