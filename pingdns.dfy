/** The live codec (pingdns.go): the name sits between the first two '?'
    bytes after the 16-byte offset region of an Echo Request's data; a
    missing region or delimiter is an error. The parsed message and the
    resolver are inputs: `parsed` is what parsing the datagram produced,
    and `resolve` maps a name to the outcome of its IPv4 lookup. */
module PingDns {
  import opened Icmp
  import opened Codec

  /** extractNameFromPayload: the bytes strictly between the first '?' and
      the next '?' after it. */
  function ExtractName(payload: seq<byte>): (r: Outcome<seq<byte>>)
    ensures r.Return? || r == Fail(DelimiterNotFound)
    ensures r.Return? ==> Delim !in r.value && |r.value| + 2 <= |payload|
  {
    var start := FirstIndex(payload, Delim);
    if start == -1 then Fail(DelimiterNotFound)
    else
      var end := FirstIndex(payload[start + 1..], Delim);
      if end == -1 then Fail(DelimiterNotFound)
      else
        assert payload[start + 1..][..end] == payload[start + 1..start + 1 + end];
        Return(payload[start + 1..start + 1 + end])
  }

  /** How a client hides `name` in a payload: any bytes without '?', the
      name between two '?', then any bytes at all. */
  function Embed(pre: seq<byte>, name: seq<byte>, post: seq<byte>): seq<byte>
  {
    pre + [Delim] + name + [Delim] + post
  }

  /** Extraction inverts embedding: whatever follows the second '?' is ignored. */
  lemma ExtractNameOfEmbedded(pre: seq<byte>, name: seq<byte>, post: seq<byte>)
    requires Delim !in pre && Delim !in name
    ensures ExtractName(Embed(pre, name, post)) == Return(name)
  {
    var p := Embed(pre, name, post);
    var start := |pre|;
    assert forall k | 0 <= k < start :: p[k] == pre[k];
    FirstIndexIsLeast(p, Delim, start);
    var rest := p[start + 1..];
    assert forall k | 0 <= k < |name| :: rest[k] == name[k];
    assert rest[|name|] == Delim;
    FirstIndexIsLeast(rest, Delim, |name|);
    ExtractNameBetween(p, start, |name|);
    assert p[start + 1..start + 1 + |name|] == name;
  }

  /** The name lies between the first '?' and the first '?' after it. */
  lemma ExtractNameBetween(payload: seq<byte>, start: nat, end: nat)
    requires start < |payload| && FirstIndex(payload, Delim) == start
    requires FirstIndex(payload[start + 1..], Delim) == end
    ensures ExtractName(payload).Return?
    ensures ExtractName(payload).value == payload[start + 1..start + 1 + end]
  {
  }

  /** Conversely, every name extracted was embedded: the payload splits into
      a '?'-free prefix, '?', the name, '?' and the remaining bytes. */
  lemma ExtractNameSplits(payload: seq<byte>)
    requires ExtractName(payload).Return?
    ensures var name := ExtractName(payload).value;
            var start := FirstIndex(payload, Delim);
            && 0 <= start && start + 2 + |name| <= |payload|
            && Delim !in payload[..start] && Delim !in name
            && payload == Embed(payload[..start], name, payload[start + 2 + |name|..])
  {
    var name := ExtractName(payload).value;
    var start := FirstIndex(payload, Delim);
    var rest := payload[start + 1..];
    var end := FirstIndex(rest, Delim);
    assert name == payload[start + 1..start + 1 + end];
    assert payload[start + 1 + end] == rest[end];
    var pre, post := payload[..start], payload[start + 2 + end..];
    assert forall k | 0 <= k < |pre| :: pre[k] == payload[k];
    var e := Embed(pre, name, post);
    assert |e| == |payload|;
    assert forall k | 0 <= k < |e| :: e[k] == payload[k] by {
      forall k | 0 <= k < |e| ensures e[k] == payload[k] {
        if k < start {
        } else if k == start {
        } else if k < start + 1 + end {
          assert e[k] == name[k - start - 1];
        } else if k == start + 1 + end {
        } else {
          assert e[k] == post[k - start - 2 - end];
        }
      }
    }
  }

  /** Extraction fails exactly when the payload holds fewer than two '?' bytes. */
  lemma ExtractNameFailsIff(payload: seq<byte>)
    ensures ExtractName(payload).Fail? <==> multiset(payload)[Delim] < 2
  {
    var start := FirstIndex(payload, Delim);
    if start != -1 {
      var rest := payload[start + 1..];
      assert payload == payload[..start] + [Delim] + rest;
      var before: seq<byte> := payload[..start];
      assert multiset(payload) == multiset(before) + multiset{Delim} + multiset(rest);
      var end := FirstIndex(rest, Delim);
      if end != -1 {
        assert Delim in multiset(rest);
      }
    }
  }

  /** handleICMPEcho: reject data shorter than the offset region, extract
      the name from what follows it, look the name up, and answer. */
  function HandleEcho(request: Echo, resolve: seq<byte> -> Lookup): (r: Outcome<Message>)
    ensures |request.data| < ChecksumLength ==> r == Fail(DataTooShort)
    ensures r.Fail? ==> r.err in {DataTooShort, DelimiterNotFound, ResolveFailed}
    ensures r.Panic? ==> r.kind == MakeLenOutOfRange
    ensures r.Return? ==> IsReplyTo(r.value, request)
    ensures r.Return? ==> |r.value.body.echo.data| == MinimumDataLength
  {
    if |request.data| < ChecksumLength then Fail(DataTooShort)
    else
      var name := ExtractName(request.data[ChecksumLength..]);
      if !name.Return? then Fail(name.err)
      else AnswerWith(request, resolve(name.value))
  }

  /** A request whose data is 16 bytes of any content (even '?') followed by
      an embedded name is answered from the lookup of exactly that name. */
  lemma HandleEchoEmbedded(id: uint16, seqNum: uint16, header: seq<byte>, name: seq<byte>,
                           trailer: seq<byte>, resolve: seq<byte> -> Lookup)
    requires |header| == ChecksumLength && Delim !in name
    ensures var request := Echo(id, seqNum, header + Embed([], name, trailer));
            HandleEcho(request, resolve) == AnswerWith(request, resolve(name))
  {
    var data := header + Embed([], name, trailer);
    assert data[ChecksumLength..] == Embed([], name, trailer);
    ExtractNameOfEmbedded([], name, trailer);
  }

  /** A name that resolves to the single address a.b.c.d is answered with
      16 zero bytes, the bytes a, b, c, d and 44 zero bytes, under the
      request's identifier and sequence number. */
  lemma OneAddressReply(id: uint16, seqNum: uint16, header: seq<byte>, name: seq<byte>,
                        trailer: seq<byte>, resolve: seq<byte> -> Lookup,
                        a: byte, b: byte, c: byte, d: byte)
    requires |header| == ChecksumLength && Delim !in name
    requires resolve(name) == Resolved([V4Mapped(a, b, c, d)])
    ensures var request := Echo(id, seqNum, header + Embed([], name, trailer));
            HandleEcho(request, resolve)
              == Return(Message(TypeEchoReply, 0, EchoBody(Echo(id, seqNum, Zeros(16) + [a, b, c, d] + Zeros(44)))))
  {
    HandleEchoEmbedded(id, seqNum, header, name, trailer, resolve);
    OneAddressData(a, b, c, d);
  }

  /** With the offset region present but fewer than two '?' after it, the
      request is rejected before any lookup. */
  lemma HandleEchoNoName(request: Echo, resolve: seq<byte> -> Lookup)
    requires |request.data| >= ChecksumLength
    requires multiset(request.data[ChecksumLength..])[Delim] < 2
    ensures HandleEcho(request, resolve) == Fail(DelimiterNotFound)
  {
    ExtractNameFailsIff(request.data[ChecksumLength..]);
  }

  /** The offset region is never searched: two requests whose data differ
      only in the first 16 bytes get the same answer up to the copied
      identifier and sequence number. */
  lemma HandleEchoIgnoresOffsetRegion(request: Echo, header: seq<byte>, resolve: seq<byte> -> Lookup)
    requires |request.data| >= ChecksumLength && |header| == ChecksumLength
    ensures var other := request.(data := header + request.data[ChecksumLength..]);
            HandleEcho(other, resolve) == HandleEcho(request, resolve)
  {
    var other := request.(data := header + request.data[ChecksumLength..]);
    assert other.data[ChecksumLength..] == request.data[ChecksumLength..];
  }

  /** handleBytes: a parse error is an error; a type other than Echo is
      ignored with neither a reply nor an error; an Echo whose body is not
      an Echo body is an error; otherwise the Echo is handled. */
  function HandleBytes(parsed: Parse, resolve: seq<byte> -> Lookup): (r: Outcome<Option<Message>>)
    ensures parsed.ParseError? ==> r == Fail(ParseFailed)
    ensures r == Return(None) <==> parsed.Parsed? && parsed.msg.typ != TypeEcho
    ensures parsed.Parsed? && parsed.msg.typ == TypeEcho && parsed.msg.body.OtherBody? ==> r == Fail(NotEchoBody)
    ensures r.Return? && r.value.Some? ==>
      && parsed.Parsed? && parsed.msg.typ == TypeEcho && parsed.msg.body.EchoBody?
      && IsReplyTo(r.value.value, parsed.msg.body.echo)
    ensures parsed.Parsed? && parsed.msg.typ == TypeEcho && parsed.msg.body.EchoBody? ==>
      var h := HandleEcho(parsed.msg.body.echo, resolve);
      && (h.Return? ==> r == Return(Some(h.value)))
      && (h.Fail? ==> r == Fail(h.err))
      && (h.Panic? ==> r == Panic(h.kind))
  {
    match parsed
    case ParseError => Fail(ParseFailed)
    case Parsed(msg) =>
      if msg.typ != TypeEcho then Return(None)
      else if !msg.body.EchoBody? then Fail(NotEchoBody)
      else
        match HandleEcho(msg.body.echo, resolve)
        case Return(reply) => Return(Some(reply))
        case Fail(e) => Fail(e)
        case Panic(p) => Panic(p)
  }
}
