/** The helpers of the ping-tunnelled name-resolution codec: first-index
    search, concatenation of byte slices, reduction of resolved addresses
    to their IPv4 tails, and the layout of the reply data. pingdns.go and
    doicmp.go hold byte-for-byte identical copies of these helpers, so
    they are modelled once, here. Each helper that loops in the source is
    a method with its loop, proved equal to a specification function;
    the handlers, which are pure compositions, use the functions. */
module Codec {
  import opened Icmp

  /** Bytes skipped at the start of the request data before the name is searched. */
  const ChecksumLength := 16
  /** Zero bytes that lead the reply data: ping hides this many on "wrong data". */
  const LeadingDataLength := 16
  /** The reply data is padded with zeros up to this length. */
  const MinimumDataLength := 64
  /** The byte that opens and closes the name in the request data: '?'. */
  const Delim: byte := 0x3F
  /** Length of an address in its 16-byte form, and of an IPv4 address. */
  const IPv6Len := 16
  const IPv4Len := 4
  /** The most accepted addresses that fit between the leading zeros and
      the minimum length; one more and the padding length is negative. */
  const MaxAddresses := (MinimumDataLength - LeadingDataLength) / IPv4Len

  /** A resolved address as the resolver hands it over (a Go net.IP). */
  type IP = seq<byte>

  /** `n` zero bytes, what Go's make([]byte, n) allocates. */
  function Zeros(n: nat): (z: seq<byte>)
    ensures |z| == n && forall i :: 0 <= i < n ==> z[i] == 0
  {
    seq(n, _ => 0)
  }

  // ---------------------------------------------------------------------
  // findIndex

  /** The least index of `s` that holds `d`, or -1 when `d` does not occur. */
  function FirstIndex(s: seq<byte>, d: byte): (r: int)
    ensures -1 <= r < |s|
    ensures r == -1 <==> d !in s
    ensures r != -1 ==> s[r] == d && forall k | 0 <= k < r :: s[k] != d
  {
    FirstIndexFrom(s, d, 0)
  }

  /** The least index from `i` on that holds `d`, or -1. */
  function FirstIndexFrom(s: seq<byte>, d: byte, i: nat): (r: int)
    requires i <= |s|
    ensures r == -1 || i <= r < |s|
    ensures r == -1 <==> forall k | i <= k < |s| :: s[k] != d
    ensures r != -1 ==> s[r] == d && forall k | i <= k < r :: s[k] != d
    decreases |s| - i
  {
    if i == |s| then -1
    else if s[i] == d then i
    else FirstIndexFrom(s, d, i + 1)
  }

  /** findIndex: walks `bytes` and returns at the first index holding `delim`. */
  method FindIndex(bytes: seq<byte>, delim: byte) returns (i: int)
    ensures i == FirstIndex(bytes, delim)
  {
    for j := 0 to |bytes|
      invariant forall k | 0 <= k < j :: bytes[k] != delim
    {
      if bytes[j] == delim {
        FirstIndexIsLeast(bytes, delim, j);
        return j;
      }
    }
    return -1;
  }

  /** An index that holds `d` with no `d` before it is the first index. */
  lemma FirstIndexIsLeast(s: seq<byte>, d: byte, j: nat)
    requires j < |s| && s[j] == d && forall k | 0 <= k < j :: s[k] != d
    ensures FirstIndex(s, d) == j
  {
  }

  // ---------------------------------------------------------------------
  // flatten

  /** The slices joined end to end, in order. */
  function Concat(slices: seq<seq<byte>>): (r: seq<byte>)
    ensures (forall t | t in slices :: |t| == IPv4Len) ==> |r| == IPv4Len * |slices|
  {
    if slices == [] then []
    else Concat(slices[..|slices| - 1]) + slices[|slices| - 1]
  }

  /** flatten: appends every slice to an accumulator, in order. */
  method Flatten(slices: seq<seq<byte>>) returns (res: seq<byte>)
    ensures res == Concat(slices)
  {
    res := [];
    for k := 0 to |slices|
      invariant res == Concat(slices[..k])
    {
      assert slices[..k + 1][..k] == slices[..k];
      res := res + slices[k];
    }
    assert slices[..|slices|] == slices;
  }

  /** Joining is a homomorphism: joining two lists of slices one after the
      other gives the two joins one after the other. */
  lemma {:induction false} ConcatAppend(a: seq<seq<byte>>, b: seq<seq<byte>>)
    ensures Concat(a + b) == Concat(a) + Concat(b)
  {
    if b == [] {
      assert a + b == a;
    } else {
      var b' := b[..|b| - 1];
      assert (a + b)[..|a + b| - 1] == a + b';
      ConcatAppend(a, b');
    }
  }

  /** In a join of 4-byte slices, byte j of slice i sits at offset 4i + j. */
  lemma {:induction false} ConcatAt(slices: seq<seq<byte>>, i: nat, j: nat)
    requires forall t | t in slices :: |t| == IPv4Len
    requires i < |slices| && j < IPv4Len
    ensures IPv4Len * i + j < |Concat(slices)|
    ensures Concat(slices)[IPv4Len * i + j] == slices[i][j]
  {
    var init := slices[..|slices| - 1];
    assert forall t | t in init :: t in slices;
    if i < |slices| - 1 {
      ConcatAt(init, i, j);
    }
  }

  // ---------------------------------------------------------------------
  // ipv4sToByteSlices

  /** An address is kept only in its 16-byte form (a nil address has length 0). */
  predicate Accepted(ip: IP)
  {
    |ip| == IPv6Len
  }

  /** The last four bytes of every accepted address, in input order. */
  function AcceptedTails(ips: seq<IP>): (r: seq<seq<byte>>)
    ensures |r| <= |ips|
    ensures forall t | t in r :: |t| == IPv4Len
  {
    if ips == [] then []
    else
      var last := ips[|ips| - 1];
      AcceptedTails(ips[..|ips| - 1])
        + (if Accepted(last) then [last[IPv6Len - IPv4Len..]] else [])
  }

  /** ipv4sToByteSlices: skips the addresses that are not 16 bytes long
      and appends the tail ip[12:] of each other one. */
  method Ipv4sToByteSlices(ips: seq<IP>) returns (slices: seq<seq<byte>>)
    ensures slices == AcceptedTails(ips)
  {
    slices := [];
    for k := 0 to |ips|
      invariant slices == AcceptedTails(ips[..k])
    {
      assert ips[..k + 1][..k] == ips[..k];
      var ip := ips[k];
      if |ip| != IPv6Len {
        continue;
      }
      slices := slices + [ip[IPv6Len - IPv4Len..]];
    }
    assert ips[..|ips|] == ips;
  }

  /** Filtering preserves order: the tails of two address lists one after
      the other are the two lists of tails one after the other. */
  lemma {:induction false} AcceptedTailsAppend(a: seq<IP>, b: seq<IP>)
    ensures AcceptedTails(a + b) == AcceptedTails(a) + AcceptedTails(b)
  {
    if b == [] {
      assert a + b == a;
    } else {
      var b' := b[..|b| - 1];
      assert (a + b)[..|a + b| - 1] == a + b';
      AcceptedTailsAppend(a, b');
    }
  }

  /** An address that is not 16 bytes long is dropped wherever it stands. */
  lemma AcceptedTailsDrops(a: seq<IP>, ip: IP, b: seq<IP>)
    requires !Accepted(ip)
    ensures AcceptedTails(a + [ip] + b) == AcceptedTails(a + b)
  {
    assert AcceptedTails([ip]) == [] by {
      assert [ip][..0] == [];
    }
    calc {
      AcceptedTails(a + [ip] + b);
      { AcceptedTailsAppend(a + [ip], b); }
      AcceptedTails(a + [ip]) + AcceptedTails(b);
      { AcceptedTailsAppend(a, [ip]); }
      AcceptedTails(a) + AcceptedTails(b);
      { AcceptedTailsAppend(a, b); }
      AcceptedTails(a + b);
    }
  }

  /** When every address is in 16-byte form, none is dropped and tail i is
      the last four bytes of address i. */
  lemma {:induction false} AcceptedTailsAllAccepted(ips: seq<IP>)
    requires forall i | 0 <= i < |ips| :: |ips[i]| == IPv6Len
    ensures |AcceptedTails(ips)| == |ips|
    ensures forall i | 0 <= i < |ips| :: AcceptedTails(ips)[i] == ips[i][IPv6Len - IPv4Len..]
  {
    if ips != [] {
      var init := ips[..|ips| - 1];
      AcceptedTailsAllAccepted(init);
      var last := ips[|ips| - 1];
      assert AcceptedTails(ips) == AcceptedTails(init) + [last[IPv6Len - IPv4Len..]];
    }
  }

  // ---------------------------------------------------------------------
  // prepareResponseData

  /** The reply data: 16 zero bytes, the accepted tails in order, then zero
      padding up to 64 bytes. With more than MaxAddresses accepted tails the
      padding length is negative and the allocation panics; there is no
      path that leaves a long reply unpadded. */
  function ResponseData(ips: seq<IP>): (r: Outcome<seq<byte>>)
    ensures r.Return? <==> |AcceptedTails(ips)| <= MaxAddresses
    ensures !r.Return? ==> r == Panic(MakeLenOutOfRange)
    ensures r.Return? ==> |r.value| == MinimumDataLength
    ensures r.Return? ==> forall j | 0 <= j < LeadingDataLength :: r.value[j] == 0
    ensures r.Return? ==>
      forall j | LeadingDataLength + IPv4Len * |AcceptedTails(ips)| <= j < MinimumDataLength :: r.value[j] == 0
  {
    var content := Zeros(LeadingDataLength) + Concat(AcceptedTails(ips));
    var padding := MinimumDataLength - |content|;
    if padding < 0 then Panic(MakeLenOutOfRange)
    else Return(content + Zeros(padding))
  }

  /** prepareResponseData: leading zeros, then the flattened tails, then a
      padding slice of length 64 minus what is there so far. */
  method PrepareResponseData(ips: seq<IP>) returns (out: Outcome<seq<byte>>)
    ensures out == ResponseData(ips)
  {
    var responseData := Zeros(LeadingDataLength);
    var slices := Ipv4sToByteSlices(ips);
    var flat := Flatten(slices);
    responseData := responseData + flat;
    var paddingLength := MinimumDataLength - |responseData|;
    if paddingLength < 0 {
      return Panic(MakeLenOutOfRange);
    }
    responseData := responseData + Zeros(paddingLength);
    return Return(responseData);
  }

  /** Byte j of accepted address i is at offset 16 + 4i + j of the reply data. */
  lemma ResponseDataCarries(ips: seq<IP>, i: nat, j: nat)
    requires |AcceptedTails(ips)| <= MaxAddresses
    requires i < |AcceptedTails(ips)| && j < IPv4Len
    ensures ResponseData(ips).Return?
    ensures ResponseData(ips).value[LeadingDataLength + IPv4Len * i + j] == AcceptedTails(ips)[i][j]
  {
    var tails := AcceptedTails(ips);
    ConcatAt(tails, i, j);
    var content := Zeros(LeadingDataLength) + Concat(tails);
    var data := content + Zeros(MinimumDataLength - |content|);
    assert ResponseData(ips) == Return(data);
    assert data[LeadingDataLength + IPv4Len * i + j] == content[LeadingDataLength + IPv4Len * i + j];
  }

  /** When every resolved address is in 16-byte form and there are at most
      12 of them, the reply data shows address i's last four bytes at
      offset 16 + 4i. */
  lemma ResponseDataShowsAddresses(ips: seq<IP>, i: nat, j: nat)
    requires forall k | 0 <= k < |ips| :: |ips[k]| == IPv6Len
    requires |ips| <= MaxAddresses && i < |ips| && j < IPv4Len
    ensures ResponseData(ips).Return?
    ensures ResponseData(ips).value[LeadingDataLength + IPv4Len * i + j] == ips[i][IPv6Len - IPv4Len + j]
  {
    AcceptedTailsAllAccepted(ips);
    ResponseDataCarries(ips, i, j);
  }

  /** The IPv4 address a.b.c.d in 16-byte IPv4-mapped form, ::ffff:a.b.c.d. */
  function V4Mapped(a: byte, b: byte, c: byte, d: byte): (ip: IP)
    ensures Accepted(ip)
  {
    Zeros(10) + [0xFF, 0xFF, a, b, c, d]
  }

  /** The reply data for the single address a.b.c.d: 16 zero bytes, the
      bytes a, b, c, d, and 44 zero bytes. */
  lemma OneAddressData(a: byte, b: byte, c: byte, d: byte)
    ensures ResponseData([V4Mapped(a, b, c, d)]) == Return(Zeros(16) + [a, b, c, d] + Zeros(44))
  {
    var ip := V4Mapped(a, b, c, d);
    var ips := [ip];
    assert ips[..0] == [];
    assert ip[IPv6Len - IPv4Len..] == [a, b, c, d];
    assert AcceptedTails(ips) == [[a, b, c, d]];
    assert [[a, b, c, d]][..0] == [];
    assert Concat([[a, b, c, d]]) == [a, b, c, d];
  }

  /** More than 12 addresses in 16-byte form make the padding length
      negative: building the reply data panics instead of returning a
      longer, unpadded reply. */
  lemma ManyAddressesPanic(ips: seq<IP>)
    requires forall k | 0 <= k < |ips| :: |ips[k]| == IPv6Len
    requires |ips| > MaxAddresses
    ensures ResponseData(ips) == Panic(MakeLenOutOfRange)
  {
    AcceptedTailsAllAccepted(ips);
  }

  // ---------------------------------------------------------------------
  // The tail shared by both handleICMPEcho variants: after the lookup.

  /** The answer to `request` once the name lookup has produced `lookup`:
      an error when the lookup failed, otherwise an Echo Reply carrying the
      reply data (or the panic that building that data raises). */
  function AnswerWith(request: Echo, lookup: Lookup): (r: Outcome<Message>)
    ensures r.Fail? <==> lookup.LookupError?
    ensures r.Fail? ==> r.err == ResolveFailed
    ensures r.Panic? <==> lookup.Resolved? && |AcceptedTails(lookup.ips)| > MaxAddresses
    ensures r.Return? ==> IsReplyTo(r.value, request)
    ensures r.Return? ==> Return(r.value.body.echo.data) == ResponseData(lookup.ips)
  {
    match lookup
    case LookupError => Fail(ResolveFailed)
    case Resolved(ips) =>
      var data := ResponseData(ips);
      if !data.Return? then Panic(data.kind)
      else Return(Message(TypeEchoReply, 0, EchoBody(Echo(request.id, request.seqNum, data.value))))
  }
}
