# dns-over-ping codec, modelled in Dafny

dns-over-ping answers name lookups over ping. A client hides a hostname
between two `?` bytes in the data of an ICMP Echo Request, after a
16-byte offset region. The server looks the name up (IPv4 only) and
answers with an Echo Reply. That reply copies the request's identifier
and sequence number. Its data is 16 zero bytes, then the last four bytes
of each resolved address, then zeros up to 64 bytes. Ping's "wrong data"
display hides the first 16 bytes, so what it shows are the addresses. The
messages are the Echo and Echo Reply messages of RFC 792 ("Echo or Echo
Reply Message"). The server deliberately does not return the echo data
unchanged, as that section asks.

The codec exists twice: `pingdns.go` (the live package) and `doicmp.go`
(an older one). Their helpers are identical, line for line
(`findIndex`, `flatten`, `ipv4sToByteSlices`, `prepareResponseData`; in
`doicmp.go` at lines 123-133 and 151-178). They are modelled once, in
module `Codec`, and cited at their `pingdns.go` lines below.

The variants differ at three edges:
- `doicmp.go` slices the data at offset 16 without a length check, so
  data shorter than 16 bytes panics.
- On a missing `?`, `doicmp.go` returns an empty name and no error, and
  then looks up the empty name.
- `doicmp.go` ends its serve loop on any handling error. This one is not
  modelled (see "Left out").

Files:
- `icmp.dfy` (module `Icmp`): the logical messages. A message is
  (type, code, body), and an Echo body is (identifier, sequence number,
  data). It also holds the parser's and resolver's outcomes as inputs, the
  error kinds, and `Outcome`. An `Outcome` is the three ways a Go call
  ends: it returns a value, returns an error, or panics.
- `codec.dfy` (module `Codec`): the shared helpers. Each helper that
  loops in Go is a method with that loop, proved equal to a specification
  function: `FindIndex`/`FirstIndex`, `Flatten`/`Concat`,
  `Ipv4sToByteSlices`/`AcceptedTails`,
  `PrepareResponseData`/`ResponseData`. Lemmas about those functions
  state what the source promises. `AnswerWith` is the part both
  `handleICMPEcho` variants share, after the lookup.
- `pingdns.dfy` (module `PingDns`) and `doicmp.dfy` (module `DoIcmp`):
  each variant's `extractNameFromPayload`, `handleICMPEcho` and
  `handleBytes` type dispatch. In Go these are straight-line compositions,
  so here they are functions over the specification functions. The
  lemmas relate the two variants.

Inputs instead of calls:
- The parsed message is a parameter `parsed: Parse`: either a parse
  error or a message.
- The DNS lookup is a parameter `resolve: seq<byte> -> Lookup`, which
  maps a name to a failure or to the list of returned addresses.
  "Rejected before any lookup" therefore reads: the result does not
  depend on `resolve`.

Go panics are explicit outcomes:
- `make([]byte, 64-len(responseData))` with more than 12 accepted
  addresses is `Panic(MakeLenOutOfRange)`.
- `request.Data[16:]` on short data in `doicmp.go` is
  `Panic(SliceBoundsOutOfRange)`.

Two places where the code's evident intent and its behaviour part:
- The name `pingMinimumDataLength` and the comment at pingdns.go:133-134
  suggest padding the reply data up to a minimum of 64 bytes. That would
  leave a longer reply, one with 13 or more addresses, unpadded at
  16 + 4k bytes. But `make([]byte, 64-len(responseData))` with a negative
  length panics (pingdns.go:138, doicmp.go:129). The model keeps the
  panic: `ManyAddressesPanic` states it, and no path in the model produces
  reply data longer than 64 bytes.
- pingdns.go:148-155 treats a missing delimiter as an error, while
  doicmp.go:139-146 returns the empty name with no error and then looks
  that name up. Each module models its own file.

## Model

| member | source | states |
|---|---|---|
| Codec.FirstIndex | pingdns.go:164-171 | the result is -1 exactly when the byte does not occur; otherwise it is an index in range that holds the byte, and no earlier index holds it |
| Codec.FirstIndexFrom | pingdns.go:165-170 | the walk from index i returns -1 exactly when no index from i on holds the byte, else the least such index |
| Codec.FindIndex | pingdns.go:164-171 | the loop with early return yields exactly the least index holding the delimiter, or -1 |
| Codec.FirstIndexIsLeast | pingdns.go:165-168 | an index that holds the byte, with none before it, is the one the search returns |
| Codec.Concat | pingdns.go:173-179 | joining k slices of 4 bytes gives 4k bytes |
| Codec.Flatten | pingdns.go:173-179 | the append loop produces the in-order join of all slices |
| Codec.ConcatAppend | pingdns.go:173-179 | joining is order-preserving: the join of a ++ b is the join of a followed by the join of b |
| Codec.ConcatAt | pingdns.go:173-179 | in a join of 4-byte slices, byte j of slice i sits at offset 4i + j |
| Codec.AcceptedTails | pingdns.go:181-191 | at most one 4-byte tail per input address |
| Codec.Ipv4sToByteSlices | pingdns.go:181-191 | the filtering loop skips addresses not 16 bytes long (nil included) and keeps ip[12:] of each other one, in order |
| Codec.AcceptedTailsAppend | pingdns.go:181-191 | filtering preserves order: tails of a ++ b are the tails of a followed by those of b |
| Codec.AcceptedTailsDrops | pingdns.go:184-186 | an address that is not 16 bytes long is dropped wherever it stands |
| Codec.AcceptedTailsAllAccepted | pingdns.go:183-188 | when every address is 16 bytes, none is dropped and tail i is the last four bytes of address i |
| Codec.ResponseData | pingdns.go:132-141 | the data is built exactly when at most 12 addresses are accepted, else the negative-length make panics; when built it is 64 bytes, starts with 16 zeros, and every byte after 16 + 4k is zero |
| Codec.PrepareResponseData | pingdns.go:132-141 | leading zeros, appended flattened tails and the padding allocation give exactly ResponseData, panic included |
| Codec.ResponseDataCarries | pingdns.go:135-136 | byte j of accepted tail i is at offset 16 + 4i + j of the reply data |
| Codec.ResponseDataShowsAddresses | pingdns.go:132-141 | for at most 12 addresses, all 16 bytes long, the reply shows byte 12 + j of address i at offset 16 + 4i + j |
| Codec.OneAddressData | pingdns.go:132-141 | one address a.b.c.d gives 16 zero bytes, a, b, c, d, then 44 zero bytes |
| Codec.ManyAddressesPanic | pingdns.go:138 | more than 12 addresses of 16 bytes make building the reply data panic: there is no unpadded long reply |
| Codec.AnswerWith | pingdns.go:116-129 | a failed lookup is ResolveFailed; otherwise the answer is an Echo Reply, code 0, with the request's identifier and sequence number and ResponseData as data, or the panic building it raises (exactly when more than 12 addresses are accepted) |
| PingDns.ExtractName | pingdns.go:144-162 | the only error is DelimiterNotFound; an extracted name contains no '?' and is at least two bytes shorter than the payload |
| PingDns.ExtractNameOfEmbedded | pingdns.go:147-157 | for a '?'-free prefix and a '?'-free name, extracting from prefix ? name ? rest returns exactly the name, whatever the rest holds |
| PingDns.ExtractNameSplits | pingdns.go:147-157 | conversely, an extracted name lies strictly between the first '?' and the next one: the payload is a '?'-free prefix, '?', the name, '?', the rest |
| PingDns.ExtractNameFailsIff | pingdns.go:147-155 | extraction fails exactly when the payload holds fewer than two '?' bytes, a lone trailing '?' included |
| PingDns.HandleEcho | pingdns.go:105-130 | data shorter than 16 bytes is DataTooShort whatever the resolver does; every reply is an Echo Reply, code 0, with the request's identifier and sequence number and 64 bytes of data; the only panic is the padding one |
| PingDns.HandleEchoEmbedded | pingdns.go:106-116 | 16 bytes of any content (even '?'), then ? name ? trailer, is answered from the lookup of exactly that name |
| PingDns.HandleEchoNoName | pingdns.go:111-114 | fewer than two '?' after the offset region is DelimiterNotFound, with no lookup |
| PingDns.HandleEchoIgnoresOffsetRegion | pingdns.go:106-111 | the first 16 data bytes are never searched: replacing them does not change the answer |
| PingDns.OneAddressReply | pingdns.go:105-141 | a name that resolves to a.b.c.d is answered with 16 zeros, a, b, c, d and 44 zeros under the request's identifier and sequence number |
| PingDns.HandleBytes | pingdns.go:80-103 | a parse error is ParseFailed; no reply and no error happens exactly for a type other than Echo; an Echo with a non-Echo body is NotEchoBody; an Echo with an Echo body gets exactly handleICMPEcho's reply, error or panic, and every reply answers the parsed Echo |
| DoIcmp.ExtractName | doicmp.go:136-149 | never fails; the name returned contains no '?' |
| DoIcmp.ExtractNameVersusLive | doicmp.go:138-148 | with two '?' it extracts what the live variant extracts; with fewer it returns the empty name where the live variant fails |
| DoIcmp.HandleEcho | doicmp.go:101-121 | data shorter than 16 bytes panics on the slice; the only error is ResolveFailed; every reply answers the request with 64 bytes of data |
| DoIcmp.HandleEchoAgrees | doicmp.go:101-121 | when the data holds a name after the offset region, both variants answer identically |
| DoIcmp.HandleEchoLooksUpEmptyName | doicmp.go:102-110 | with a delimiter missing, this variant answers from the lookup of the empty name, while the live one returns DelimiterNotFound |
| DoIcmp.HandleBytes | doicmp.go:76-99 | the same dispatch as the live variant: a type other than Echo gives no reply and no error; an Echo with an Echo body gets exactly this variant's handleICMPEcho reply, error or panic; a panic comes only from an Echo, and it is the slice panic exactly when the data is shorter than 16 bytes |

## Left out

- The `Serve` loops (pingdns.go:49-78, doicmp.go:46-74) are socket I/O
  in an endless loop: listening, reading, writing, and the buffer of
  `snaplen` bytes. Their policy after a handling error is not modelled.
  `pingdns.go` logs the error and reads the next datagram; `doicmp.go`
  returns the error and stops serving.
- `icmp.ParseMessage` and `Message.Marshal` belong to a foreign library.
  The parse result is an input, and the model stops at the logical reply
  (type, code, identifier, sequence number, data). Header bytes and the
  checksum are not modelled.
- `net.DefaultResolver.LookupIP` is blocking network DNS. Its outcome
  is the `resolve` parameter. Timeouts and blocking are not modelled.
- The error message texts and the `%w` wrapping are reduced to error
  kinds. The zap logging calls are left out.
- `NewServer` and the `WithSnaplen`/`WithNetwork`/`Address` setters only
  configure the I/O loop. The setters have value receivers, so they
  change nothing. `cmd/pingdns/main.go` is flag parsing and logger setup.
- The byte-slice to string conversion of the name is the identity on
  bytes.
- A nil address (length 0) and any other address not 16 bytes long,
  a 4-byte IPv4 address included, fail the same `len(ip) != 16` test
  (pingdns.go:184) and are dropped (`AcceptedTailsDrops`).
