# U2F request decoding and dispatch, modelled in Dafny

This project models the U2F raw-message layer of virtual-fido, a software
FIDO/U2F security key. The host sends a U2F request (an APDU) to the key.
The key splits it into three parts and answers it:

- a four-byte header: class (CLA), instruction (INS) and two parameter bytes (P1, P2);
- an optional request body;
- an optional expected response length.

The request uses the extended-length encoding of section 3.1 of the FIDO U2F
Raw Message Formats. After the header there is one of three things:

- nothing;
- `00 LL LL` and nothing more, where `LL LL` is the response length;
- `00 LL LL`, then `LL LL` body bytes, then optionally a two-byte response length.

Only `VERSION` (section 6.1 of the same document) is answered. Its reply is
the ASCII string `U2F_V2` followed by the status word `0x9000`.

Files:

- `wire.dfy` (module `Wire`) holds the byte and 16-bit integer types, the
  `Result`/`Option` types and big-endian 16-bit reading and writing. It also
  holds `ByteBuffer`, a class for the read cursor the decoder moves through
  the request. The class has the request bytes and an offset that only moves
  forward.
- `u2f.dfy` (module `U2F`) holds the rest:
  - the instruction and status-word constants;
  - the header record;
  - `Decode`, which states decoding by byte position;
  - `DecodeU2FMessage` and `ReadLengthsAndBody`, which decode by stepping a
    `ByteBuffer`, as the implementation does, and are proved to compute `Decode`;
  - `Encode`, the shortest encoding of a request. It has no counterpart in the
    implementation and serves as the inverse for the round-trip property;
  - `ProcessU2FMessage`, the dispatcher.
- `u2f_properties.dfy` (module `U2FProperties`) holds the lemmas about the
  three encoding forms, the round trip and the dispatcher's replies.

The implementation aborts the process in two places: on a byte other than 0
right after the header, and on any instruction other than `VERSION`. The
model returns `Err` in both places. Where a helper read (`readBE`, `read`)
finds fewer bytes than it needs, the model also returns `Err`.

## Model

| member | source | states |
|---|---|---|
| `Wire.ToBE16` | u2f.go:79 | Writing a 16-bit value gives two bytes, most significant first, and reading them back gives the value again. |
| `Wire.FromBE16` | u2f.go:60-70 | Reading a big-endian 16-bit value: the first byte is the value's high byte and the second its low byte. |
| `Wire.ToBE16FromBE16` | u2f.go:60 | Reading a big-endian 16-bit value and writing it back gives the same two bytes. |
| `Wire.ByteBuffer.Len` | u2f.go:51-67 | The length the decoder branches on is exactly the number of bytes not yet read. |
| `Wire.ByteBuffer.constructor` | u2f.go:49 | A new buffer has the whole request unread. |
| `Wire.ByteBuffer.Next` | u2f.go:66 | Taking n bytes returns the first n unread bytes and consumes exactly them. When fewer remain, it fails and consumes nothing. |
| `Wire.ByteBuffer.ReadBE16` | u2f.go:60 | Returns the big-endian value of the next two unread bytes and consumes them. When fewer than two remain, it fails and consumes nothing. |
| `U2F.CommandCode` | u2f.go:8-14 | REGISTER, AUTHENTICATE and VERSION are instruction bytes 0x01, 0x02 and 0x03, and each byte maps back to its command. |
| `U2F.CommandFromCode` | u2f.go:8-14 | An instruction byte names a command exactly when it is 0x01, 0x02 or 0x03. |
| `U2F.Description` | u2f.go:16-20 | Every command's name starts with `U2F_COMMAND_`. |
| `U2F.DescriptionsDistinct` | u2f.go:16-20 | No two commands share a name in the table. |
| `U2F.LookupDescription` | u2f.go:16-20 | A lookup in the name table gives the command's name for 0x01 to 0x03 and the empty string for any other byte. |
| `U2F.StatusValue` | u2f.go:22-31 | The six status words have the values 0x9000, 0x6985, 0x6A80, 0x6700, 0x6E00 and 0x6D00, each distinct and mapping back to its word. |
| `U2F.HeaderBytes` | u2f.go:33-38 | A header is four bytes on the wire. |
| `U2F.HeaderFromBytes` | u2f.go:33-38 | Reading a header takes CLA, INS, P1 and P2 in wire order: the header written back gives the same four bytes. |
| `U2F.ReadHeader` | u2f.go:50 | Reading the header consumes the next four bytes and returns them as a header in field order. When fewer remain, it fails and consumes nothing. |
| `U2F.Decode` | u2f.go:48-72 | A decoded header is the first four request bytes. A non-empty decoded body is the request bytes starting at offset 7. A byte other than 0 right after the header rejects the request. |
| `U2F.DecodeU2FMessage` | u2f.go:48-72 | Stepping a read cursor through the request gives exactly the result that `Decode` states by position, errors included. |
| `U2F.ReadLengthsAndBody` | u2f.go:60-71 | Once the header and the 0 byte are read, reading the length, the body and the response length from the cursor gives the result that `Decode` states for the whole request. |
| `U2F.ProcessU2FMessage` | u2f.go:74-85 | A request gets a reply exactly when it decodes and its instruction is VERSION. The reply is `U2F_V2` followed by 0x90 0x00. A request that does not decode gets that decode error. |
| `U2FProperties.DecodeHeaderOnly` | u2f.go:50-53 | A four-byte request decodes to its bytes as CLA, INS, P1 and P2, with an empty body and response length 0. |
| `U2FProperties.DecodeResponseLengthOnly` | u2f.go:60-64 | `header 00 hi lo` with nothing after it decodes to an empty body and response length hi*256+lo. |
| `U2FProperties.EmptyRequestIndistinguishable` | u2f.go:60-64 | A request-length prefix of 0 cannot be told apart from the forms without a body. `00 00 00` decodes like a bare header, and `00 00 00 LE` decodes like `00 LE`. |
| `U2FProperties.DecodeRequestOnly` | u2f.go:65-68 | `header 00 BE16(n) body` with n, the body length, at least 1 and nothing after it decodes to exactly that body and response length 0. |
| `U2FProperties.DecodeRequestAndResponse` | u2f.go:66-71 | `header 00 BE16(n) body BE16(m)` decodes to that body and response length m. Any bytes after it are ignored. |
| `U2FProperties.DecodeEncode` | u2f.go:48-72 | Round trip: encoding a header, a body of at most 65535 bytes and a response length, then decoding, gives back all three. |
| `U2FProperties.DecodedHasCanonicalEncoding` | u2f.go:60-71 | Every request that decodes has a body of at most 65535 bytes. Encoding what was decoded and decoding again gives the same result. |
| `U2FProperties.ShortRequestsRejected` | u2f.go:50-70 | A request that runs out early is rejected: fewer than four bytes, the 0 byte with fewer than two length bytes after it, fewer body bytes than announced, or exactly one byte where the response length belongs. |
| `U2FProperties.DecodedIsOneOfThreeForms` | u2f.go:48-72 | Every accepted request is the header alone, the response-length form, the request form, or the request-plus-response-length form followed by any bytes, and the decoded parts are the ones that form carries. |
| `U2FProperties.VersionResponseBytes` | u2f.go:78-79 | The version reply is eight bytes: the ASCII string `U2F_V2`, then status word 0x9000 in big-endian order. |
| `U2FProperties.VersionAlwaysAnswered` | u2f.go:77-81 | A VERSION request gets the version reply whatever its CLA, P1, P2, body and response length. |
| `U2FProperties.OtherCommandsUnanswered` | u2f.go:82-84 | Every well-formed request with an instruction other than VERSION gets no reply, REGISTER and AUTHENTICATE included. |

## Left out

- The implementation aborts on an instruction other than VERSION; it does not answer with status word 0x6D00 (instruction not supported). The model follows the implementation and returns `Err(UnsupportedCommand)`. A design that answers such requests with 0x6D00 is not what the code does.
- The bodies of `readBE`, `read` and `toBE` are not part of this model. They are modelled only by their big-endian meaning. What `read` does when fewer bytes remain than requested is not modelled: the model's read fails instead.
- A response length of `00 00` is kept as the value 0, as the implementation keeps it. The reading of `00 00` as 65536 in ISO/IEC 7816-4 is not modelled.
- `U2FMessageHeader.String()` and the `fmt.Printf` logging (u2f.go:40-46, 76, 80) only format diagnostic text. They are not modelled beyond the name table.
- REGISTER and AUTHENTICATE processing, key generation, signing and attestation certificates (identities/attestation.go) are not modelled. They call into cryptographic libraries and the wall clock, and the dispatcher shown never reaches them.
- The USB/IP server, the virtual USB device, CTAPHID framing and CTAP2 processing are not part of this model. client_usbip.go only starts that server.
