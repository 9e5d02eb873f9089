/** The U2F raw-message (APDU) layer of the emulated authenticator: the
    instruction and status-word constants, the four-byte request header, the
    decoder for the extended-length request encoding of section 3.1 of the
    FIDO U2F Raw Message Formats, and the dispatcher that answers a request.

    Where the implementation aborts on a malformed request or an instruction
    it does not handle, the model returns `Err`.
 */
module U2F {
  import opened Wire

  /** The instructions the implementation names. */
  datatype Command = Register | Authenticate | Version

  /** The instruction byte of each command. */
  function CommandCode(c: Command): (ins: uint8)
    ensures CommandFromCode(ins) == Some(c)
  {
    match c
    case Register => 0x01
    case Authenticate => 0x02
    case Version => 0x03
  }

  /** The command an instruction byte names, if any. */
  function CommandFromCode(ins: uint8): (c: Option<Command>)
    ensures c.Some? <==> 0x01 <= ins <= 0x03
  {
    if ins == 0x01 then Some(Register)
    else if ins == 0x02 then Some(Authenticate)
    else if ins == 0x03 then Some(Version)
    else None
  }

  /** The diagnostic name of a command. */
  function Description(c: Command): (s: string)
    ensures |s| > |"U2F_COMMAND_"| && s[..|"U2F_COMMAND_"|] == "U2F_COMMAND_"
  {
    match c
    case Register => "U2F_COMMAND_REGISTER"
    case Authenticate => "U2F_COMMAND_AUTHENTICATE"
    case Version => "U2F_COMMAND_VERSION"
  }

  /** Each command has its own name in the table. */
  lemma DescriptionsDistinct(c1: Command, c2: Command)
    ensures Description(c1) == Description(c2) ==> c1 == c2
  {
  }

  /** Looking an instruction byte up in the table of names: a byte that names
      no command gets the empty string, as a lookup of a missing key does. */
  function LookupDescription(ins: uint8): (s: string)
    ensures s != [] <==> CommandFromCode(ins).Some?
    ensures forall c: Command :: CommandCode(c) == ins ==> s == Description(c)
  {
    match CommandFromCode(ins)
    case Some(c) => Description(c)
    case None => ""
  }

  /** The status words a response can end with. */
  datatype StatusWord =
    | NoError
    | ConditionsNotSatisfied
    | WrongData
    | WrongLength
    | ClaNotSupported
    | InsNotSupported

  /** The 16-bit value of each status word. */
  function StatusValue(sw: StatusWord): (v: uint16)
    ensures StatusFromValue(v) == Some(sw)
  {
    match sw
    case NoError => 0x9000
    case ConditionsNotSatisfied => 0x6985
    case WrongData => 0x6A80
    case WrongLength => 0x6700
    case ClaNotSupported => 0x6E00
    case InsNotSupported => 0x6D00
  }

  /** The status word a 16-bit value stands for, if any. */
  function StatusFromValue(v: uint16): (sw: Option<StatusWord>)
  {
    if v == 0x9000 then Some(NoError)
    else if v == 0x6985 then Some(ConditionsNotSatisfied)
    else if v == 0x6A80 then Some(WrongData)
    else if v == 0x6700 then Some(WrongLength)
    else if v == 0x6E00 then Some(ClaNotSupported)
    else if v == 0x6D00 then Some(InsNotSupported)
    else None
  }

  /** The request header: class, instruction and two parameter bytes. The
      instruction is kept as a raw byte, since any value can arrive. */
  datatype U2FMessageHeader = U2FMessageHeader(cla: uint8, command: uint8, param1: uint8, param2: uint8)

  /** The header's four bytes in wire order. */
  function HeaderBytes(h: U2FMessageHeader): (b: seq<uint8>)
    ensures |b| == 4
  {
    [h.cla, h.command, h.param1, h.param2]
  }

  /** The header whose wire form is `b`, fields taken in wire order. */
  function HeaderFromBytes(b: seq<uint8>): (h: U2FMessageHeader)
    requires |b| == 4
    ensures HeaderBytes(h) == b
  {
    U2FMessageHeader(b[0], b[1], b[2], b[3])
  }

  /** A decoded request: the header, the request body and the expected
      response length (0 when the request does not give one). */
  datatype U2FMessage = U2FMessage(header: U2FMessageHeader, request: seq<uint8>, responseLength: uint16)

  /** Why a request could not be decoded. */
  datatype DecodeError =
    | TruncatedHeader                   // fewer than four bytes
    | InvalidPayloadLength(marker: uint8) // the byte after the header is not 0
    | TruncatedLength                   // fewer than two bytes after the 0 byte
    | TruncatedRequest                  // fewer body bytes than the length announces
    | TruncatedResponseLength           // one byte where a response length belongs

  /** Decoding a request, stated by byte position. After the header comes
      nothing; or a 0 byte and a 16-bit length that is the response length
      when nothing follows it; or else the request length, then that many
      body bytes, then, if anything is left, a 16-bit response length. Bytes
      after the response length are not looked at. */
  function Decode(m: seq<uint8>): (r: Result<U2FMessage, DecodeError>)
    ensures r.Ok? ==> |m| >= 4 && HeaderBytes(r.value.header) == m[..4]
    ensures r.Ok? && r.value.request != [] ==> 7 + |r.value.request| <= |m| && m[7..7 + |r.value.request|] == r.value.request
    ensures |m| > 4 && m[4] != 0 ==> r == Err(InvalidPayloadLength(m[4]))
  {
    if |m| < 4 then Err(TruncatedHeader)
    else
      var header := HeaderFromBytes(m[..4]);
      if |m| == 4 then Ok(U2FMessage(header, [], 0))
      else if m[4] != 0 then Err(InvalidPayloadLength(m[4]))
      else if |m| < 7 then Err(TruncatedLength)
      else
        var length := FromBE16(m[5..7]) as int;
        if |m| == 7 then Ok(U2FMessage(header, [], length as uint16))
        else if |m| < 7 + length then Err(TruncatedRequest)
        else if |m| == 7 + length then Ok(U2FMessage(header, m[7..], 0))
        else if |m| < 9 + length then Err(TruncatedResponseLength)
        else Ok(U2FMessage(header, m[7..7 + length], FromBE16(m[7 + length..9 + length])))
  }

  /** Reads the four header bytes in field order; fails, consuming nothing,
      when fewer than four remain. */
  method ReadHeader(buffer: ByteBuffer) returns (r: Result<U2FMessageHeader, ReadError>)
    requires buffer.Valid()
    modifies buffer
    ensures buffer.Valid()
    ensures 4 <= old(buffer.Len()) ==>
              r == Ok(HeaderFromBytes(old(buffer.Unread())[..4])) && buffer.Unread() == old(buffer.Unread())[4..]
    ensures old(buffer.Len()) < 4 ==> r.Err? && buffer.Unread() == old(buffer.Unread())
  {
    var bytes := buffer.Next(4);
    match bytes
    case Ok(b) => r := Ok(HeaderFromBytes(b));
    case Err(e) => r := Err(e);
  }

  /** Decodes a request by moving a read cursor through it: the header, then,
      if anything is left, the 0 byte, then the lengths and the body. */
  method DecodeU2FMessage(message: seq<uint8>) returns (r: Result<U2FMessage, DecodeError>)
    ensures r == Decode(message)
  {
    var buffer := new ByteBuffer(message);
    var header := ReadHeader(buffer);
    if header.Err? {
      return Err(TruncatedHeader);
    }
    assert header.value == HeaderFromBytes(message[..4]) && buffer.Unread() == message[4..];
    if buffer.Len() == 0 {
      return Ok(U2FMessage(header.value, [], 0));
    }
    var marker := buffer.Next(1);
    assert marker.value[0] == message[4] && buffer.Unread() == message[5..];
    if marker.value[0] != 0 {
      return Err(InvalidPayloadLength(marker.value[0]));
    }
    r := ReadLengthsAndBody(buffer, header.value, message);
  }

  /** The rest of decoding, once the header and the 0 byte of `message` have
      been read: a 16-bit length that is the response length if nothing
      follows it, and otherwise the request length, then that many body
      bytes, then, if anything is left, a 16-bit response length. */
  method ReadLengthsAndBody(buffer: ByteBuffer, header: U2FMessageHeader, ghost message: seq<uint8>)
    returns (r: Result<U2FMessage, DecodeError>)
    requires buffer.Valid()
    requires |message| > 4 && message[4] == 0 && header == HeaderFromBytes(message[..4])
    requires buffer.Unread() == message[5..]
    modifies buffer
    ensures r == Decode(message)
  {
    var length := buffer.ReadBE16();
    if length.Err? {
      return Err(TruncatedLength);
    }
    assert length.value == FromBE16(message[5..7]) && buffer.Unread() == message[7..];
    if buffer.Len() == 0 {
      return Ok(U2FMessage(header, [], length.value));
    }
    var request := buffer.Next(length.value as nat);
    if request.Err? {
      return Err(TruncatedRequest);
    }
    ghost var end := 7 + length.value as int;
    assert request.value == message[7..end] && buffer.Unread() == message[end..];
    if buffer.Len() == 0 {
      return Ok(U2FMessage(header, request.value, 0));
    }
    var responseLength := buffer.ReadBE16();
    if responseLength.Err? {
      return Err(TruncatedResponseLength);
    }
    assert responseLength.value == FromBE16(message[end..end + 2]);
    return Ok(U2FMessage(header, request.value, responseLength.value));
  }

  /** The shortest extended-length encoding of a request: the header alone
      when there is neither body nor response length, the response-length
      form when there is no body, the request form when the response length
      is 0, and the request-plus-response-length form otherwise. */
  function Encode(msg: U2FMessage): (m: seq<uint8>)
    requires |msg.request| < 0x1_0000
    ensures |m| >= 4 && m[..4] == HeaderBytes(msg.header)
  {
    var h := HeaderBytes(msg.header);
    if msg.request == [] && msg.responseLength == 0 then h
    else if msg.request == [] then h + [0] + ToBE16(msg.responseLength)
    else if msg.responseLength == 0 then h + [0] + ToBE16(|msg.request| as uint16) + msg.request
    else h + [0] + ToBE16(|msg.request| as uint16) + msg.request + ToBE16(msg.responseLength)
  }

  /** The ASCII bytes of the version string "U2F_V2". */
  const VersionBytes: seq<uint8> := [0x55, 0x32, 0x46, 0x5F, 0x56, 0x32]

  /** The reply to a VERSION request: the version string followed by the
      big-endian status word for success. */
  const VersionResponse: seq<uint8> := VersionBytes + ToBE16(StatusValue(NoError))

  /** Why a request got no reply. */
  datatype ProcessError =
    | Malformed(error: DecodeError)
    | UnsupportedCommand(header: U2FMessageHeader)

  /** Answers one request: VERSION gets the version response whatever the
      other header bytes and the body; any other instruction, and any request
      that does not decode, gets no reply. */
  function ProcessU2FMessage(message: seq<uint8>): (r: Result<seq<uint8>, ProcessError>)
    ensures r.Ok? <==> Decode(message).Ok? && CommandFromCode(message[1]) == Some(Version)
    ensures r.Ok? ==> r.value == VersionBytes + [0x90, 0x00]
    ensures Decode(message).Err? ==> r == Err(Malformed(Decode(message).error))
  {
    match Decode(message)
    case Err(e) => Err(Malformed(e))
    case Ok(msg) =>
      if msg.header.command == CommandCode(Version) then Ok(VersionResponse)
      else Err(UnsupportedCommand(msg.header))
  }
}
