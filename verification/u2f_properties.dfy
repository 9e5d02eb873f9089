/** What the U2F request decoder and dispatcher guarantee, stated for the
    three forms of the extended-length encoding and proved about `Decode`
    (which `DecodeU2FMessage` computes) and `ProcessU2FMessage`. */
module U2FProperties {
  import opened Wire
  import opened U2F

  /** A request of exactly four bytes is a header and nothing else: the bytes
      become class, instruction and parameters in wire order, with no body
      and response length 0. */
  lemma DecodeHeaderOnly(m: seq<uint8>)
    requires |m| == 4
    ensures Decode(m) == Ok(U2FMessage(U2FMessageHeader(m[0], m[1], m[2], m[3]), [], 0))
  {
  }

  /** `00 hi lo` with nothing after it is the response-length form. */
  lemma {:induction false} DecodeResponseLengthOnly(h: U2FMessageHeader, hi: uint8, lo: uint8)
    ensures Decode(HeaderBytes(h) + [0, hi, lo]) == Ok(U2FMessage(h, [], (hi as int * 0x100 + lo as int) as uint16))
  {
    var m := HeaderBytes(h) + [0, hi, lo];
    assert m[..4] == HeaderBytes(h) && m[4] == 0 && m[5..7] == [hi, lo];
  }

  /** A request-length prefix of 0 cannot be told apart from the forms
      without a body: `00 00 00` alone reads like a bare header, and
      `00 00 00` followed by a response length reads like the response-length
      form. */
  lemma {:induction false} EmptyRequestIndistinguishable(h: U2FMessageHeader, le: uint16)
    ensures Decode(HeaderBytes(h) + [0] + ToBE16(0)) == Decode(HeaderBytes(h))
    ensures Decode(HeaderBytes(h) + [0] + ToBE16(0) + ToBE16(le)) == Decode(HeaderBytes(h) + [0] + ToBE16(le))
  {
    var short := HeaderBytes(h) + [0] + ToBE16(le);
    assert short[..4] == HeaderBytes(h) && short[4] == 0 && short[5..7] == ToBE16(le);
    DecodeRequestAndResponse(h, [], le, []);
    assert HeaderBytes(h) + [0] + ToBE16(0) + [] + ToBE16(le) + [] == HeaderBytes(h) + [0] + ToBE16(0) + ToBE16(le);
    var bare := HeaderBytes(h) + [0] + ToBE16(0);
    assert bare[..4] == HeaderBytes(h) && bare[4] == 0 && bare[5..7] == ToBE16(0);
    assert HeaderBytes(h)[..4] == HeaderBytes(h);
  }

  /** A length-prefixed, non-empty body with nothing after it decodes to
      exactly that body, with response length 0. */
  lemma {:induction false} DecodeRequestOnly(h: U2FMessageHeader, body: seq<uint8>)
    requires 0 < |body| < 0x1_0000
    ensures Decode(HeaderBytes(h) + [0] + ToBE16(|body| as uint16) + body) == Ok(U2FMessage(h, body, 0))
  {
    var m := HeaderBytes(h) + [0] + ToBE16(|body| as uint16) + body;
    assert m[..4] == HeaderBytes(h) && m[4] == 0 && m[5..7] == ToBE16(|body| as uint16);
    assert m[7..] == body;
  }

  /** A length-prefixed body followed by a response length decodes to that
      body and that response length, whatever bytes come after them. */
  lemma {:induction false} DecodeRequestAndResponse(h: U2FMessageHeader, body: seq<uint8>, le: uint16, rest: seq<uint8>)
    requires |body| < 0x1_0000
    ensures Decode(HeaderBytes(h) + [0] + ToBE16(|body| as uint16) + body + ToBE16(le) + rest) == Ok(U2FMessage(h, body, le))
  {
    var m := HeaderBytes(h) + [0] + ToBE16(|body| as uint16) + body + ToBE16(le) + rest;
    var n := |body|;
    assert m[..4] == HeaderBytes(h) && m[4] == 0 && m[5..7] == ToBE16(|body| as uint16);
    assert m[7..7 + n] == body;
    assert m[7 + n..9 + n] == ToBE16(le);
  }

  /** Round trip: encoding a request whose body fits a 16-bit length and
      decoding the result gives back the same header, body and response
      length. */
  lemma {:induction false} DecodeEncode(msg: U2FMessage)
    requires |msg.request| < 0x1_0000
    ensures Decode(Encode(msg)) == Ok(msg)
  {
    var h := msg.header;
    if msg.request == [] && msg.responseLength == 0 {
      DecodeHeaderOnly(HeaderBytes(h));
    } else if msg.request == [] {
      var b := ToBE16(msg.responseLength);
      DecodeResponseLengthOnly(h, b[0], b[1]);
      assert HeaderBytes(h) + [0] + b == HeaderBytes(h) + [0, b[0], b[1]];
    } else if msg.responseLength == 0 {
      DecodeRequestOnly(h, msg.request);
    } else {
      DecodeRequestAndResponse(h, msg.request, msg.responseLength, []);
      assert Encode(msg) + [] == Encode(msg);
    }
  }

  /** Every request that decodes has a body that fits a 16-bit length, so its
      decoded form has a canonical encoding that decodes to it again. */
  lemma {:induction false} DecodedHasCanonicalEncoding(m: seq<uint8>)
    requires Decode(m).Ok?
    ensures |Decode(m).value.request| < 0x1_0000
    ensures Decode(Encode(Decode(m).value)) == Decode(m)
  {
    var msg := Decode(m).value;
    if |m| > 7 {
      assert |msg.request| <= FromBE16(m[5..7]) as int;
    }
    DecodeEncode(msg);
  }

  /** Where the request runs out too early, decoding fails: fewer than four
      bytes; the 0 byte with fewer than two length bytes after it; fewer body
      bytes than the request length announces; or a single byte where the
      response length belongs. */
  lemma ShortRequestsRejected(m: seq<uint8>)
    ensures |m| < 4 ==> Decode(m) == Err(TruncatedHeader)
    ensures 4 < |m| < 7 && m[4] == 0 ==> Decode(m) == Err(TruncatedLength)
    ensures 7 < |m| && m[4] == 0 && |m| < 7 + FromBE16(m[5..7]) as int ==> Decode(m) == Err(TruncatedRequest)
    ensures 7 < |m| && m[4] == 0 && |m| == 8 + FromBE16(m[5..7]) as int ==> Decode(m) == Err(TruncatedResponseLength)
  {
  }

  /** Conversely, a request that decodes is one of the three forms, and the
      decoded parts are what that form carries: the header alone; the 0 byte
      and the response length; the 0 byte, the request length and the body;
      or that followed by the response length and then any bytes at all. */
  lemma {:induction false} DecodedIsOneOfThreeForms(m: seq<uint8>)
    requires Decode(m).Ok?
    ensures var msg := Decode(m).value;
            var h := HeaderBytes(msg.header);
            var n := |msg.request|;
            n < 0x1_0000 &&
            ((m == h && msg.request == [] && msg.responseLength == 0) ||
             (m == h + [0] + ToBE16(msg.responseLength) && msg.request == []) ||
             (m == h + [0] + ToBE16(n as uint16) + msg.request && msg.responseLength == 0) ||
             (|m| >= 9 + n && m[..9 + n] == h + [0] + ToBE16(n as uint16) + msg.request + ToBE16(msg.responseLength)))
  {
    var msg := Decode(m).value;
    var h := HeaderBytes(msg.header);
    if |m| == 4 {
      assert m == m[..4];
    } else {
      var length := FromBE16(m[5..7]);
      ToBE16FromBE16(m[5..7]);
      assert m[..7] == h + [0] + ToBE16(length);
      if |m| == 7 {
        assert m == m[..7];
      } else if |m| == 7 + length as int {
        assert msg.request == m[7..] && |msg.request| == length as int;
        assert m == m[..7] + m[7..];
      } else {
        var n := length as int;
        assert msg.request == m[7..7 + n];
        assert m[7 + n..9 + n] == ToBE16(msg.responseLength) by {
          ToBE16FromBE16(m[7 + n..9 + n]);
        }
        assert m[..9 + n] == m[..7] + m[7..7 + n] + m[7 + n..9 + n];
      }
    }
  }

  /** The version response is the ASCII string "U2F_V2" followed by the
      success status word 0x9000 in big-endian order: eight bytes. */
  lemma VersionResponseBytes()
    ensures |VersionResponse| == 8
    ensures forall i :: 0 <= i < 6 ==> VersionResponse[i] as int == "U2F_V2"[i] as int
    ensures VersionResponse[6..] == ToBE16(StatusValue(NoError)) == [0x90, 0x00]
  {
  }

  /** A VERSION request is answered with the version response whatever its
      class, parameters, body and response length. */
  lemma {:induction false} VersionAlwaysAnswered(msg: U2FMessage)
    requires msg.header.command == CommandCode(Version)
    requires |msg.request| < 0x1_0000
    ensures ProcessU2FMessage(Encode(msg)) == Ok(VersionBytes + [0x90, 0x00])
  {
    DecodeEncode(msg);
  }

  /** Every other instruction, REGISTER and AUTHENTICATE included, gets no
      reply at all, not even an "instruction not supported" status word. */
  lemma {:induction false} OtherCommandsUnanswered(msg: U2FMessage)
    requires msg.header.command != CommandCode(Version)
    requires |msg.request| < 0x1_0000
    ensures ProcessU2FMessage(Encode(msg)) == Err(UnsupportedCommand(msg.header))
  {
    DecodeEncode(msg);
  }
}
