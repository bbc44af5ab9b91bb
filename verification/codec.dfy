/** The codec that puts commands into frames and takes responses out of
    them. */
module Codec {
  import opened Bytes
  import opened Errors
  import opened Types
  import Frame
  import Commands
  import Responses

  /** `encode_command_frame`: the command payload in a normal frame. Only a
      payload longer than the frame's one-byte length field is refused. */
  function EncodeCommandFrame(c: Commands.Command, encodeRequestSystemCode: Idm -> seq<byte>): (r: Result<seq<byte>>)
    ensures r.Err? <==> |Commands.Encode(c, encodeRequestSystemCode)| > Frame.MaxPayloadLen
    ensures r.Ok? ==> Frame.Decode(r.value) == Ok(Commands.Encode(c, encodeRequestSystemCode))
    ensures r.Ok? && !c.RequestSystemCode? ==> r.value[5] == Commands.CommandCode(c)
  {
    var payload := Commands.Encode(c, encodeRequestSystemCode);
    if |payload| <= Frame.MaxPayloadLen then Frame.RoundTrip(payload); Frame.Encode(payload)
    else Frame.Encode(payload)
  }

  /** `decode_response_frame`: frame errors come first; a frame that decodes
      hands its payload to `Response::decode`. */
  function DecodeResponseFrame(cmd: byte, f: seq<byte>): (r: Result<Responses.Response>)
    ensures Frame.Decode(f).Err? ==> r == Err(Frame.Decode(f).error)
    ensures r.Ok? ==> Frame.ValidFrame(f) && Responses.ResponseCode(r.value) == cmd + 1
  {
    Frame.DecodeAcceptsValidFrames(f);
    var payload :- Frame.Decode(f);
    Responses.Decode(cmd, payload)
  }

  /** A card's response, framed, decodes to itself for the command it
      answers; trailing payload bytes are ignored except after write
      statuses. */
  lemma ResponseFrameRoundTrip(resp: Responses.Response, extra: seq<byte>)
    requires Responses.WellFormed(resp)
    requires resp.WriteWithoutEncryption? ==> extra == []
    requires |Responses.Payload(resp) + extra| <= Frame.MaxPayloadLen
    ensures DecodeResponseFrame(Responses.CommandOf(resp), Frame.Encode(Responses.Payload(resp) + extra).value) == Ok(resp)
  {
    Frame.RoundTrip(Responses.Payload(resp) + extra);
    Responses.DecodePayloadRoundTrip(resp, extra);
  }

  /** Conversely, a response decoded from a frame is the framed payload of
      that response, followed by the bytes the decoder ignored. */
  lemma DecodedFrameIsEncoding(cmd: byte, f: seq<byte>)
    requires DecodeResponseFrame(cmd, f).Ok?
    requires cmd == 0x0A ==> |f| > 14 && f[14] <= 1
    ensures var p := Frame.Decode(f).value;
      var resp := DecodeResponseFrame(cmd, f).value;
      && Responses.WellFormed(resp)
      && |Responses.Payload(resp)| <= |p|
      && Frame.Encode(Responses.Payload(resp) + p[|Responses.Payload(resp)|..]) == Ok(f)
  {
    var p := Frame.Decode(f).value;
    assert p == f[5..|f| - 2];
    Responses.PayloadOfDecoded(cmd, p);
    var q := Responses.Payload(DecodeResponseFrame(cmd, f).value);
    assert q + p[|q|..] == p;
    Frame.DecodeIffEncode(f, p);
  }

  const SampleIdm := Idm([1, 2, 3, 4, 5, 6, 7, 8])
  const SampleServiceAnswer: seq<byte> := [0x03, 1, 2, 3, 4, 5, 6, 7, 8, 2, 0x00, 0x01, 0x00, 0x02]

  /** Unit-test vector of codec.rs: a Request Service answer survives framing. */
  lemma RequestServiceFrameVector()
    ensures |SampleServiceAnswer| <= Frame.MaxPayloadLen
    ensures DecodeResponseFrame(0x02, Frame.Encode(SampleServiceAnswer).value)
         == Ok(Responses.RequestService(SampleIdm, [0x0100, 0x0200]))
  {
    var rs := Responses.RequestService(SampleIdm, [0x0100, 0x0200]);
    assert LeList([0x0100, 0x0200]) == [0x00, 0x01, 0x00, 0x02] by {
      assert ToLe(0x0100) == [0x00, 0x01] && ToLe(0x0200) == [0x00, 0x02];
    }
    assert Responses.Payload(rs) + [] == SampleServiceAnswer;
    ResponseFrameRoundTrip(rs, []);
  }
  /** Unit-test vector of codec.rs: a Request Response answer survives framing. */
  lemma RequestResponseFrameVector()
    ensures DecodeResponseFrame(0x04, Frame.Encode([0x05, 9, 9, 9, 9, 9, 9, 9, 9, 0x02]).value)
         == Ok(Responses.RequestResponse(Idm([9, 9, 9, 9, 9, 9, 9, 9]), 0x02))
  {
    var rr := Responses.RequestResponse(Idm([9, 9, 9, 9, 9, 9, 9, 9]), 0x02);
    assert Responses.Payload(rr) + [] == [0x05, 9, 9, 9, 9, 9, 9, 9, 9, 0x02];
    ResponseFrameRoundTrip(rr, []);
  }
}
