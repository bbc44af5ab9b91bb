/** The PN532 normal information frame that carries every command and
    response: `00 00 FF | LEN | LCS | payload | DCS | 00`. */
module Frame {
  import opened Bytes
  import opened Errors
  import opened Checksum

  const Preamble: seq<byte> := [0x00, 0x00, 0xFF]
  const Postamble: byte := 0x00
  /** Preamble, LEN, LCS, DCS and postamble around an empty payload. */
  const MinFrameLen: nat := 7
  const MaxPayloadLen: nat := 255

  /** A well-formed frame, stated through the checksum conditions of the
      PN532 manual rather than through `Lcs`/`Dcs`: LEN + LCS and
      payload + DCS both sum to zero modulo 256. */
  predicate ValidFrame(f: seq<byte>)
  {
    && |f| >= MinFrameLen
    && f[..3] == Preamble
    && |f| == MinFrameLen + f[3]
    && (f[3] as int + f[4]) % 0x100 == 0
    && Sum(f[5..|f| - 1]) % 0x100 == 0
    && f[|f| - 1] == Postamble
  }

  /** The payload slot of a frame of at least seven bytes. */
  function PayloadOf(f: seq<byte>): seq<byte>
    requires |f| >= MinFrameLen
  {
    f[5..|f| - 2]
  }

  /** `Frame::encode`. */
  function Encode(payload: seq<byte>): (r: Result<seq<byte>>)
    ensures r.Err? <==> |payload| > MaxPayloadLen
    ensures r.Err? ==> r.error == InvalidLength(MaxPayloadLen, |payload|)
    ensures r.Ok? ==> ValidFrame(r.value) && PayloadOf(r.value) == payload
  {
    if |payload| > MaxPayloadLen then
      Err(InvalidLength(MaxPayloadLen, |payload|))
    else
      var len: byte := |payload|;
      var f := Preamble + [len, Lcs(len)] + payload + [Dcs(payload), Postamble];
      assert f[5..|f| - 1] == payload + [Dcs(payload)];
      SumAppend(payload, [Dcs(payload)]);
      Ok(f)
  }

  /** The first two checks of `Frame::decode` pass: the minimum length and
      the preamble. */
  predicate HeaderPasses(f: seq<byte>)
  {
    |f| >= MinFrameLen && f[..3] == Preamble
  }

  /** The length checks of `Frame::decode` pass as well: the LCS matches
      LEN and the frame is exactly seven bytes longer than LEN says. */
  predicate LengthPasses(f: seq<byte>)
  {
    HeaderPasses(f) && f[4] == Lcs(f[3]) && |f| == MinFrameLen + f[3]
  }

  /** `Frame::decode`: the checks run in the source's order, so the first
      violated one names the error. */
  function Decode(f: seq<byte>): (r: Result<seq<byte>>)
    ensures |f| < MinFrameLen ==> r == Err(InvalidLength(MinFrameLen, |f|))
    ensures |f| >= MinFrameLen && f[..3] != Preamble ==> r == Err(FrameFormat("invalid preamble"))
    ensures HeaderPasses(f) && f[4] != Lcs(f[3]) ==> r == Err(ChecksumMismatch(Lcs(f[3]), f[4]))
    ensures HeaderPasses(f) && f[4] == Lcs(f[3]) && |f| != MinFrameLen + f[3]
      ==> r == Err(InvalidLength(MinFrameLen + f[3], |f|))
    ensures LengthPasses(f) && f[5 + f[3]] != Dcs(f[5..5 + f[3]])
      ==> r == Err(ChecksumMismatch(Dcs(f[5..5 + f[3]]), f[5 + f[3]]))
    ensures LengthPasses(f) && f[5 + f[3]] == Dcs(f[5..5 + f[3]]) && f[|f| - 1] != Postamble
      ==> r == Err(FrameFormat("invalid postamble"))
    ensures r.Err? ==> r.error.InvalidLength? || r.error.FrameFormat? || r.error.ChecksumMismatch?
    ensures r.Ok? ==> r.value == PayloadOf(f) && |r.value| == f[3]
  {
    if |f| < MinFrameLen then
      Err(InvalidLength(MinFrameLen, |f|))
    else if f[0] != Preamble[0] || f[1] != Preamble[1] || f[2] != Preamble[2] then
      Err(FrameFormat("invalid preamble"))
    else
      var len: nat := f[3];
      if f[4] != Lcs(f[3]) then
        Err(ChecksumMismatch(Lcs(f[3]), f[4]))
      else if |f| != MinFrameLen + len then
        Err(InvalidLength(MinFrameLen + len, |f|))
      else
        var payload := f[5..5 + len];
        if f[5 + len] != Dcs(payload) then
          Err(ChecksumMismatch(Dcs(payload), f[5 + len]))
        else if f[5 + len + 1] != Postamble then
          Err(FrameFormat("invalid postamble"))
        else
          Ok(payload)
  }

  /** `Decode` accepts exactly the well-formed frames. */
  lemma DecodeAcceptsValidFrames(f: seq<byte>)
    ensures Decode(f).Ok? <==> ValidFrame(f)
  {
    if |f| >= MinFrameLen && f[..3] == Preamble && |f| == MinFrameLen + f[3] {
      var len: nat := f[3];
      var payload := f[5..5 + len];
      assert f[5..|f| - 1] == payload + [f[5 + len]];
      SumAppend(payload, [f[5 + len]]);
      if (len + f[4]) % 0x100 == 0 {
        ChecksumUnique(len, f[4], Lcs(f[3]));
      }
      if Sum(f[5..|f| - 1]) % 0x100 == 0 {
        ChecksumUnique(Sum(payload), f[5 + len], Dcs(payload));
      }
    }
  }

  /** Decoding an encoded payload gives the payload back. */
  lemma RoundTrip(payload: seq<byte>)
    requires |payload| <= MaxPayloadLen
    ensures Decode(Encode(payload).value) == Ok(payload)
  {
    DecodeAcceptsValidFrames(Encode(payload).value);
  }

  /** Encoding and decoding are inverse relations on all inputs: a frame
      decodes to a payload exactly when it is that payload's encoding. */
  lemma DecodeIffEncode(f: seq<byte>, payload: seq<byte>)
    ensures Decode(f) == Ok(payload) <==> Encode(payload) == Ok(f)
  {
    if Encode(payload) == Ok(f) {
      RoundTrip(payload);
    }
    if Decode(f) == Ok(payload) {
      DecodeAcceptsValidFrames(f);
      var len: nat := f[3];
      ChecksumUnique(len, f[4], Lcs(f[3]));
      assert f[5..|f| - 1] == payload + [f[5 + len]];
      SumAppend(payload, [f[5 + len]]);
      ChecksumUnique(Sum(payload), f[5 + len], Dcs(payload));
      assert f == Preamble + [f[3], Lcs(f[3])] + payload + [Dcs(payload), Postamble];
    }
  }

  /** Changing any single byte of an encoded frame makes `Decode` reject it. */
  lemma SingleByteCorruptionRejected(payload: seq<byte>, i: nat, v: byte)
    requires |payload| <= MaxPayloadLen
    requires i < |Encode(payload).value| && v != Encode(payload).value[i]
    ensures Decode(Encode(payload).value[i := v]).Err?
    ensures i < 3 ==> Decode(Encode(payload).value[i := v]) == Err(FrameFormat("invalid preamble"))
    ensures 3 <= i < |payload| + 6 ==> Decode(Encode(payload).value[i := v]).error.ChecksumMismatch?
    ensures i == |payload| + 6 ==> Decode(Encode(payload).value[i := v]) == Err(FrameFormat("invalid postamble"))
  {
    var f := Encode(payload).value;
    var g := f[i := v];
    CorruptedFrameInvalid(f, i, v);
    DecodeAcceptsValidFrames(g);
    if i < 3 {
      assert g[..3][i] != Preamble[i];
    } else if i == 3 {
      LcsInjective(f[3], v);
    } else if i < |payload| + 6 {
      assert g[..3] == f[..3];
      if i > 4 {
        assert g[4] == f[4] && g[3] == f[3];
      }
    } else {
      assert g[..3] == f[..3] && g[4] == f[4] && g[3] == f[3];
      assert g[5..5 + g[3]] == f[5..5 + f[3]];
    }
  }

  /** Distinct lengths have distinct length checksums. */
  lemma LcsInjective(a: byte, b: byte)
    requires a != b
    ensures Lcs(a) != Lcs(b)
  {
  }

  /** Changing any single byte of a valid frame leaves an invalid one. */
  lemma CorruptedFrameInvalid(f: seq<byte>, i: nat, v: byte)
    requires ValidFrame(f) && i < |f| && v != f[i]
    ensures !ValidFrame(f[i := v])
  {
    var g := f[i := v];
    if i < 3 {
      assert g[..3][i] != Preamble[i];
    } else if i == 3 {
      assert |g| != MinFrameLen + g[3];
    } else if i == 4 {
      assert (g[3] as int + g[4]) % 0x100 != 0;
    } else if i < |f| - 1 {
      DataByteCorrupted(f, i, v);
    } else {
      assert g[|g| - 1] != Postamble;
    }
  }

  /** A changed payload or checksum byte breaks the data checksum. */
  lemma DataByteCorrupted(f: seq<byte>, i: nat, v: byte)
    requires ValidFrame(f) && 5 <= i < |f| - 1 && v != f[i]
    ensures Sum(f[i := v][5..|f| - 1]) % 0x100 != 0
  {
    var g := f[i := v];
    assert g[5..|g| - 1] == f[5..|f| - 1][i - 5 := v];
    SumUpdate(f[5..|f| - 1], i - 5, v);
  }

  /** The six-byte PN532 ACK `00 00 FF 00 FF 00` is not a frame: it is
      one byte short of the minimum. */
  lemma AckRejected()
    ensures Decode([0x00, 0x00, 0xFF, 0x00, 0xFF, 0x00]) == Err(InvalidLength(7, 6))
  {
  }

  /** Unit-test vectors of frame.rs: the payload `01 02` encodes to the
      frame below; bumping its LCS or DCS gives a checksum mismatch and
      breaking the preamble of `Encode([0])` a format error. */
  lemma FrameVectors()
    ensures Encode([0x01, 0x02]) == Ok([0x00, 0x00, 0xFF, 0x02, 0xFE, 0x01, 0x02, 0xFD, 0x00])
    ensures Decode([0x00, 0x00, 0xFF, 0x02, 0xFF, 0x01, 0x02, 0xFD, 0x00]) == Err(ChecksumMismatch(0xFE, 0xFF))
    ensures Decode([0x00, 0x00, 0xFF, 0x02, 0xFE, 0x01, 0x02, 0xFE, 0x00]) == Err(ChecksumMismatch(0xFD, 0xFE))
    ensures Decode([0xFF, 0x00, 0xFF, 0x01, 0xFF, 0x00, 0x00, 0x00]) == Err(FrameFormat("invalid preamble"))
  {
    assert [0x01, 0x02][1..] == [0x02];
    assert WrappingSum(0, [0x01, 0x02]) == WrappingSum(1, [0x02]) == WrappingSum(3, []) == 3;
    assert Dcs([0x01, 0x02]) == 0xFD;
    assert Lcs(2) == 0xFE;
    var good: seq<byte> := [0x00, 0x00, 0xFF, 0x02, 0xFE, 0x01, 0x02, 0xFD, 0x00];
    assert Preamble + [2, 0xFE] + [0x01, 0x02] + [0xFD, Postamble] == good;
    var bad: seq<byte> := [0x00, 0x00, 0xFF, 0x02, 0xFE, 0x01, 0x02, 0xFE, 0x00];
    assert bad[5..7] == [0x01, 0x02];
  }
}
