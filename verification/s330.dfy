/** The byte-level part of the S330 device model: how a command is put into
    a PN533 envelope, how the reader's reply is unwrapped, and the
    InListPassiveTarget command its target discovery sends. */
module S330 {
  import opened Bytes
  import opened Errors
  import opened Types
  import Frame
  import Scan
  import Commands
  import Pn533

  /** The PN533 data-exchange command the default envelope uses. */
  const ThruCommand: byte := 0x42

  /** `wrap_command`: a packet the caller already built for the PN533 is
      forwarded; a Polling payload becomes an InListPassiveTarget for one
      FeliCa target; anything else goes into the `D4 42 <len>` envelope,
      whose length byte counts the payload plus one and wraps at 256. */
  function WrapCommand(framed: seq<byte>, payload: seq<byte>): (r: seq<byte>)
    ensures |r| > 0 && r[0] == Pn533.HostPrefix
    ensures |framed| > 0 && framed[0] == Pn533.HostPrefix ==> r == framed
  {
    if |framed| > 0 && framed[0] == Pn533.HostPrefix then framed
    else if |payload| > 0 && payload[0] == 0x00 then
      Pn533.BuildInListPassiveTarget(0x01, 0x01) + payload
    else
      [Pn533.HostPrefix, ThruCommand, TruncU8(|payload| + 1)] + payload
  }

  /** What a PN533 would read out of an envelope `WrapCommand` builds: the
      payload of an InListPassiveTarget for one FeliCa target that carries a
      Polling command, or of a `D4 42` envelope whose length byte matches
      and whose payload is not a Polling command. */
  function OpenEnvelope(w: seq<byte>): (r: Option<seq<byte>>)
    ensures r.Some? ==> |r.value| < |w| && r.value == w[|w| - |r.value|..]
  {
    if |w| > 4 && w[..4] == Pn533.BuildInListPassiveTarget(0x01, 0x01) && w[4] == 0x00 then Some(w[4..])
    else if |w| >= 3 && w[0] == Pn533.HostPrefix && w[1] == ThruCommand && w[2] == TruncU8(|w| - 2)
            && (|w| == 3 || w[3] != 0x00) then Some(w[3..])
    else None
  }

  /** Unless the caller passes a ready PN533 packet, the envelope carries
      exactly the payload. */
  lemma WrapOpens(framed: seq<byte>, payload: seq<byte>)
    requires |framed| == 0 || framed[0] != Pn533.HostPrefix
    ensures OpenEnvelope(WrapCommand(framed, payload)) == Some(payload)
  {
    var w := WrapCommand(framed, payload);
    if |payload| > 0 && payload[0] == 0x00 {
      assert w[..4] == Pn533.BuildInListPassiveTarget(0x01, 0x01) && w[4..] == payload;
    } else {
      assert w[3..] == payload;
    }
  }

  /** Conversely, every envelope that opens is what `WrapCommand` builds
      for its payload: the two envelope kinds never overlap. */
  lemma OpenedWraps(w: seq<byte>)
    requires OpenEnvelope(w).Some?
    ensures WrapCommand([], OpenEnvelope(w).value) == w
  {
    var p := OpenEnvelope(w).value;
    if |w| > 4 && w[..4] == Pn533.BuildInListPassiveTarget(0x01, 0x01) && w[4] == 0x00 {
      assert w == w[..4] + p;
    } else {
      assert w == [w[0], w[1], w[2]] + p;
    }
  }

  /** A packet built for the PN533 goes out unchanged, whatever payload
      comes with it. */
  lemma ReadyPacketForwarded(framed: seq<byte>, payload: seq<byte>)
    requires |framed| > 0 && framed[0] == Pn533.HostPrefix
    ensures WrapCommand(framed, payload) == framed
    ensures OpenEnvelope(framed).Some? ==> WrapCommand([], OpenEnvelope(framed).value) == framed
  {
    if OpenEnvelope(framed).Some? {
      OpenedWraps(framed);
    }
  }

  /** The envelope's length byte: for a payload of 255 bytes, the largest a
      frame carries, it wraps to zero. */
  lemma ThruLengthWraps(payload: seq<byte>)
    requires |payload| == Frame.MaxPayloadLen && payload[0] != 0x00
    ensures WrapCommand([], payload)[2] == 0x00 && |WrapCommand([], payload)| == 258
  {
  }

  /** `unwrap_response`: the frame the PN533 extractor finds, or the raw
      reply unchanged when it finds none. It never fails. */
  function UnwrapResponse(cmd: byte, raw: seq<byte>): (r: Result<seq<byte>>)
    ensures r.Ok?
    ensures Pn533.ExtractFelica(raw, cmd).Some? ==> r.value == Pn533.ExtractFelica(raw, cmd).value && Scan.PreambleAt(r.value, 0)
    ensures Pn533.ExtractFelica(raw, cmd).None? ==> r.value == raw
  {
    match Pn533.ExtractFelica(raw, cmd)
    case Some(inner) => Ok(inner)
    case None => Ok(raw)
  }

  /** A framed answer behind a header without zero bytes is unwrapped to
      exactly that frame, which then decodes to the answer's payload. */
  lemma UnwrapFramedAnswer(header: seq<byte>, p: seq<byte>, cmd: byte)
    requires forall q :: 0 <= q < |header| ==> header[q] != 0x00
    requires |p| <= Frame.MaxPayloadLen
    ensures UnwrapResponse(cmd, header + Frame.Encode(p).value) == Ok(Frame.Encode(p).value)
    ensures Frame.Decode(UnwrapResponse(cmd, header + Frame.Encode(p).value).value) == Ok(p)
  {
    Pn533.ExtractFelicaAfterHeader(header, p, cmd);
    Frame.RoundTrip(p);
  }

  /** What unwrapping makes of any reply: when it holds a preamble, the
      reply from its first preamble on; otherwise a well-formed frame built
      by the 0xD5 fallback, or the reply itself. */
  lemma UnwrapMeaning(cmd: byte, raw: seq<byte>)
    ensures var r := UnwrapResponse(cmd, raw).value;
      && ((exists q: nat :: Scan.PreambleAt(raw, q)) ==>
            exists q: nat :: (Scan.PreambleAt(raw, q) && r == raw[q..]
              && forall j: nat :: j < q ==> !Scan.PreambleAt(raw, j)))
      && ((forall q: nat :: !Scan.PreambleAt(raw, q)) ==> Frame.ValidFrame(r) || r == raw)
  {
    var r := UnwrapResponse(cmd, raw).value;
    if exists q: nat :: Scan.PreambleAt(raw, q) {
      var q: nat := |raw| - |r|;
      assert r == raw[q..];
      assert r[0] == raw[q] && r[1] == raw[q + 1] && r[2] == raw[q + 2];
      assert Scan.PreambleAt(raw, q);
    }
  }

  /** A reply with neither a preamble nor a leading 0xD5 comes back as it
      is. */
  lemma UnwrapPassesThrough(cmd: byte, raw: seq<byte>)
    requires forall q: nat :: !Scan.PreambleAt(raw, q)
    requires |raw| == 0 || raw[0] != Scan.DevicePrefix
    ensures UnwrapResponse(cmd, raw) == Ok(raw)
  {
  }

  /** The command `list_passive_targets` sends: an InListPassiveTarget for
      up to `maxTargets` targets at bit rate and type 0, carrying a Polling
      command for `sc` with request code and time slot 0. */
  function InListPassiveTargetCommand(sc: SystemCode, maxTargets: byte): (r: seq<byte>)
    ensures |r| == 9 && r[..4] == [Pn533.HostPrefix, Pn533.InListCommand, maxTargets, 0x00]
    ensures r[4..] == Commands.EncodePolling(sc, 0x00, 0x00)
  {
    Pn533.BuildInListPassiveTarget(maxTargets, 0x00) + Commands.EncodePolling(sc, 0x00, 0x00)
  }

  /** The discovery command carries the system code little-endian at bytes
      5 and 6, and `WrapCommand` forwards it untouched. */
  lemma InListCommandForwarded(sc: SystemCode, maxTargets: byte, payload: seq<byte>)
    ensures var c := InListPassiveTargetCommand(sc, maxTargets);
      && FromLe(c[5], c[6]) == sc.code && c[7] == 0x00 && c[8] == 0x00
      && WrapCommand(c, payload) == c
  {
    var c := InListPassiveTargetCommand(sc, maxTargets);
    assert c[5] == Commands.EncodePolling(sc, 0x00, 0x00)[1];
  }

  /** A Polling command wrapped on its own is the one-target FeliCa
      InListPassiveTarget: it differs from the discovery command only in the
      target count and the bit rate byte. */
  lemma WrappedPollingIsInList(sc: SystemCode, requestCode: byte, timeSlot: byte)
    ensures WrapCommand([], Commands.EncodePolling(sc, requestCode, timeSlot))
         == Pn533.BuildInListPassiveTarget(0x01, 0x01) + Commands.EncodePolling(sc, requestCode, timeSlot)
    ensures WrapCommand([], Commands.EncodePolling(sc, 0x00, 0x00))[2..] != InListPassiveTargetCommand(sc, 0x01)[2..]
  {
    assert WrapCommand([], Commands.EncodePolling(sc, 0x00, 0x00))[3] == 0x01;
    assert InListPassiveTargetCommand(sc, 0x01)[3] == 0x00;
  }

  /** The PN533 RF-on, GetVersion and Deselect commands the S330 sends,
      each already in PN533 form and forwarded as they are. */
  const RfOn: seq<byte> := [0xD4, 0x32, 0x01, 0x01]
  const GetVersion: seq<byte> := [0xD4, 0x02]
  const Deselect: seq<byte> := [0xD4, 0x44, 0x01]

  /** The configuration commands are forwarded unchanged. */
  lemma ConfigCommandsForwarded(payload: seq<byte>)
    ensures WrapCommand(RfOn, payload) == RfOn
    ensures WrapCommand(GetVersion, payload) == GetVersion
    ensures WrapCommand(Deselect, payload) == Deselect
  {
  }
}
