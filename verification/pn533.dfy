/** The PN533 helpers of the S330 reader, the variant the S330 model
    actually builds: the InListPassiveTarget command, and the extraction of
    FeliCa frames from the reader's replies. Nothing it extracts is checked
    against the frame checksums. */
module Pn533 {
  import opened Bytes
  import opened Errors
  import Frame
  import Scan
  import Responses

  /** First byte of every host-to-device PN533 command. */
  const HostPrefix: byte := 0xD4
  /** The PN533 InListPassiveTarget command. */
  const InListCommand: byte := 0x4A

  /** `build_in_list_passive_target`: discover up to `maxTargets` targets of
      bit rate and type `brty`. */
  function BuildInListPassiveTarget(maxTargets: byte, brty: byte): (r: seq<byte>)
    ensures |r| == 4 && r[0] == HostPrefix && r[1] == InListCommand
  {
    [HostPrefix, InListCommand, maxTargets, brty]
  }

  /** `extract_felica_from_pn532_response`: everything from the first
      preamble on, unchecked; without a preamble, the 0xD5 fallback. */
  function ExtractFelica(raw: seq<byte>, cmd: byte): (r: Option<seq<byte>>)
    ensures r.Some? ==> Scan.PreambleAt(r.value, 0)
    ensures (exists q: nat :: Scan.PreambleAt(raw, q)) ==>
      && r.Some? && |r.value| <= |raw| && r.value == raw[|raw| - |r.value|..]
      && forall q: nat :: q < |raw| - |r.value| ==> !Scan.PreambleAt(raw, q)
    ensures (forall q: nat :: !Scan.PreambleAt(raw, q)) ==>
      r == Scan.D5Fallback(raw, Responses.ExpectedResponse(cmd)) && (r.Some? ==> Frame.ValidFrame(r.value))
  {
    match Scan.FindPreamble(raw, 0)
    case Some(pos) =>
      Some(raw[pos..])
    case None =>
      Scan.D5Fallback(raw, Responses.ExpectedResponse(cmd))
  }

  /** The offsets phase 1 of `extract_all_felica_frames_from_pn532_response`
      takes frames at, scanning from `i`: at every preamble whose frame fits,
      that frame is taken and the scan jumps past it; a frame that does not
      fit ends the scan. A zero length byte is not treated specially. */
  function ScanOffsets(raw: seq<byte>, i: nat): seq<nat>
    decreases |raw| - i
  {
    if i + 3 >= |raw| then []
    else if Scan.PreambleAt(raw, i) then
      if Scan.CandidateAt(raw, i) then [i] + ScanOffsets(raw, Scan.CandidateEnd(raw, i)) else []
    else ScanOffsets(raw, i + 1)
  }

  /** Phase 1 takes frames only where one fits. */
  lemma {:induction false} ScanAtCandidates(raw: seq<byte>, i: nat)
    ensures forall k :: 0 <= k < |ScanOffsets(raw, i)| ==> i <= ScanOffsets(raw, i)[k] && Scan.CandidateAt(raw, ScanOffsets(raw, i)[k])
    decreases |raw| - i
  {
    if i + 3 < |raw| {
      if Scan.PreambleAt(raw, i) {
        if Scan.CandidateAt(raw, i) {
          ScanAtCandidates(raw, Scan.CandidateEnd(raw, i));
          var rest := ScanOffsets(raw, Scan.CandidateEnd(raw, i));
          assert forall k :: 0 < k < |rest| + 1 ==> ScanOffsets(raw, i)[k] == rest[k - 1];
        }
      } else {
        ScanAtCandidates(raw, i + 1);
      }
    }
  }

  /** Phase 1 takes its first frame at the first preamble, and its frames
      follow one another without overlapping. */
  lemma {:induction false} ScanInOrder(raw: seq<byte>, i: nat)
    ensures Scan.InOrder(raw, ScanOffsets(raw, i))
    ensures |ScanOffsets(raw, i)| > 0 ==> forall q :: i <= q < ScanOffsets(raw, i)[0] ==> !Scan.PreambleAt(raw, q)
    decreases |raw| - i
  {
    ScanAtCandidates(raw, i);
    var offs := ScanOffsets(raw, i);
    if i + 3 < |raw| {
      if Scan.PreambleAt(raw, i) {
        if Scan.CandidateAt(raw, i) {
          var rest := ScanOffsets(raw, Scan.CandidateEnd(raw, i));
          ScanInOrder(raw, Scan.CandidateEnd(raw, i));
          ScanAtCandidates(raw, Scan.CandidateEnd(raw, i));
          assert offs == [i] + rest;
          forall k | 0 <= k < |offs| - 1
            ensures offs[k] + 3 < |raw| && Scan.CandidateEnd(raw, offs[k]) <= offs[k + 1]
          {
            if k > 0 {
              assert offs[k] == rest[k - 1] && offs[k + 1] == rest[k];
            }
          }
        }
      } else {
        ScanInOrder(raw, i + 1);
      }
    }
  }

  /** The frames phase 1 takes from `i` on. */
  function ScanFrames(raw: seq<byte>, i: nat): seq<seq<byte>>
  {
    Scan.Candidates(raw, ScanOffsets(raw, i))
  }

  /** The region loop for one 0xD5 region: the frames embedded after its
      first preamble, taken as they are, or when there are none the
      unframed-payload heuristics. */
  function RegionFrames(region: seq<byte>, expectedResponse: byte): (r: seq<seq<byte>>)
    ensures forall k :: 0 <= k < |r| ==> Scan.Shaped(r[k])
  {
    var embedded := match Scan.FindPreamble(region, 0)
      case Some(p) => Scan.EmbeddedOffsets(region, p)
      case None => [];
    if |embedded| > 0 then Scan.Candidates(region, embedded)
    else
      var r := Scan.Unframed(region, expectedResponse);
      forall k | 0 <= k < |r| ensures Scan.Shaped(r[k]) {
        Scan.ValidFrameIsShaped(r[k]);
      }
      r
  }

  /** The frames of every region, in region order. */
  function AllRegionFrames(regions: seq<seq<byte>>, expectedResponse: byte): (r: seq<seq<byte>>)
    ensures forall k :: 0 <= k < |r| ==> Scan.Shaped(r[k])
  {
    if |regions| == 0 then []
    else RegionFrames(regions[0], expectedResponse) + AllRegionFrames(regions[1..], expectedResponse)
  }

  /** `extract_all_felica_frames_from_pn532_response`: the frames phase 1
      finds, or when it finds none, the frames of the 0xD5 regions. */
  function ExtractAll(raw: seq<byte>, cmd: byte): (r: seq<seq<byte>>)
    ensures forall k :: 0 <= k < |r| ==> Scan.Shaped(r[k])
    ensures |ScanOffsets(raw, 0)| > 0 ==> r == ScanFrames(raw, 0)
  {
    ScanAtCandidates(raw, 0);
    Scan.CandidatesExact(raw, ScanOffsets(raw, 0));
    var phaseOne := ScanFrames(raw, 0);
    if |phaseOne| > 0 then phaseOne
    else AllRegionFrames(Scan.D5Regions(raw), Responses.ExpectedResponse(cmd))
  }

  // ---- what the scan does with well-formed input ----

  /** Phase 1 does not look behind its starting point: scanning `a + b`
      from inside `b` finds what scanning `b` alone finds. */
  lemma {:induction false} ScanFramesShift(a: seq<byte>, b: seq<byte>, i: nat)
    ensures ScanFrames(a + b, |a| + i) == ScanFrames(b, i)
    decreases |b| - i
  {
    var j := |a| + i;
    Scan.PreambleShift(a, b, i);
    if i + 3 < |b| {
      if Scan.PreambleAt(b, i) {
        if Scan.CandidateAt(b, i) {
          ScanCandidateShift(a, b, i);
        }
      } else {
        ScanFramesShift(a, b, i + 1);
      }
    }
  }

  lemma {:induction false} ScanCandidateShift(a: seq<byte>, b: seq<byte>, i: nat)
    requires Scan.CandidateAt(b, i)
    ensures ScanFrames(a + b, |a| + i) == ScanFrames(b, i)
    decreases |b| - i, 0
  {
    var raw := a + b;
    var j := |a| + i;
    var e := Scan.CandidateEnd(b, i);
    Scan.CandidateShift(a, b, i);
    var x := ScanOffsets(raw, |a| + e);
    var y := ScanOffsets(b, e);
    calc {
      ScanFrames(raw, j);
    == { ScanStep(raw, j); }
      Scan.Candidates(raw, [j] + x);
    == { Scan.CandidatesCons(raw, j, x); }
      [Scan.Candidate(raw, j)] + Scan.Candidates(raw, x);
    == { ScanFramesShift(a, b, e); }
      [Scan.Candidate(b, i)] + Scan.Candidates(b, y);
    == { Scan.CandidatesCons(b, i, y); }
      Scan.Candidates(b, [i] + y);
    == { ScanStep(b, i); }
      ScanFrames(b, i);
    }
  }

  /** One step of phase 1 at a candidate. */
  lemma ScanStep(raw: seq<byte>, i: nat)
    requires Scan.CandidateAt(raw, i)
    ensures ScanOffsets(raw, i) == [i] + ScanOffsets(raw, Scan.CandidateEnd(raw, i))
  {
  }

  /** No preamble starts before `j`: scanning from `i` is scanning from `j`. */
  lemma {:induction false} ScanSkips(raw: seq<byte>, i: nat, j: nat)
    requires i <= j
    requires forall q :: i <= q < j ==> !Scan.PreambleAt(raw, q)
    ensures ScanOffsets(raw, i) == ScanOffsets(raw, j)
    decreases j - i
  {
    if i < j && i + 3 < |raw| {
      ScanSkips(raw, i + 1, j);
    }
  }

  /** Framed payloads laid end to end are found again one by one. */
  lemma {:induction false} ScanFramesOfFrames(ps: seq<seq<byte>>)
    requires forall k :: 0 <= k < |ps| ==> |ps[k]| <= Frame.MaxPayloadLen
    ensures ScanFrames(Concat(Scan.Frames(ps)), 0) == Scan.Frames(ps)
  {
    if |ps| > 0 {
      var f := Frame.Encode(ps[0]).value;
      var tail := Scan.Frames(ps[1..]);
      assert Scan.Frames(ps) == [f] + tail;
      assert Concat(Scan.Frames(ps)) == f + Concat(tail) by {
        assert Scan.Frames(ps)[1..] == tail;
      }
      ScanFramesOfFrames(ps[1..]);
      FrameThenRest(ps[0], Concat(tail));
    }
  }

  /** A frame is taken, and the scan goes on right after it. */
  lemma FrameThenRest(p: seq<byte>, rest: seq<byte>)
    requires |p| <= Frame.MaxPayloadLen
    ensures ScanFrames(Frame.Encode(p).value + rest, 0) == [Frame.Encode(p).value] + ScanFrames(rest, 0)
  {
    var f := Frame.Encode(p).value;
    var raw := f + rest;
    assert Scan.CandidateAt(raw, 0) && Scan.CandidateEnd(raw, 0) == |f| && Scan.Candidate(raw, 0) == f by {
      assert raw[..|f|] == f;
    }
    calc {
      ScanFrames(raw, 0);
    == { ScanStep(raw, 0); }
      Scan.Candidates(raw, [0] + ScanOffsets(raw, |f|));
    == { Scan.CandidatesCons(raw, 0, ScanOffsets(raw, |f|)); }
      [f] + ScanFrames(raw, |f|);
    == { ScanFramesShift(f, rest, 0); }
      [f] + ScanFrames(rest, 0);
    }
  }

  /** Phase 1 finds no preamble in a header without zero bytes. */
  lemma HeaderSkipped(header: seq<byte>, body: seq<byte>)
    requires forall q :: 0 <= q < |header| ==> header[q] != 0x00
    ensures ScanOffsets(header + body, 0) == ScanOffsets(header + body, |header|)
  {
    var raw := header + body;
    forall q | 0 <= q < |header|
      ensures !Scan.PreambleAt(raw, q)
    {
      assert raw[q] == header[q];
    }
    ScanSkips(raw, 0, |header|);
  }

  /** A reply made of a header without zero bytes followed by whole frames
      gives back exactly those frames; with an empty header, a single frame
      gives back itself. */
  lemma ExtractAllFrames(header: seq<byte>, ps: seq<seq<byte>>, cmd: byte)
    requires forall q :: 0 <= q < |header| ==> header[q] != 0x00
    requires |ps| > 0 && forall k :: 0 <= k < |ps| ==> |ps[k]| <= Frame.MaxPayloadLen
    ensures ExtractAll(header + Concat(Scan.Frames(ps)), cmd) == Scan.Frames(ps)
  {
    ScanFramesOfFrames(ps);
    ExtractAllAfterHeader(header, Concat(Scan.Frames(ps)), Scan.Frames(ps), cmd);
  }

  /** Phase 1 over a header without zero bytes and a body is phase 1 over
      the body. */
  lemma ExtractAllAfterHeader(header: seq<byte>, body: seq<byte>, fs: seq<seq<byte>>, cmd: byte)
    requires forall q :: 0 <= q < |header| ==> header[q] != 0x00
    requires ScanFrames(body, 0) == fs && |fs| > 0
    ensures ExtractAll(header + body, cmd) == fs
  {
    var raw := header + body;
    HeaderSkipped(header, body);
    ScanFramesShift(header, body, 0);
    assert ScanFrames(raw, 0) == fs;
    Scan.CandidatesWithin(raw, ScanOffsets(raw, 0), 0);
  }

  /** The single-frame extractor returns a frame that follows a header
      without zero bytes. */
  lemma ExtractFelicaAfterHeader(header: seq<byte>, p: seq<byte>, cmd: byte)
    requires forall q :: 0 <= q < |header| ==> header[q] != 0x00
    requires |p| <= Frame.MaxPayloadLen
    ensures ExtractFelica(header + Frame.Encode(p).value, cmd) == Some(Frame.Encode(p).value)
  {
    var f := Frame.Encode(p).value;
    var raw := header + f;
    assert raw[|header|..] == f;
    assert Scan.PreambleAt(raw, |header|);
    forall q | 0 <= q < |header|
      ensures !Scan.PreambleAt(raw, q)
    {
      assert raw[q] == header[q];
    }
  }

  /** An unframed payload after `D5 4B n`, led by the expected response code
      and free of zero bytes, is framed by the fallback. */
  lemma ExtractFelicaUnframed(n: byte, p: seq<byte>, cmd: byte)
    requires 0 < |p| <= Frame.MaxPayloadLen - 3 && p[0] == Responses.ExpectedResponse(cmd)
    requires forall q :: 0 <= q < |p| ==> p[q] != 0x00
    ensures ExtractFelica([Scan.DevicePrefix, Scan.InListResponse, n] + p, cmd) == Some(Frame.Encode(p).value)
  {
    var raw := [Scan.DevicePrefix, Scan.InListResponse, n] + p;
    forall q: nat | 3 <= q < |raw|
      ensures raw[q] != 0x00
    {
      assert raw[q] == p[q - 3];
    }
    assert Scan.FindByte(raw, 3, Responses.ExpectedResponse(cmd)) == Some(3);
    assert raw[3..] == p;
  }

  // ---- a reply that starts with the reader's ACK ----

  /** Phase 1 reads the ACK's zero length byte as a seven-byte frame: it
      emits the ACK plus the first byte of the following preamble, which no
      frame decoder accepts, and resumes inside the next frame, so the
      reader's actual answer is never emitted. Since phase 1 found
      something, the 0xD5 heuristics do not run either. */
  lemma AckHidesFrame(p: seq<byte>, cmd: byte)
    requires |p| <= Frame.MaxPayloadLen
    ensures var r := ExtractAll(Scan.Ack + Frame.Encode(p).value, cmd);
      && |r| > 0 && r[0] == Scan.Ack + [0x00] && Frame.Decode(r[0]).Err?
      && forall k :: 0 <= k < |r| ==> r[k] != Frame.Encode(p).value
  {
    var f := Frame.Encode(p).value;
    var raw := Scan.Ack + f;
    var later := Scan.Candidates(raw, ScanOffsets(raw, 7));
    AckFirstCandidate(f);
    AckCandidateRejected();
    LaterCandidatesShorter(f);
    var r := ExtractAll(raw, cmd);
    assert r == [Scan.Ack + [0x00]] + later;
    forall k | 0 <= k < |r|
      ensures r[k] != f
    {
      if k == 0 {
        if |f| == 7 {
          assert f[4] == 0x00;
        }
      } else {
        assert r[k] == later[k - 1];
      }
    }
  }

  /** Phase 1 on an ACK followed by a frame takes the ACK and the frame's
      first byte as a 7-byte candidate, then scans on from index 7. */
  lemma AckFirstCandidate(f: seq<byte>)
    requires Frame.ValidFrame(f)
    ensures ScanFrames(Scan.Ack + f, 0) == [Scan.Ack + [0x00]] + Scan.Candidates(Scan.Ack + f, ScanOffsets(Scan.Ack + f, 7))
  {
    var raw := Scan.Ack + f;
    assert raw[..7] == Scan.Ack + [0x00] by {
      assert raw[6] == f[0];
    }
    assert Scan.PreambleAt(raw, 0) && Scan.CandidateAt(raw, 0) && Scan.CandidateEnd(raw, 0) == 7;
    var rest := ScanOffsets(raw, 7);
    assert ScanOffsets(raw, 0) == [0] + rest;
    Scan.CandidatesCons(raw, 0, rest);
  }

  /** The 7-byte candidate made of the ACK and one more byte does not
      decode: its length and length-checksum bytes do not sum to 0x100. */
  lemma AckCandidateRejected()
    ensures Frame.Decode(Scan.Ack + [0x00]).Err?
  {
    Frame.DecodeAcceptsValidFrames(Scan.Ack + [0x00]);
    assert (Scan.Ack + [0x00])[3] as int + (Scan.Ack + [0x00])[4] == 0xFF;
  }

  /** Every candidate phase 1 finds after the ACK's 7 bytes is shorter than
      the frame behind the ACK. */
  lemma LaterCandidatesShorter(f: seq<byte>)
    ensures var later := Scan.Candidates(Scan.Ack + f, ScanOffsets(Scan.Ack + f, 7));
      forall k :: 0 <= k < |later| ==> |later[k]| < |f|
  {
    var raw := Scan.Ack + f;
    ScanAtCandidates(raw, 7);
    Scan.CandidatesWithin(raw, ScanOffsets(raw, 7), 7);
  }

  // ---- unit-test vectors ----

  /** No two zero bytes in a row: the situation in which phase 1 has nothing
      to find. */
  predicate NoDoubleZero(raw: seq<byte>)
  {
    forall q :: 0 <= q < |raw| - 1 ==> raw[q] != 0x00 || raw[q + 1] != 0x00
  }

  /** Phase 1 finds nothing in a reply without two zero bytes in a row. */
  lemma NoFramesWithoutDoubleZero(raw: seq<byte>)
    requires NoDoubleZero(raw)
    ensures ScanOffsets(raw, 0) == [] && Scan.FindPreamble(raw, 0).None?
  {
    forall q: nat | q < |raw|
      ensures !Scan.PreambleAt(raw, q)
    {
      if q + 1 < |raw| {
        assert raw[q] != 0x00 || raw[q + 1] != 0x00;
      }
    }
    ScanSkips(raw, 0, |raw|);
  }

  /** Bytes that are neither zero nor the 0xD5 device prefix. */
  predicate Plain(p: seq<byte>)
  {
    forall q :: 0 <= q < |p| ==> p[q] != 0x00 && p[q] != Scan.DevicePrefix
  }

  /** An InListPassiveTarget answer, `D5 4B`, the number of targets, and
      the targets' bytes. */
  function TargetsReply(n: byte, p: seq<byte>): (r: seq<byte>)
    ensures |r| == |p| + 3 && r[1] == Scan.InListResponse && r[2] == n && r[3..] == p
  {
    [Scan.DevicePrefix, Scan.InListResponse, n] + p
  }

  /** The answer for one target. */
  function OneTargetReply(p: seq<byte>): seq<byte>
  {
    TargetsReply(0x01, p)
  }

  /** An answer of plain bytes, optionally followed by one zero byte, is a
      region without two zero bytes in a row. */
  lemma TargetsRegion(n: byte, p: seq<byte>, sep: seq<byte>)
    requires n != 0x00 && n != Scan.DevicePrefix
    requires Plain(p) && (sep == [] || sep == [0x00])
    ensures Scan.IsRegion(TargetsReply(n, p) + sep) && NoDoubleZero(TargetsReply(n, p) + sep)
  {
    var raw := TargetsReply(n, p) + sep;
    forall q | 0 <= q < |raw| - 1
      ensures raw[q] != 0x00
    {
      if q >= 3 {
        assert raw[q] == p[q - 3];
      }
    }
    forall m | 1 <= m < |raw|
      ensures raw[m] != Scan.DevicePrefix
    {
      if 3 <= m < |p| + 3 {
        assert raw[m] == p[m - 3];
      }
    }
  }

  /** Two stretches without two zero bytes in a row stay so when the second
      does not start with a zero. */
  lemma NoDoubleZeroAppend(a: seq<byte>, b: seq<byte>)
    requires NoDoubleZero(a) && NoDoubleZero(b) && |b| > 0 && b[0] != 0x00
    ensures NoDoubleZero(a + b)
  {
    var raw := a + b;
    forall q | 0 <= q < |raw| - 1
      ensures raw[q] != 0x00 || raw[q + 1] != 0x00
    {
      if q + 1 < |a| {
        assert raw[q] == a[q] && raw[q + 1] == a[q + 1];
      } else if q + 1 == |a| {
        assert raw[q + 1] == b[0];
      } else {
        assert raw[q] == b[q - |a|] && raw[q + 1] == b[q + 1 - |a|];
      }
    }
  }

  /** A one-target answer whose payload starts with the expected code and
      fits a frame, possibly with a separator zero after it, becomes one
      frame that keeps the separator. */
  lemma PartitionedRegion(p: seq<byte>, sep: seq<byte>, er: byte)
    requires Plain(p) && 0 < |p| && |p + sep| <= Frame.MaxPayloadLen && p[0] == er
    requires sep == [] || sep == [0x00]
    ensures RegionFrames(OneTargetReply(p) + sep, er) == [Frame.Encode(p + sep).value]
  {
    var region := OneTargetReply(p) + sep;
    TargetsRegion(0x01, p, sep);
    NoFramesWithoutDoubleZero(region);
    assert region[3..] == p + sep;
    assert Scan.Admissible(p + sep, er);
    assert Scan.EncodeEach([p + sep]) == [Frame.Encode(p + sep).value] by {
      assert [p + sep][1..] == [];
    }
  }

  /** An InListPassiveTarget region without a preamble and without the
      expected code after its header, no longer than 258 bytes, is framed
      from index 3 by the last resort. */
  lemma LastResortRegion(region: seq<byte>, er: byte)
    requires 3 < |region| <= 3 + Frame.MaxPayloadLen && region[1] == Scan.InListResponse
    requires Scan.FindPreamble(region, 0).None?
    requires forall q :: 3 <= q < |region| ==> region[q] != er
    ensures RegionFrames(region, er) == [Frame.Encode(region[3..]).value]
  {
    assert Scan.FindByte(region, 3, er).None?;
    assert Scan.LastResort(region, 3) == [Frame.Encode(region[3..]).value] by {
      Scan.LastResortLongestSuffix(region, 3);
    }
    assert Scan.Unframed(region, er) == Scan.LastResort(region, 3);
  }

  /** A one-target answer whose payload never holds the expected code is
      framed whole by the last resort. */
  lemma UnexpectedRegion(p: seq<byte>, er: byte)
    requires Plain(p) && 0 < |p| <= Frame.MaxPayloadLen
    requires forall q :: 0 <= q < |p| ==> p[q] != er
    ensures RegionFrames(OneTargetReply(p), er) == [Frame.Encode(p).value]
  {
    var region := OneTargetReply(p);
    TargetsRegion(0x01, p, []);
    assert region + [] == region;
    NoFramesWithoutDoubleZero(region);
    forall q | 3 <= q < |region|
      ensures region[q] != er
    {
      assert region[q] == p[q - 3];
    }
    LastResortRegion(region, er);
  }

  /** Two one-target answers, optionally separated by a zero byte, the
      first carrying the expected code and the second not: phase 1 finds
      nothing, the first region's frame keeps the separator when there is
      one, since a region runs up to the next 0xD5, and the second is framed
      by the last resort. */
  lemma TwoRegionsOf(p1: seq<byte>, sep: seq<byte>, p2: seq<byte>, cmd: byte)
    requires Plain(p1) && 0 < |p1| && |p1 + sep| <= Frame.MaxPayloadLen && p1[0] == Responses.ExpectedResponse(cmd)
    requires sep == [] || sep == [0x00]
    requires Plain(p2) && 0 < |p2| <= Frame.MaxPayloadLen
    requires forall q :: 0 <= q < |p2| ==> p2[q] != Responses.ExpectedResponse(cmd)
    ensures ExtractAll(OneTargetReply(p1) + sep + OneTargetReply(p2), cmd)
         == [Frame.Encode(p1 + sep).value, Frame.Encode(p2).value]
  {
    var er := Responses.ExpectedResponse(cmd);
    var r1 := OneTargetReply(p1) + sep;
    var r2 := OneTargetReply(p2);
    var raw := r1 + r2;
    TargetsRegion(0x01, p1, sep);
    TargetsRegion(0x01, p2, []);
    assert r2 + [] == r2;
    assert ScanFrames(raw, 0) == [] by {
      NoDoubleZeroAppend(r1, r2);
      NoFramesWithoutDoubleZero(raw);
    }
    Scan.PairOfRegions(r1, r2);
    PartitionedRegion(p1, sep, er);
    UnexpectedRegion(p2, er);
    assert AllRegionFrames([r1, r2], er) == RegionFrames(r1, er) + AllRegionFrames([r2], er);
    assert AllRegionFrames([r2], er) == RegionFrames(r2, er) + AllRegionFrames([], er);
  }

  const TestP1: seq<byte> := [0x01, 1, 2, 3, 4, 5, 6, 7, 8]
  const TestP2: seq<byte> := [0x02, 21, 22, 23, 24, 25, 26, 27, 28]
  /** Two `D5 4B 01` regions carrying `TestP1` and `TestP2`, separated by a
      `00` byte, as the unit test builds them. */
  const TwoRegions: seq<byte> := OneTargetReply(TestP1) + [0x00] + OneTargetReply(TestP2)

  /** What the code makes of the two-region reply: the first frame carries
      the separator byte after the payload, so it is not the encoding of
      `TestP1` that the unit test expects; the second payload, which does
      not start with the expected code 0x01, is framed by the last
      resort. */
  lemma TwoRegionsVector()
    ensures ExtractAll(TwoRegions, 0x00) == [Frame.Encode(TestP1 + [0x00]).value, Frame.Encode(TestP2).value]
    ensures ExtractAll(TwoRegions, 0x00)[0] != Frame.Encode(TestP1).value
  {
    assert Plain(TestP1) && Plain(TestP2);
    TwoRegionsOf(TestP1, [0x00], TestP2, 0x00);
    assert |Frame.Encode(TestP1 + [0x00]).value| != |Frame.Encode(TestP1).value|;
  }

  /** The same two regions back to back, without the separator: the
      reply yields exactly the encodings of `TestP1` and `TestP2`, the two
      frames the unit test expects. */
  lemma AdjacentRegionsVector()
    ensures ExtractAll(OneTargetReply(TestP1) + OneTargetReply(TestP2), 0x00)
         == [Frame.Encode(TestP1).value, Frame.Encode(TestP2).value]
  {
    assert Plain(TestP1) && Plain(TestP2);
    TwoRegionsOf(TestP1, [], TestP2, 0x00);
    assert TestP1 + [] == TestP1;
    assert OneTargetReply(TestP1) + [] == OneTargetReply(TestP1);
  }

  /** An InListPassiveTarget reply that is a single region without a
      preamble, whose remainder splits among its targets, yields the framed
      parts. */
  lemma InListReply(raw: seq<byte>, cmd: byte)
    requires Scan.IsRegion(raw) && |raw| > 3 && raw[1] == Scan.InListResponse && raw[2] > 0
    requires NoDoubleZero(raw)
    requires Scan.Partition(raw[3..], Responses.ExpectedResponse(cmd), raw[2]).Some?
    ensures ExtractAll(raw, cmd) == Scan.EncodeEach(Scan.Partition(raw[3..], Responses.ExpectedResponse(cmd), raw[2]).value)
  {
    var er := Responses.ExpectedResponse(cmd);
    NoFramesWithoutDoubleZero(raw);
    Scan.SingleRegion(raw);
    assert AllRegionFrames([raw], er) == RegionFrames(raw, er) + AllRegionFrames([], er);
  }

  /** A two-target answer whose remainder is two admissible payloads, the
      second holding the expected code only at its start, yields the two
      payloads framed. */
  lemma TwoTargetsOf(t1: seq<byte>, t2: seq<byte>, cmd: byte)
    requires Plain(t1 + t2)
    requires Scan.Admissible(t1, Responses.ExpectedResponse(cmd)) && Scan.Admissible(t2, Responses.ExpectedResponse(cmd))
    requires forall q :: 1 <= q < |t2| ==> t2[q] != Responses.ExpectedResponse(cmd)
    ensures ExtractAll(TargetsReply(0x02, t1 + t2), cmd) == [Frame.Encode(t1).value, Frame.Encode(t2).value]
  {
    var er := Responses.ExpectedResponse(cmd);
    var raw := TargetsReply(0x02, t1 + t2);
    TargetsRegion(0x02, t1 + t2, []);
    assert raw + [] == raw;
    Scan.TwoPartsSplit(t1, t2, er);
    InListReply(raw, cmd);
    assert Scan.EncodeEach([t1, t2]) == [Frame.Encode(t1).value, Frame.Encode(t2).value] by {
      assert [t1, t2][1..] == [t2];
      assert [t2][1..] == [];
    }
  }

  const TestT1: seq<byte> := [0x01, 1, 2, 3, 4]
  const TestT2: seq<byte> := [0x01, 5, 6, 7, 8]
  /** One `D5 4B 02` region holding the unframed target payloads `TestT1`
      and `TestT2`. */
  const TwoTargets: seq<byte> := TargetsReply(0x02, TestT1 + TestT2)

  /** The two-target reply: its remainder splits into the two payloads,
      each framed. */
  lemma TwoTargetsVector()
    ensures ExtractAll(TwoTargets, 0x00) == [Frame.Encode(TestT1).value, Frame.Encode(TestT2).value]
  {
    assert Plain(TestT1 + TestT2);
    TwoTargetsOf(TestT1, TestT2, 0x00);
  }
}
