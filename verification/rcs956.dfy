/** The RCS956 extractors: a second version of the PN533 helpers that the
    S330 model does not build. They differ in two ways: a zero-length
    preamble (the reader's ACK) is skipped, and every frame found by its
    preamble is decoded before it is kept, a frame whose payload starts
    with 0xD5 being replaced by the framed FeliCa answer inside it. */
module Rcs956 {
  import opened Bytes
  import opened Errors
  import Frame
  import Scan
  import Responses

  /** A payload that is itself a device-to-host reader reply. */
  predicate FromDevice(payload: seq<byte>)
  {
    |payload| > 0 && payload[0] == Scan.DevicePrefix
  }

  /** What both extractors do with a candidate: a candidate that does not
      decode is dropped; one whose payload is a FeliCa payload is kept as it
      is; one whose payload is a reader reply is replaced by the frame of
      the payload from the first expected response code after the 0xD5. */
  function Unwrap(candidate: seq<byte>, expectedResponse: byte): (r: Option<seq<byte>>)
    ensures r.Some? ==> Frame.ValidFrame(r.value)
    ensures Frame.Decode(candidate).Err? ==> r.None?
    ensures Frame.Decode(candidate).Ok? && !FromDevice(Frame.Decode(candidate).value) ==> r == Some(candidate)
    ensures Frame.Decode(candidate).Ok? && FromDevice(Frame.Decode(candidate).value) ==>
      r == Scan.FrameFrom(Frame.Decode(candidate).value, 1, expectedResponse)
  {
    Frame.DecodeAcceptsValidFrames(candidate);
    match Frame.Decode(candidate)
    case Err(_) => None
    case Ok(payload) =>
      if FromDevice(payload) then Scan.FrameFrom(payload, 1, expectedResponse)
      else Some(candidate)
  }

  /** The frame of a FeliCa payload is kept unchanged. */
  lemma UnwrapFrame(p: seq<byte>, er: byte)
    requires |p| <= Frame.MaxPayloadLen && !FromDevice(p)
    ensures Unwrap(Frame.Encode(p).value, er) == Some(Frame.Encode(p).value)
  {
    Frame.RoundTrip(p);
  }

  /** A reader reply wrapped in a frame gives up the FeliCa answer inside
      it: the frame of `D5 h ++ q`, where `h` holds no expected code and `q`
      starts with it, unwraps to the frame of `q`. */
  lemma UnwrapReaderReply(h: seq<byte>, q: seq<byte>, er: byte)
    requires |q| > 0 && q[0] == er && forall k :: 0 <= k < |h| ==> h[k] != er
    requires 1 + |h| + |q| <= Frame.MaxPayloadLen
    ensures Unwrap(Frame.Encode([Scan.DevicePrefix] + h + q).value, er) == Some(Frame.Encode(q).value)
  {
    var payload := [Scan.DevicePrefix] + h + q;
    Frame.RoundTrip(payload);
    forall k | 1 <= k < 1 + |h|
      ensures payload[k] != er
    {
      assert payload[k] == h[k - 1];
    }
    assert payload[1 + |h|] == q[0];
    assert Scan.FindByte(payload, 1, er) == Some(1 + |h|);
    assert payload[1 + |h|..] == q;
  }

  // ---- extract_felica_from_pn532_response ----

  /** The preamble search of the single-frame extractor, from `from`: ACKs
      (zero length byte) are stepped over; the first other preamble is the
      candidate if its frame fits, and otherwise there is none. */
  function FirstCandidate(raw: seq<byte>, from: nat): (r: Option<nat>)
    ensures r.Some? ==> from <= r.value && Scan.CandidateAt(raw, r.value) && raw[r.value + 3] != 0
    ensures r.Some? ==> forall q :: from <= q < r.value && Scan.PreambleAt(raw, q) ==> q + 3 < |raw| && raw[q + 3] == 0
    decreases |raw| - from
  {
    if from + 3 > |raw| then None
    else
      match Scan.FindPreamble(raw, from)
      case None => None
      case Some(pos) =>
        if pos + 3 >= |raw| then None
        else if raw[pos + 3] == 0 then FirstCandidate(raw, pos + 1)
        else if pos + 3 < |raw| && Scan.CandidateEnd(raw, pos) > |raw| then None
        else Some(pos)
  }

  /** `extract_felica_from_pn532_response` (RCS956 version): the first
      non-ACK frame, decoded and possibly unwrapped, or else the 0xD5
      fallback. Whatever it returns is a well-formed frame. */
  function Extract(raw: seq<byte>, cmd: byte): (r: Option<seq<byte>>)
    ensures r.Some? ==> Frame.ValidFrame(r.value)
  {
    var er := Responses.ExpectedResponse(cmd);
    var direct := match FirstCandidate(raw, 0)
      case Some(pos) => Unwrap(Scan.Candidate(raw, pos), er)
      case None => None;
    if direct.Some? then direct else Scan.D5Fallback(raw, er)
  }

  // ---- extract_all_felica_frames_from_pn532_response ----

  /** The offsets of the candidates phase 1 examines from `i`: ACKs are
      stepped over one byte at a time, every other preamble whose frame fits
      is examined and jumped over, and a frame that does not fit ends the
      scan. */
  function ScanOffsets(raw: seq<byte>, i: nat): seq<nat>
    decreases |raw| - i
  {
    if i + 3 >= |raw| then []
    else if Scan.PreambleAt(raw, i) then
      if raw[i + 3] == 0 then ScanOffsets(raw, i + 1)
      else if Scan.CandidateAt(raw, i) then [i] + ScanOffsets(raw, Scan.CandidateEnd(raw, i))
      else []
    else ScanOffsets(raw, i + 1)
  }

  /** Phase 1 examines only candidates that are not ACKs. */
  lemma {:induction false} ScanAtCandidates(raw: seq<byte>, i: nat)
    ensures forall k :: 0 <= k < |ScanOffsets(raw, i)| ==>
      var o := ScanOffsets(raw, i)[k]; i <= o && Scan.CandidateAt(raw, o) && raw[o + 3] != 0
    decreases |raw| - i
  {
    if i + 3 < |raw| {
      if Scan.PreambleAt(raw, i) && raw[i + 3] != 0 {
        if Scan.CandidateAt(raw, i) {
          ScanAtCandidates(raw, Scan.CandidateEnd(raw, i));
          var rest := ScanOffsets(raw, Scan.CandidateEnd(raw, i));
          assert forall k :: 0 < k < |rest| + 1 ==> ScanOffsets(raw, i)[k] == rest[k - 1];
        }
      } else {
        ScanAtCandidates(raw, i + 1);
      }
    }
  }

  /** The candidates phase 1 examines follow one another without
      overlapping, and every preamble it passes over is an ACK. */
  lemma {:induction false} ScanInOrder(raw: seq<byte>, i: nat)
    ensures Scan.InOrder(raw, ScanOffsets(raw, i))
    ensures |ScanOffsets(raw, i)| > 0 ==>
      forall q :: i <= q < ScanOffsets(raw, i)[0] && Scan.PreambleAt(raw, q) ==> q + 3 < |raw| && raw[q + 3] == 0
    decreases |raw| - i
  {
    ScanAtCandidates(raw, i);
    var offs := ScanOffsets(raw, i);
    if i + 3 < |raw| {
      if Scan.PreambleAt(raw, i) && raw[i + 3] != 0 {
        if Scan.CandidateAt(raw, i) {
          var rest := ScanOffsets(raw, Scan.CandidateEnd(raw, i));
          ScanInOrder(raw, Scan.CandidateEnd(raw, i));
          ScanAtCandidates(raw, Scan.CandidateEnd(raw, i));
          assert offs == [i] + rest;
          forall k | 0 <= k < |offs| - 1
            ensures offs[k] + 3 < |raw| && Scan.CandidateEnd(raw, offs[k]) <= offs[k + 1]
          {
            if k > 0 {
              assert offs[k] == rest[k - 1] && offs[k + 1] == rest[k];
            }
          }
        }
      } else {
        ScanInOrder(raw, i + 1);
      }
    }
  }

  /** The candidates phase 1 examines from `i` on. */
  function ScanCandidates(raw: seq<byte>, i: nat): seq<seq<byte>>
  {
    Scan.Candidates(raw, ScanOffsets(raw, i))
  }

  /** One step of phase 1 at a candidate that is not an ACK. */
  lemma ScanStep(raw: seq<byte>, i: nat)
    requires Scan.CandidateAt(raw, i) && raw[i + 3] != 0
    ensures ScanOffsets(raw, i) == [i] + ScanOffsets(raw, Scan.CandidateEnd(raw, i))
  {
  }

  /** Each candidate passed through `Unwrap`; those it drops leave no
      trace. */
  function UnwrapAll(candidates: seq<seq<byte>>, expectedResponse: byte): (r: seq<seq<byte>>)
    ensures |r| <= |candidates|
    ensures forall k :: 0 <= k < |r| ==> Frame.ValidFrame(r[k])
  {
    if |candidates| == 0 then []
    else
      var u := Unwrap(candidates[0], expectedResponse);
      (if u.Some? then [u.value] else []) + UnwrapAll(candidates[1..], expectedResponse)
  }

  /** The frames phase 1 keeps from `i` on. */
  function ScanFrames(raw: seq<byte>, expectedResponse: byte, i: nat): (r: seq<seq<byte>>)
    ensures forall k :: 0 <= k < |r| ==> Frame.ValidFrame(r[k])
  {
    UnwrapAll(ScanCandidates(raw, i), expectedResponse)
  }

  /** The region loop for one 0xD5 region: when a frame fits after its first
      preamble, the embedded frames (unwrapped; possibly none survive) and
      nothing else; otherwise the unframed-payload heuristics. */
  function RegionFrames(region: seq<byte>, expectedResponse: byte): (r: seq<seq<byte>>)
    ensures forall k :: 0 <= k < |r| ==> Frame.ValidFrame(r[k])
  {
    var embedded := match Scan.FindPreamble(region, 0)
      case Some(p) => Scan.EmbeddedOffsets(region, p)
      case None => [];
    if |embedded| > 0 then UnwrapAll(Scan.Candidates(region, embedded), expectedResponse)
    else Scan.Unframed(region, expectedResponse)
  }

  function AllRegionFrames(regions: seq<seq<byte>>, expectedResponse: byte): (r: seq<seq<byte>>)
    ensures forall k :: 0 <= k < |r| ==> Frame.ValidFrame(r[k])
  {
    if |regions| == 0 then []
    else RegionFrames(regions[0], expectedResponse) + AllRegionFrames(regions[1..], expectedResponse)
  }

  /** `extract_all_felica_frames_from_pn532_response` (RCS956 version): the
      frames phase 1 keeps, or when it keeps none, the frames of the 0xD5
      regions. Every frame it returns is well formed. */
  function ExtractAll(raw: seq<byte>, cmd: byte): (r: seq<seq<byte>>)
    ensures forall k :: 0 <= k < |r| ==> Frame.ValidFrame(r[k])
    ensures |ScanFrames(raw, Responses.ExpectedResponse(cmd), 0)| > 0 ==> r == ScanFrames(raw, Responses.ExpectedResponse(cmd), 0)
  {
    var er := Responses.ExpectedResponse(cmd);
    var phaseOne := ScanFrames(raw, er, 0);
    if |phaseOne| > 0 then phaseOne
    else AllRegionFrames(Scan.D5Regions(raw), er)
  }

  // ---- what the scan does with well-formed input ----

  /** Phase 1 does not look behind its starting point. */
  lemma {:induction false} ScanCandidatesShift(a: seq<byte>, b: seq<byte>, i: nat)
    ensures ScanCandidates(a + b, |a| + i) == ScanCandidates(b, i)
    decreases |b| - i
  {
    Scan.PreambleShift(a, b, i);
    if i + 3 < |b| {
      if Scan.PreambleAt(b, i) && b[i + 3] != 0 {
        if Scan.CandidateAt(b, i) {
          CandidateShift(a, b, i);
        }
      } else {
        ScanCandidatesShift(a, b, i + 1);
      }
    }
  }

  lemma {:induction false} CandidateShift(a: seq<byte>, b: seq<byte>, i: nat)
    requires Scan.CandidateAt(b, i) && b[i + 3] != 0
    ensures ScanCandidates(a + b, |a| + i) == ScanCandidates(b, i)
    decreases |b| - i, 0
  {
    var raw := a + b;
    var j := |a| + i;
    var e := Scan.CandidateEnd(b, i);
    Scan.CandidateShift(a, b, i);
    Scan.PreambleShift(a, b, i);
    var x := ScanOffsets(raw, |a| + e);
    var y := ScanOffsets(b, e);
    calc {
      ScanCandidates(raw, j);
    == { ScanStep(raw, j); }
      Scan.Candidates(raw, [j] + x);
    == { Scan.CandidatesCons(raw, j, x); }
      [Scan.Candidate(raw, j)] + Scan.Candidates(raw, x);
    == { ScanCandidatesShift(a, b, e); }
      [Scan.Candidate(b, i)] + Scan.Candidates(b, y);
    == { Scan.CandidatesCons(b, i, y); }
      Scan.Candidates(b, [i] + y);
    == { ScanStep(b, i); }
      ScanCandidates(b, i);
    }
  }

  /** ACKs and bytes without a preamble before `j` are stepped over. */
  lemma {:induction false} ScanSkips(raw: seq<byte>, i: nat, j: nat)
    requires i <= j
    requires forall q :: i <= q < j && Scan.PreambleAt(raw, q) ==> q + 3 < |raw| && raw[q + 3] == 0
    ensures ScanOffsets(raw, i) == ScanOffsets(raw, j)
    decreases j - i
  {
    if i < j && i + 3 < |raw| {
      ScanSkips(raw, i + 1, j);
    }
  }

  /** Frames laid end to end are each examined. */
  lemma {:induction false} ScanCandidatesOfFrames(ps: seq<seq<byte>>)
    requires forall k :: 0 <= k < |ps| ==> 0 < |ps[k]| <= Frame.MaxPayloadLen
    ensures ScanCandidates(Concat(Scan.Frames(ps)), 0) == Scan.Frames(ps)
  {
    if |ps| > 0 {
      var f := Frame.Encode(ps[0]).value;
      var tail := Scan.Frames(ps[1..]);
      assert Scan.Frames(ps) == [f] + tail;
      assert Concat(Scan.Frames(ps)) == f + Concat(tail) by {
        assert Scan.Frames(ps)[1..] == tail;
      }
      ScanCandidatesOfFrames(ps[1..]);
      FrameThenRest(ps[0], Concat(tail));
    }
  }

  /** A frame of a non-empty payload is examined, and the scan goes on
      right after it. */
  lemma FrameThenRest(p: seq<byte>, rest: seq<byte>)
    requires 0 < |p| <= Frame.MaxPayloadLen
    ensures ScanCandidates(Frame.Encode(p).value + rest, 0) == [Frame.Encode(p).value] + ScanCandidates(rest, 0)
  {
    var f := Frame.Encode(p).value;
    var raw := f + rest;
    assert Scan.CandidateAt(raw, 0) && Scan.CandidateEnd(raw, 0) == |f| && raw[3] != 0
      && Scan.Candidate(raw, 0) == f by {
      assert raw[..|f|] == f;
    }
    calc {
      ScanCandidates(raw, 0);
    == { ScanStep(raw, 0); }
      Scan.Candidates(raw, [0] + ScanOffsets(raw, |f|));
    == { Scan.CandidatesCons(raw, 0, ScanOffsets(raw, |f|)); }
      [f] + ScanCandidates(raw, |f|);
    == { ScanCandidatesShift(f, rest, 0); }
      [f] + ScanCandidates(rest, 0);
    }
  }

  /** Frames of FeliCa payloads are kept unchanged. */
  lemma {:induction false} UnwrapAllFrames(ps: seq<seq<byte>>, er: byte)
    requires forall k :: 0 <= k < |ps| ==> |ps[k]| <= Frame.MaxPayloadLen && !FromDevice(ps[k])
    ensures UnwrapAll(Scan.Frames(ps), er) == Scan.Frames(ps)
  {
    if |ps| > 0 {
      var fs := Scan.Frames(ps);
      assert fs[1..] == Scan.Frames(ps[1..]);
      UnwrapFrame(ps[0], er);
      UnwrapAllFrames(ps[1..], er);
    }
  }

  /** Phase 1 finds no preamble in a header without zero bytes. */
  lemma HeaderSkipped(header: seq<byte>, body: seq<byte>)
    requires forall q :: 0 <= q < |header| ==> header[q] != 0x00
    ensures ScanOffsets(header + body, 0) == ScanOffsets(header + body, |header|)
    ensures ScanCandidates(header + body, 0) == ScanCandidates(body, 0)
  {
    ScanCandidatesShift(header, body, 0);
    var raw := header + body;
    forall q | 0 <= q < |header|
      ensures !Scan.PreambleAt(raw, q)
    {
      assert raw[q] == header[q];
    }
    ScanSkips(raw, 0, |header|);
  }

  /** A reply made of a header without zero bytes followed by frames of
      non-empty FeliCa payloads gives back exactly those frames. */
  lemma ExtractAllFrames(header: seq<byte>, ps: seq<seq<byte>>, cmd: byte)
    requires forall q :: 0 <= q < |header| ==> header[q] != 0x00
    requires |ps| > 0 && forall k :: 0 <= k < |ps| ==> 0 < |ps[k]| <= Frame.MaxPayloadLen && !FromDevice(ps[k])
    ensures ExtractAll(header + Concat(Scan.Frames(ps)), cmd) == Scan.Frames(ps)
  {
    ScanCandidatesOfFrames(ps);
    UnwrapAllFrames(ps, Responses.ExpectedResponse(cmd));
    ExtractAllAfterHeader(header, Concat(Scan.Frames(ps)), Scan.Frames(ps), cmd);
  }

  /** Phase 1 over a header without zero bytes and a body is phase 1 over
      the body. */
  lemma ExtractAllAfterHeader(header: seq<byte>, body: seq<byte>, fs: seq<seq<byte>>, cmd: byte)
    requires forall q :: 0 <= q < |header| ==> header[q] != 0x00
    requires ScanCandidates(body, 0) == fs && |fs| > 0
    requires UnwrapAll(fs, Responses.ExpectedResponse(cmd)) == fs
    ensures ExtractAll(header + body, cmd) == fs
  {
    HeaderSkipped(header, body);
    PhaseOneKept(header + body, fs, cmd);
  }

  /** Candidates that all survive unwrapping are what the extractor
      returns. */
  lemma PhaseOneKept(raw: seq<byte>, fs: seq<seq<byte>>, cmd: byte)
    requires ScanCandidates(raw, 0) == fs && |fs| > 0
    requires UnwrapAll(fs, Responses.ExpectedResponse(cmd)) == fs
    ensures ExtractAll(raw, cmd) == fs
  {
  }

  // ---- a reply that starts with the reader's ACK ----

  /** The ACK ahead of the reader's answer is stepped over and the answer
      is returned by the multi-frame extractor. */
  lemma AckSkipped(p: seq<byte>, cmd: byte)
    requires 0 < |p| <= Frame.MaxPayloadLen && !FromDevice(p)
    ensures ExtractAll(Scan.Ack + Frame.Encode(p).value, cmd) == [Frame.Encode(p).value]
  {
    var f := Frame.Encode(p).value;
    assert f[..3] == Frame.Preamble;
    AckScan(f);
    assert ScanCandidates(f, 0) == [f] by {
      FrameThenRest(p, []);
      assert f + [] == f;
    }
    assert UnwrapAll([f], Responses.ExpectedResponse(cmd)) == [f] by {
      UnwrapFrame(p, Responses.ExpectedResponse(cmd));
    }
    PhaseOneKept(Scan.Ack + f, [f], cmd);
  }

  /** Phase 1 over an ACK and the frame behind it starts at the frame. */
  lemma AckScan(f: seq<byte>)
    requires |f| >= 3 && f[..3] == Frame.Preamble
    ensures ScanCandidates(Scan.Ack + f, 0) == ScanCandidates(f, 0)
  {
    var raw := Scan.Ack + f;
    assert ScanOffsets(raw, 0) == ScanOffsets(raw, 6) by {
      AckPreambles(f);
      ScanSkips(raw, 0, 6);
    }
    assert ScanCandidates(raw, |Scan.Ack|) == ScanCandidates(f, 0) by {
      ScanCandidatesShift(Scan.Ack, f, 0);
    }
  }

  /** Of the first six positions of an ACK followed by a frame, only the
      first starts a preamble. */
  lemma AckPreambles(f: seq<byte>)
    requires |f| >= 3 && f[..3] == Frame.Preamble
    ensures var raw := Scan.Ack + f;
      Scan.PreambleAt(raw, 0) && raw[3] == 0 && raw[6..] == f &&
      forall q :: 1 <= q < 6 ==> !Scan.PreambleAt(raw, q)
  {
    var raw := Scan.Ack + f;
    assert raw[6..] == f;
    assert f[0] == 0x00 && f[1] == 0x00 && f[2] == 0xFF;
    assert raw[..9] == [0x00, 0x00, 0xFF, 0x00, 0xFF, 0x00, 0x00, 0x00, 0xFF];
  }

  /** The single-frame extractor steps over the ACK too. */
  lemma AckSkippedFirst(p: seq<byte>, cmd: byte)
    requires 0 < |p| <= Frame.MaxPayloadLen && !FromDevice(p)
    ensures Extract(Scan.Ack + Frame.Encode(p).value, cmd) == Some(Frame.Encode(p).value)
  {
    var f := Frame.Encode(p).value;
    var raw := Scan.Ack + f;
    AckPreambles(f);
    assert raw[9] == |p|;
    assert Scan.FindPreamble(raw, 0) == Some(0);
    assert Scan.PreambleAt(raw, 6);
    assert Scan.FindPreamble(raw, 1) == Some(6);
    assert FirstCandidate(raw, 0) == Some(6);
    assert Scan.Candidate(raw, 6) == f;
    UnwrapFrame(p, Responses.ExpectedResponse(cmd));
  }

  /** A frame after a header without zero bytes is returned by the
      single-frame extractor. */
  lemma ExtractAfterHeader(header: seq<byte>, p: seq<byte>, cmd: byte)
    requires forall q :: 0 <= q < |header| ==> header[q] != 0x00
    requires 0 < |p| <= Frame.MaxPayloadLen && !FromDevice(p)
    ensures Extract(header + Frame.Encode(p).value, cmd) == Some(Frame.Encode(p).value)
  {
    var f := Frame.Encode(p).value;
    var raw := header + f;
    assert raw[|header|..] == f;
    assert Scan.PreambleAt(raw, |header|);
    forall q | 0 <= q < |header|
      ensures !Scan.PreambleAt(raw, q)
    {
      assert raw[q] == header[q];
    }
    assert Scan.FindPreamble(raw, 0) == Some(|header|);
    assert raw[|header| + 3] == |p|;
    assert Scan.Candidate(raw, |header|) == f;
    UnwrapFrame(p, Responses.ExpectedResponse(cmd));
  }
}
