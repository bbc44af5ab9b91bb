/** Search helpers shared by the PN533 and RCS956 response extractors:
    preamble and byte search, the 0xD5 fallback, the split into 0xD5
    regions, and the partition of an unframed InListPassiveTarget reply into
    per-target payloads. */
module Scan {
  import opened Bytes
  import opened Errors
  import Frame

  /** First byte of every PN532/PN533/RCS956 device-to-host payload. */
  const DevicePrefix: byte := 0xD5
  /** Response code of InListPassiveTarget (command 0x4A plus one). */
  const InListResponse: byte := 0x4B

  /** The six-byte ACK a PN532-family reader sends ahead of its answer. */
  const Ack: seq<byte> := [0x00, 0x00, 0xFF, 0x00, 0xFF, 0x00]

  /** A frame preamble `00 00 FF` starts at `i`. */
  predicate PreambleAt(raw: seq<byte>, i: nat)
  {
    i + 3 <= |raw| && raw[i] == 0x00 && raw[i + 1] == 0x00 && raw[i + 2] == 0xFF
  }

  /** `raw[from..].windows(3).position(|w| w == PREAMBLE)`, as an absolute index. */
  function FindPreamble(raw: seq<byte>, from: nat): (r: Option<nat>)
    ensures r.Some? ==> from <= r.value && PreambleAt(raw, r.value)
    ensures r.Some? ==> forall q :: from <= q < r.value ==> !PreambleAt(raw, q)
    ensures r.None? ==> forall q :: from <= q ==> !PreambleAt(raw, q)
    decreases |raw| - from
  {
    if from + 3 > |raw| then None
    else if PreambleAt(raw, from) then Some(from)
    else FindPreamble(raw, from + 1)
  }

  /** `s[from..].iter().position(|&x| x == b)`, as an absolute index. */
  function FindByte(s: seq<byte>, from: nat, b: byte): (r: Option<nat>)
    ensures r.Some? ==> from <= r.value < |s| && s[r.value] == b
    ensures r.Some? ==> forall q :: from <= q < r.value ==> s[q] != b
    ensures r.None? ==> forall q :: from <= q < |s| ==> s[q] != b
    decreases |s| - from
  {
    if from >= |s| then None
    else if s[from] == b then Some(from)
    else FindByte(s, from + 1, b)
  }

  /** The suffix of `s` from the first `expectedResponse` at or after
      `from`, framed; `None` when there is no such byte or the suffix is too
      long to frame. */
  function FrameFrom(s: seq<byte>, from: nat, expectedResponse: byte): (r: Option<seq<byte>>)
    ensures r.Some? <==> (FindByte(s, from, expectedResponse).Some?
                          && |s| - FindByte(s, from, expectedResponse).value <= Frame.MaxPayloadLen)
    ensures r.Some? ==> Frame.Encode(s[FindByte(s, from, expectedResponse).value..]) == Ok(r.value)
    ensures r.Some? ==> Frame.ValidFrame(r.value)
  {
    match FindByte(s, from, expectedResponse)
    case Some(idx) =>
      var framed := Frame.Encode(s[idx..]);
      if framed.Ok? then Some(framed.value) else None
    case None => None
  }

  /** The fallback both single-frame extractors share: a reply starting with
      0xD5 is searched from index 3 (past the header and target count) for
      the expected response code, and everything from there is framed. */
  function D5Fallback(raw: seq<byte>, expectedResponse: byte): (r: Option<seq<byte>>)
    ensures r.Some? ==> |raw| > 3 && raw[0] == DevicePrefix && r == FrameFrom(raw, 3, expectedResponse)
    ensures |raw| > 3 && raw[0] == DevicePrefix ==> r == FrameFrom(raw, 3, expectedResponse)
  {
    if |raw| > 0 && raw[0] == DevicePrefix && |raw| > 3 then FrameFrom(raw, 3, expectedResponse)
    else None
  }

  // ---- splitting into 0xD5 regions ----

  /** The first 0xD5 at or after `j`, or the end of `raw`. */
  function NextPrefix(raw: seq<byte>, j: nat): (e: nat)
    requires j <= |raw|
    ensures j <= e <= |raw| && (e < |raw| ==> raw[e] == DevicePrefix)
    ensures forall k :: j <= k < e ==> raw[k] != DevicePrefix
    decreases |raw| - j
  {
    if j == |raw| || raw[j] == DevicePrefix then j else NextPrefix(raw, j + 1)
  }

  /** `NextPrefix` is characterised by its contract. */
  lemma NextPrefixIs(raw: seq<byte>, j: nat, e: nat)
    requires j <= e <= |raw| && (e < |raw| ==> raw[e] == DevicePrefix)
    requires forall k :: j <= k < e ==> raw[k] != DevicePrefix
    ensures NextPrefix(raw, j) == e
  {
  }

  /** The loop of `extract_d5_regions` from index `i`: bytes before the first
      0xD5 are skipped, and each region runs from a 0xD5 up to the next one. */
  function RegionsFrom(raw: seq<byte>, i: nat): seq<seq<byte>>
    requires i <= |raw|
    decreases |raw| - i
  {
    if i == |raw| then []
    else if raw[i] == DevicePrefix then
      var e := NextPrefix(raw, i + 1);
      [raw[i..e]] + RegionsFrom(raw, e)
    else RegionsFrom(raw, i + 1)
  }

  /** `extract_d5_regions`. */
  function D5Regions(raw: seq<byte>): seq<seq<byte>>
  {
    RegionsFrom(raw, 0)
  }

  /** A region: one 0xD5 at its start and none after it. */
  predicate IsRegion(r: seq<byte>)
  {
    |r| > 0 && r[0] == DevicePrefix && forall m :: 1 <= m < |r| ==> r[m] != DevicePrefix
  }

  /** The regions are contiguous, in order, and together cover `raw` from its
      first 0xD5 to the end. */
  lemma {:induction false} RegionsCover(raw: seq<byte>, i: nat)
    requires i <= |raw|
    ensures Concat(RegionsFrom(raw, i)) == raw[NextPrefix(raw, i)..]
    decreases |raw| - i
  {
    if i < |raw| {
      if raw[i] == DevicePrefix {
        var e := NextPrefix(raw, i + 1);
        RegionsCover(raw, e);
        assert NextPrefix(raw, e) == e;
        assert raw[i..] == raw[i..e] + raw[e..];
      } else {
        RegionsCover(raw, i + 1);
      }
    }
  }

  /** Each region starts with 0xD5 and contains no other 0xD5. */
  lemma {:induction false} RegionsAreRegions(raw: seq<byte>, i: nat)
    requires i <= |raw|
    ensures forall k :: 0 <= k < |RegionsFrom(raw, i)| ==> IsRegion(RegionsFrom(raw, i)[k])
    decreases |raw| - i
  {
    if i < |raw| {
      if raw[i] == DevicePrefix {
        var e := NextPrefix(raw, i + 1);
        RegionsAreRegions(raw, e);
        var head := raw[i..e];
        assert IsRegion(head) by {
          forall m | 1 <= m < |head|
            ensures head[m] != DevicePrefix
          {
            assert head[m] == raw[i + m];
          }
        }
        var rs := RegionsFrom(raw, i);
        assert rs == [head] + RegionsFrom(raw, e);
        forall k | 0 <= k < |rs|
          ensures IsRegion(rs[k])
        {
          if k > 0 {
            assert rs[k] == RegionsFrom(raw, e)[k - 1];
          }
        }
      } else {
        RegionsAreRegions(raw, i + 1);
      }
    }
  }

  /** A reply that is one region splits into just itself. */
  lemma SingleRegion(raw: seq<byte>)
    requires IsRegion(raw)
    ensures D5Regions(raw) == [raw]
  {
    NextPrefixIs(raw, 1, |raw|);
    assert RegionsFrom(raw, 0) == [raw[0..|raw|]] + RegionsFrom(raw, |raw|);
    assert raw[0..|raw|] == raw;
  }

  /** Two regions side by side split back into those two regions. */
  lemma PairOfRegions(r1: seq<byte>, r2: seq<byte>)
    requires IsRegion(r1) && IsRegion(r2)
    ensures D5Regions(r1 + r2) == [r1, r2]
  {
    var raw := r1 + r2;
    NextPrefixIs(raw, 1, |r1|);
    NextPrefixIs(raw, |r1| + 1, |raw|);
    assert raw[0..|r1|] == r1 && raw[|r1|..|raw|] == r2;
    assert RegionsFrom(raw, 0) == [r1] + RegionsFrom(raw, |r1|);
    assert RegionsFrom(raw, |r1|) == [r2] + RegionsFrom(raw, |raw|);
  }

  /** The partition laws of `extract_d5_regions` for a whole reply. */
  lemma D5RegionsPartition(raw: seq<byte>)
    ensures Concat(D5Regions(raw)) == raw[NextPrefix(raw, 0)..]
    ensures forall k :: 0 <= k < |D5Regions(raw)| ==> IsRegion(D5Regions(raw)[k])
  {
    RegionsCover(raw, 0);
    RegionsAreRegions(raw, 0);
  }

  // ---- partitioning an unframed InListPassiveTarget reply ----

  /** `usize::saturating_sub`. */
  function SatSub(a: nat, b: nat): (r: nat)
    ensures r == if a >= b then a - b else 0
  {
    if a >= b then a - b else 0
  }

  /** A per-target payload: non-empty, led by the expected response code, and
      short enough to frame. */
  predicate Admissible(part: seq<byte>, expectedResponse: byte)
  {
    |part| > 0 && part[0] == expectedResponse && |part| <= Frame.MaxPayloadLen
  }

  /** The `for len in (1..=max_len).rev()` loop of
      `partition_unframed_targets`, from `len` downwards. */
  function TryLens(rem: seq<byte>, expectedResponse: byte, targets: nat, len: nat): (r: Option<seq<seq<byte>>>)
    requires targets >= 2 && len <= |rem|
    ensures r.Some? ==> |r.value| == targets && 1 <= |r.value[0]| <= len && r.value[0] == rem[..|r.value[0]|]
    ensures r.Some? ==> rem[0] == expectedResponse
    decreases targets, len
  {
    if len == 0 then None
    else
      var candidate := rem[..len];
      if candidate[0] != expectedResponse then TryLens(rem, expectedResponse, targets, len - 1)
      else if Frame.Encode(candidate).Ok? then
        match Partition(rem[len..], expectedResponse, targets - 1)
        case Some(rest) => Some([candidate] + rest)
        case None => TryLens(rem, expectedResponse, targets, len - 1)
      else TryLens(rem, expectedResponse, targets, len - 1)
  }

  /** `partition_unframed_targets`: split `rem` into `targets` payloads,
      trying the longest first part first and backtracking. */
  function Partition(rem: seq<byte>, expectedResponse: byte, targets: nat): (r: Option<seq<seq<byte>>>)
    ensures targets == 0 ==> (r.Some? <==> |rem| == 0)
    ensures targets == 1 ==> (r.Some? <==> Admissible(rem, expectedResponse))
    ensures targets == 1 && r.Some? ==> r.value == [rem]
    ensures r.Some? ==> |r.value| == targets
    ensures targets >= 1 && r.Some? ==> |rem| > 0 && rem[0] == expectedResponse
    decreases targets, |rem| + 1
  {
    if targets == 0 then
      if |rem| == 0 then Some([]) else None
    else if targets == 1 then
      if |rem| > 0 && rem[0] == expectedResponse && Frame.Encode(rem).Ok? then Some([rem]) else None
    else
      TryLens(rem, expectedResponse, targets, SatSub(|rem|, targets - 1))
  }

  /** With two targets, a first-part length whose remainder does not start
      with the expected code is passed over. */
  lemma TryLensSkip(rem: seq<byte>, er: byte, len: nat)
    requires 1 <= len < |rem| && rem[len] != er
    ensures TryLens(rem, er, 2, len) == TryLens(rem, er, 2, len - 1)
  {
    assert rem[len..][0] == rem[len];
  }

  lemma {:induction false} TryLensSkipDown(rem: seq<byte>, er: byte, len: nat, stop: nat)
    requires 1 <= stop <= len < |rem|
    requires forall q :: stop < q <= len ==> rem[q] != er
    ensures TryLens(rem, er, 2, len) == TryLens(rem, er, 2, stop)
    decreases len
  {
    if len > stop {
      TryLensSkip(rem, er, len);
      TryLensSkipDown(rem, er, len - 1, stop);
    }
  }

  /** Two admissible payloads side by side split back into the two, as long
      as the second does not repeat the expected code after its first byte. */
  lemma TwoPartsSplit(t1: seq<byte>, t2: seq<byte>, er: byte)
    requires Admissible(t1, er) && Admissible(t2, er)
    requires forall q :: 1 <= q < |t2| ==> t2[q] != er
    ensures Partition(t1 + t2, er, 2) == Some([t1, t2])
  {
    var rem := t1 + t2;
    var top := |rem| - 1;
    assert Partition(rem, er, 2) == TryLens(rem, er, 2, top) by {
      assert SatSub(|rem|, 1) == top;
    }
    assert rem[..|t1|] == t1 && rem[|t1|..] == t2;
    assert TryLens(rem, er, 2, top) == TryLens(rem, er, 2, |t1|) by {
      if |t2| > 1 {
        forall q | |t1| < q <= top
          ensures rem[q] != er
        {
          assert rem[q] == t2[q - |t1|];
        }
        TryLensSkipDown(rem, er, top, |t1|);
      }
    }
    TryLensTake(rem, er, |t1|);
  }

  /** With two targets, a first part that frames and an admissible rest
      are taken. */
  lemma TryLensTake(rem: seq<byte>, er: byte, len: nat)
    requires 1 <= len <= |rem| && Admissible(rem[..len], er) && Admissible(rem[len..], er)
    ensures TryLens(rem, er, 2, len) == Some([rem[..len], rem[len..]])
  {
    assert Frame.Encode(rem[..len]).Ok?;
    assert Partition(rem[len..], er, 1) == Some([rem[len..]]);
    assert [rem[..len]] + [rem[len..]] == [rem[..len], rem[len..]];
  }

  /** What a successful partition promises. */
  predicate ValidParts(parts: seq<seq<byte>>, rem: seq<byte>, expectedResponse: byte, targets: nat)
  {
    && |parts| == targets
    && Concat(parts) == rem
    && forall k :: 0 <= k < |parts| ==> Admissible(parts[k], expectedResponse)
  }

  lemma ValidPartsCons(part: seq<byte>, rest: seq<seq<byte>>, rem: seq<byte>, er: byte, targets: nat)
    requires targets >= 1 && Admissible(part, er)
    requires |part| <= |rem| && part == rem[..|part|]
    requires ValidParts(rest, rem[|part|..], er, targets - 1)
    ensures ValidParts([part] + rest, rem, er, targets)
  {
    var parts := [part] + rest;
    assert parts[1..] == rest;
    assert rem == part + rem[|part|..];
    forall k | 0 <= k < |parts|
      ensures Admissible(parts[k], er)
    {
      if k > 0 {
        assert parts[k] == rest[k - 1];
      }
    }
  }

  /** Every partition found is a valid one. */
  lemma {:induction false} PartitionSound(rem: seq<byte>, er: byte, targets: nat)
    requires Partition(rem, er, targets).Some?
    ensures ValidParts(Partition(rem, er, targets).value, rem, er, targets)
    decreases targets, |rem| + 1
  {
    if targets == 1 {
      assert Concat([rem]) == rem + Concat([]);
    } else if targets >= 2 {
      TryLensSound(rem, er, targets, SatSub(|rem|, targets - 1));
    }
  }

  lemma {:induction false} TryLensSound(rem: seq<byte>, er: byte, targets: nat, len: nat)
    requires targets >= 2 && len <= |rem|
    requires TryLens(rem, er, targets, len).Some?
    ensures ValidParts(TryLens(rem, er, targets, len).value, rem, er, targets)
    decreases targets, len
  {
    var candidate := rem[..len];
    if candidate[0] == er && Frame.Encode(candidate).Ok? && Partition(rem[len..], er, targets - 1).Some? {
      PartitionSound(rem[len..], er, targets - 1);
      ValidPartsCons(candidate, Partition(rem[len..], er, targets - 1).value, rem, er, targets);
    } else {
      TryLensSound(rem, er, targets, len - 1);
    }
  }

  /** A first-part length the backtracking loop accepts. */
  predicate Splittable(rem: seq<byte>, er: byte, targets: nat, len: nat)
    requires targets >= 1 && len <= |rem|
  {
    len >= 1 && Admissible(rem[..len], er) && Partition(rem[len..], er, targets - 1).Some?
  }

  /** The loop from `len` down finds the longest splittable length at most
      `len`, and fails only when there is none. */
  lemma {:induction false} TryLensLongest(rem: seq<byte>, er: byte, targets: nat, len: nat)
    requires targets >= 2 && len <= |rem|
    ensures TryLens(rem, er, targets, len).Some? <==> exists l :: 1 <= l <= len && Splittable(rem, er, targets, l)
    ensures TryLens(rem, er, targets, len).Some? ==>
      var first := |TryLens(rem, er, targets, len).value[0]|;
      && 1 <= first <= len && Splittable(rem, er, targets, first)
      && TryLens(rem, er, targets, len).value[0] == rem[..first]
      && forall l :: first < l <= len ==> !Splittable(rem, er, targets, l)
    decreases len
  {
    if len > 0 {
      TryLensLongest(rem, er, targets, len - 1);
      if Splittable(rem, er, targets, len) {
        assert TryLens(rem, er, targets, len).value[0] == rem[..len];
      } else {
        assert TryLens(rem, er, targets, len) == TryLens(rem, er, targets, len - 1);
        forall l | 1 <= l <= len && Splittable(rem, er, targets, l)
          ensures l <= len - 1
        {
        }
      }
    }
  }

  /** The first part is the longest admissible prefix whose remainder can be
      split among the other targets. */
  lemma PartitionLongestFirst(rem: seq<byte>, er: byte, targets: nat)
    requires targets >= 2 && Partition(rem, er, targets).Some?
    ensures var first := |Partition(rem, er, targets).value[0]|;
      && first <= |rem| && Splittable(rem, er, targets, first)
      && forall l :: first < l <= SatSub(|rem|, targets - 1) ==> !Splittable(rem, er, targets, l)
  {
    TryLensLongest(rem, er, targets, SatSub(|rem|, targets - 1));
  }

  lemma ConcatLength(parts: seq<seq<byte>>, k: nat)
    requires forall j :: 0 <= j < |parts| ==> |parts[j]| > 0
    requires k <= |parts|
    ensures |Concat(parts[k..])| >= |parts| - k
    decreases |parts| - k
  {
    if k < |parts| {
      ConcatLength(parts, k + 1);
      assert parts[k..] == [parts[k]] + parts[k + 1..];
      ConcatAppend([parts[k]], parts[k + 1..]);
      assert Concat([parts[k]]) == parts[k] + Concat([]);
    }
  }

  /** Whenever some valid partition exists, the search finds one. */
  lemma {:induction false} PartitionComplete(rem: seq<byte>, er: byte, targets: nat, parts: seq<seq<byte>>)
    requires ValidParts(parts, rem, er, targets)
    ensures Partition(rem, er, targets).Some?
    decreases targets
  {
    if targets == 1 {
      assert Concat(parts) == parts[0] + Concat([]);
    } else if targets >= 2 {
      var first := parts[0];
      var l := |first|;
      assert parts == [first] + parts[1..];
      ConcatAppend([first], parts[1..]);
      assert Concat([first]) == first + Concat([]);
      assert rem == first + Concat(parts[1..]);
      ConcatLength(parts, 1);
      assert rem[..l] == first && rem[l..] == Concat(parts[1..]);
      assert ValidParts(parts[1..], rem[l..], er, targets - 1) by {
        forall k | 0 <= k < |parts[1..]|
          ensures Admissible(parts[1..][k], er)
        {
          assert parts[1..][k] == parts[k + 1];
        }
      }
      PartitionComplete(rem[l..], er, targets - 1, parts[1..]);
      assert Splittable(rem, er, targets, l);
      TryLensLongest(rem, er, targets, SatSub(|rem|, targets - 1));
    }
  }

  // ---- frame candidates found by preamble and length byte ----

  /** A preamble at `o` whose length byte is present and whose whole frame,
      seven bytes plus the announced payload, fits in `raw`. */
  predicate CandidateAt(raw: seq<byte>, o: nat)
  {
    PreambleAt(raw, o) && o + 3 < |raw| && o + Frame.MinFrameLen + raw[o + 3] <= |raw|
  }

  /** Where the candidate at `o` ends. */
  function CandidateEnd(raw: seq<byte>, o: nat): nat
    requires o + 3 < |raw|
  {
    o + Frame.MinFrameLen + raw[o + 3]
  }

  /** A byte string that has the outward shape of a frame: a preamble and a
      length byte that accounts for its size. Checksums and postamble are not
      looked at. */
  predicate Shaped(f: seq<byte>)
  {
    |f| >= Frame.MinFrameLen && PreambleAt(f, 0) && |f| == Frame.MinFrameLen + f[3]
  }

  /** The candidate frame at `o`. */
  function Candidate(raw: seq<byte>, o: nat): (f: seq<byte>)
    requires CandidateAt(raw, o)
    ensures Shaped(f) && f[3] == raw[o + 3]
  {
    raw[o..CandidateEnd(raw, o)]
  }

  /** Candidates at `offs` follow one another without overlapping. */
  predicate InOrder(raw: seq<byte>, offs: seq<nat>)
  {
    forall k :: 0 <= k < |offs| - 1 ==> offs[k] + 3 < |raw| && CandidateEnd(raw, offs[k]) <= offs[k + 1]
  }

  /** The candidates at the offsets `offs`, in order; an offset with no
      candidate behind it contributes nothing. */
  function Candidates(raw: seq<byte>, offs: seq<nat>): (r: seq<seq<byte>>)
    ensures |r| <= |offs|
    ensures forall k :: 0 <= k < |r| ==> Shaped(r[k])
  {
    if |offs| == 0 then []
    else if CandidateAt(raw, offs[0]) then [Candidate(raw, offs[0])] + Candidates(raw, offs[1..])
    else Candidates(raw, offs[1..])
  }

  /** At offsets that all hold candidates, `Candidates` lists exactly the
      candidate at each. */
  lemma {:induction false} CandidatesExact(raw: seq<byte>, offs: seq<nat>)
    requires forall k :: 0 <= k < |offs| ==> CandidateAt(raw, offs[k])
    ensures |Candidates(raw, offs)| == |offs|
    ensures forall k :: 0 <= k < |offs| ==> Candidates(raw, offs)[k] == Candidate(raw, offs[k])
  {
    if |offs| > 0 {
      var rest := offs[1..];
      assert forall k :: 0 <= k < |rest| ==> rest[k] == offs[k + 1];
      CandidatesExact(raw, rest);
      var r := Candidates(raw, offs);
      assert r == [Candidate(raw, offs[0])] + Candidates(raw, rest);
      forall k | 0 <= k < |offs|
        ensures r[k] == Candidate(raw, offs[k])
      {
        if k > 0 {
          assert r[k] == Candidates(raw, rest)[k - 1];
        }
      }
    }
  }

  /** Candidates taken at or after `lo` are no longer than what is left of
      `raw` from `lo`. */
  lemma {:induction false} CandidatesWithin(raw: seq<byte>, offs: seq<nat>, lo: nat)
    requires forall k :: 0 <= k < |offs| ==> lo <= offs[k]
    ensures forall k :: 0 <= k < |Candidates(raw, offs)| ==> |Candidates(raw, offs)[k]| + lo <= |raw|
  {
    if |offs| > 0 {
      var rest := offs[1..];
      assert forall k :: 0 <= k < |rest| ==> rest[k] == offs[k + 1];
      CandidatesWithin(raw, rest, lo);
    }
  }

  lemma CandidatesCons(raw: seq<byte>, o: nat, offs: seq<nat>)
    requires CandidateAt(raw, o)
    ensures Candidates(raw, [o] + offs) == [Candidate(raw, o)] + Candidates(raw, offs)
  {
    assert ([o] + offs)[1..] == offs;
  }

  /** A preamble, and the candidate behind it, do not depend on what comes
      before them. */
  lemma PreambleShift(a: seq<byte>, b: seq<byte>, i: nat)
    ensures PreambleAt(a + b, |a| + i) == PreambleAt(b, i)
    ensures i + 3 < |b| ==> (a + b)[|a| + i + 3] == b[i + 3]
  {
    if i + 3 <= |b| {
      assert (a + b)[|a| + i] == b[i] && (a + b)[|a| + i + 1] == b[i + 1] && (a + b)[|a| + i + 2] == b[i + 2];
    }
  }

  lemma CandidateShift(a: seq<byte>, b: seq<byte>, i: nat)
    requires CandidateAt(b, i)
    ensures CandidateAt(a + b, |a| + i)
    ensures CandidateEnd(a + b, |a| + i) == |a| + CandidateEnd(b, i)
    ensures Candidate(a + b, |a| + i) == Candidate(b, i)
  {
    PreambleShift(a, b, i);
  }

  /** Every well-formed frame has the shape the scanners look for. */
  lemma ValidFrameIsShaped(f: seq<byte>)
    requires Frame.ValidFrame(f)
    ensures Shaped(f)
  {
  }

  /** The inner loop over one 0xD5 region, started at a preamble: a frame is
      taken whenever its length byte fits, and the scan resumes at the next
      preamble after it. The source first tests for a preamble right after
      the frame and otherwise searches for one; both find the same index. */
  function EmbeddedOffsets(region: seq<byte>, pos: nat): (offs: seq<nat>)
    requires PreambleAt(region, pos)
    ensures |offs| > 0 <==> CandidateAt(region, pos)
    ensures |offs| > 0 ==> offs[0] == pos
    ensures forall k :: 0 <= k < |offs| ==> pos <= offs[k] && CandidateAt(region, offs[k])
    decreases |region| - pos
  {
    if pos + 3 < |region| && CandidateEnd(region, pos) <= |region| then
      match FindPreamble(region, CandidateEnd(region, pos))
      case Some(next) => [pos] + EmbeddedOffsets(region, next)
      case None => [pos]
    else []
  }

  /** The frames taken from a region follow one another without
      overlapping. */
  lemma {:induction false} EmbeddedInOrder(region: seq<byte>, pos: nat)
    requires PreambleAt(region, pos)
    ensures InOrder(region, EmbeddedOffsets(region, pos))
    decreases |region| - pos
  {
    var offs := EmbeddedOffsets(region, pos);
    if |offs| > 1 {
      var next := FindPreamble(region, CandidateEnd(region, pos)).value;
      EmbeddedInOrder(region, next);
      var rest := EmbeddedOffsets(region, next);
      assert offs == [pos] + rest;
      forall k | 0 <= k < |offs| - 1
        ensures offs[k] + 3 < |region| && CandidateEnd(region, offs[k]) <= offs[k + 1]
      {
        if k > 0 {
          assert offs[k] == rest[k - 1] && offs[k + 1] == rest[k];
        }
      }
    }
  }

  // ---- regions without an embedded frame ----

  /** Each part framed; a part too long to frame is dropped. */
  function EncodeEach(parts: seq<seq<byte>>): (r: seq<seq<byte>>)
    ensures |r| <= |parts|
    ensures forall k :: 0 <= k < |r| ==> Frame.ValidFrame(r[k])
  {
    if |parts| == 0 then []
    else
      var framed := Frame.Encode(parts[0]);
      (if framed.Ok? then [framed.value] else []) + EncodeEach(parts[1..])
  }

  /** Parts short enough to frame are each framed, in order, and nothing is
      dropped. */
  lemma {:induction false} EncodeEachAdmissible(parts: seq<seq<byte>>)
    requires forall k :: 0 <= k < |parts| ==> |parts[k]| <= Frame.MaxPayloadLen
    ensures |EncodeEach(parts)| == |parts|
    ensures forall k :: 0 <= k < |parts| ==> Frame.Decode(EncodeEach(parts)[k]) == Ok(parts[k])
  {
    if |parts| > 0 {
      EncodeEachAdmissible(parts[1..]);
      Frame.RoundTrip(parts[0]);
      var r := EncodeEach(parts);
      assert r == [Frame.Encode(parts[0]).value] + EncodeEach(parts[1..]);
      forall k | 1 <= k < |parts|
        ensures Frame.Decode(r[k]) == Ok(parts[k])
      {
        assert r[k] == EncodeEach(parts[1..])[k - 1];
        assert parts[k] == parts[1..][k - 1];
      }
    }
  }

  /** The last-resort loop: the first suffix from `start` on that can be
      framed. */
  function LastResort(region: seq<byte>, start: nat): (r: seq<seq<byte>>)
    ensures |r| <= 1
    ensures forall k :: 0 <= k < |r| ==> Frame.ValidFrame(r[k])
    decreases |region| - start
  {
    if start >= |region| then []
    else
      var framed := Frame.Encode(region[start..]);
      if framed.Ok? then [framed.value] else LastResort(region, start + 1)
  }

  /** The last resort always frames something when it has a byte to start
      at: the longest frameable suffix, at most 255 bytes, from `start` on. */
  lemma {:induction false} LastResortLongestSuffix(region: seq<byte>, start: nat)
    requires start < |region|
    ensures var from := if |region| - start <= Frame.MaxPayloadLen then start else |region| - Frame.MaxPayloadLen;
      LastResort(region, start) == [Frame.Encode(region[from..]).value]
    decreases |region| - start
  {
    if |region| - start > Frame.MaxPayloadLen {
      LastResortLongestSuffix(region, start + 1);
    }
  }

  /** Steps 2 and 3 of the region loop, for a region in which no embedded
      frame was taken: an InListPassiveTarget reply (`D5 4B NbTg ...`) is
      split among its targets, or else framed from the first expected
      response code after the header; any other region is framed from the
      first expected response code anywhere; failing that, the last resort
      frames a suffix from index 3. */
  function Unframed(region: seq<byte>, expectedResponse: byte): (r: seq<seq<byte>>)
    ensures forall k :: 0 <= k < |r| ==> Frame.ValidFrame(r[k])
  {
    if |region| >= 3 && region[1] == InListResponse then
      var targets := region[2];
      var rem := region[3..];
      var parts := if targets > 0 && |rem| > 0 then Partition(rem, expectedResponse, targets) else None;
      if parts.Some? then EncodeEach(parts.value)
      else
        var tail := if |region| > 3 then FrameFrom(region, 3, expectedResponse) else None;
        if tail.Some? then [tail.value] else LastResort(region, 3)
    else
      var tail := FrameFrom(region, 0, expectedResponse);
      if tail.Some? then [tail.value] else LastResort(region, 3)
  }

  /** An InListPassiveTarget region whose remainder splits among its targets
      yields one frame per target, and the frames carry the whole remainder
      between them. */
  lemma UnframedInListSplit(region: seq<byte>, er: byte)
    requires |region| > 3 && region[1] == InListResponse && region[2] > 0
    requires Partition(region[3..], er, region[2]).Some?
    ensures var parts := Partition(region[3..], er, region[2]).value;
      && |Unframed(region, er)| == region[2]
      && Concat(parts) == region[3..]
      && forall k :: 0 <= k < |parts| ==> Frame.Decode(Unframed(region, er)[k]) == Ok(parts[k])
  {
    var parts := Partition(region[3..], er, region[2]).value;
    PartitionSound(region[3..], er, region[2]);
    EncodeEachAdmissible(parts);
  }

  /** The payloads `ps`, each framed. */
  function Frames(ps: seq<seq<byte>>): (r: seq<seq<byte>>)
    requires forall k :: 0 <= k < |ps| ==> |ps[k]| <= Frame.MaxPayloadLen
    ensures |r| == |ps|
    ensures forall k :: 0 <= k < |ps| ==> Frame.Decode(r[k]) == Ok(ps[k])
  {
    if |ps| == 0 then []
    else
      Frame.RoundTrip(ps[0]);
      [Frame.Encode(ps[0]).value] + Frames(ps[1..])
  }
}
