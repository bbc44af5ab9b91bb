/** FeliCa response payloads (response code followed by fields) and their
    decoders. Every decoder checks the minimum length first, then the
    response code, then the fields, so the first violated check names the
    error; bytes after the decoded fields are ignored unless stated. */
module Responses {
  import opened Bytes
  import opened Errors
  import opened Types
  import opened Parser
  import Commands

  /** `Response`: one variant per decoded command. */
  datatype Response =
    | Polling(idm: Idm, pmm: Pmm, systemCode: SystemCode)
    | ReadWithoutEncryption(idm: Idm, status: (byte, byte), blocks: seq<BlockData>)
    | WriteWithoutEncryption(idm: Idm, statuses: seq<(byte, byte)>)
    | RequestService(idm: Idm, versions: seq<u16>)
    | RequestResponse(idm: Idm, mode: byte)
    | RequestSystemCode(idm: Idm, systemCodes: seq<SystemCode>)
    | SearchServiceCode(idm: Idm, areaOrServiceCode: Option<u16>)

  // ---- the field readers the decoders loop with ----

  /** `n` consecutive 16-byte blocks from `at`, each read with `slice_at`. */
  function BlocksFrom(d: seq<byte>, at: nat, n: nat): (r: Result<seq<BlockData>>)
    ensures r.Ok? <==> n == 0 || at + 16 * n <= |d|
    ensures r.Ok? ==> |r.value| == n
    ensures r.Ok? ==> forall i :: 0 <= i < n ==> r.value[i].bytes == d[at + 16 * i..at + 16 * i + 16]
    decreases n
  {
    if n == 0 then Ok([])
    else
      var s :- SliceAt(d, at, 16);
      var rest :- BlocksFrom(d, at + 16, n - 1);
      Ok([BlockData(s)] + rest)
  }

  /** `n` consecutive little-endian 16-bit values from `at`, each read with
      `le_u16_at`. */
  function U16sFrom(d: seq<byte>, at: nat, n: nat): (r: Result<seq<u16>>)
    ensures r.Ok? <==> n == 0 || at + 2 * n <= |d|
    ensures r.Ok? ==> |r.value| == n
    ensures r.Ok? ==> forall i :: 0 <= i < n ==> ToLe(r.value[i]) == d[at + 2 * i..at + 2 * i + 2]
    decreases n
  {
    if n == 0 then Ok([])
    else
      var v :- LeU16At(d, at);
      var rest :- U16sFrom(d, at + 2, n - 1);
      Ok([v] + rest)
  }

  /** `n` consecutive status pairs from `at`, each byte read with `byte_at`. */
  function PairsFrom(d: seq<byte>, at: nat, n: nat): (r: Result<seq<(byte, byte)>>)
    ensures r.Ok? <==> n == 0 || at + 2 * n <= |d|
    ensures r.Ok? ==> |r.value| == n
    ensures r.Ok? ==> forall i :: 0 <= i < n ==> r.value[i] == (d[at + 2 * i], d[at + 2 * i + 1])
    decreases n
  {
    if n == 0 then Ok([])
    else
      var s1 :- ByteAt(d, at);
      var s2 :- ByteAt(d, at + 1);
      var rest :- PairsFrom(d, at + 2, n - 1);
      Ok([(s1, s2)] + rest)
  }

  /** The index of the first status that is not `(0, 0)`, or the length. */
  function FirstNonZero(st: seq<(byte, byte)>): (r: nat)
    ensures r <= |st|
    ensures forall i :: 0 <= i < r ==> st[i] == (0, 0)
    ensures r < |st| ==> st[r] != (0, 0)
  {
    if |st| == 0 then 0
    else if st[0].0 != 0 || st[0].1 != 0 then 0
    else 1 + FirstNonZero(st[1..])
  }

  // ---- per-command decoders ----

  /** `decode_polling`: response code, IDm, PMm, system code (19 bytes). */
  function DecodePolling(d: seq<byte>): (r: Result<(Idm, Pmm, SystemCode)>)
    ensures r.Ok? <==> |d| >= 19 && d[0] == 0x01
    ensures |d| < 19 ==> r == Err(InvalidLength(19, |d|))
    ensures |d| >= 19 && d[0] != 0x01 ==> r == Err(UnexpectedResponse(0x01, d[0]))
    ensures r.Ok? ==> r.value.0.bytes == d[1..9] && r.value.1.bytes == d[9..17]
    ensures r.Ok? ==> r.value.2.ToLeBytes() == d[17..19]
  {
    var _ :- EnsureLen(d, 19);
    var _ :- ExpectResponseCode(d, 0x01);
    var idm := IdmAt(d, 1).value;
    var pmm := PmmAt(d, 9).value;
    var sys := LeU16At(d, 17).value;
    Ok((idm, pmm, SystemCode(sys)))
  }

  /** `decode_read`: a non-zero status pair is reported before the block
      count is looked at; the block count fixes the length still needed. */
  function DecodeRead(d: seq<byte>): (r: Result<(Idm, (byte, byte), seq<BlockData>)>)
    ensures |d| < 12 ==> r == Err(InvalidLength(12, |d|))
    ensures |d| >= 12 && d[0] != 0x07 ==> r == Err(UnexpectedResponse(0x07, d[0]))
    ensures |d| >= 12 && d[0] == 0x07 && (d[9] != 0 || d[10] != 0) ==> r == Err(FelicaStatus(d[9], d[10]))
    ensures r.Ok? <==> |d| >= 12 && d[0] == 0x07 && d[9] == 0 && d[10] == 0 && |d| >= 12 + 16 * d[11] as int
    ensures |d| >= 12 && d[0] == 0x07 && d[9] == 0 && d[10] == 0 && |d| < 12 + 16 * d[11] as int
         ==> r == Err(InvalidLength(12 + 16 * d[11] as int, |d|))
    ensures r.Ok? ==> r.value.0.bytes == d[1..9] && r.value.1 == (0, 0) && |r.value.2| == d[11]
    ensures r.Ok? ==> forall i :: 0 <= i < |r.value.2| ==> r.value.2[i].bytes == d[12 + 16 * i..28 + 16 * i]
  {
    var _ :- EnsureLen(d, 12);
    var _ :- ExpectResponseCode(d, 0x07);
    var idm := IdmAt(d, 1).value;
    var status1 := ByteAt(d, 9).value;
    var status2 := ByteAt(d, 10).value;
    if status1 != 0 || status2 != 0 then Err(FelicaStatus(status1, status2))
    else
      var count := ByteAt(d, 11).value;
      var _ :- EnsureLen(d, 12 + 16 * count as int);
      var blocks := BlocksFrom(d, 12, count).value;
      Ok((idm, (status1, status2), blocks))
  }

  /** The shape `decode_write` accepts before it looks at the statuses:
      at least one status pair and a whole number of them. */
  predicate WriteShape(d: seq<byte>)
  {
    |d| >= 11 && d[0] == 0x09 && (|d| - 9) % 2 == 0
  }

  /** The status pairs of a write response of the accepted shape. */
  function WriteStatuses(d: seq<byte>): (r: seq<(byte, byte)>)
    requires WriteShape(d)
    ensures |r| == (|d| - 9) / 2 >= 1
    ensures forall i :: 0 <= i < |r| ==> r[i] == (d[9 + 2 * i], d[10 + 2 * i])
  {
    seq((|d| - 9) / 2, i requires 0 <= i < (|d| - 9) / 2 => (d[9 + 2 * i], d[10 + 2 * i]))
  }

  /** `decode_write`: every byte after the IDm is a status byte. A single
      non-zero status is a `FelicaStatus`; among several, the first non-zero
      one is a `FelicaBlockStatus` carrying its index. */
  function DecodeWrite(d: seq<byte>): (r: Result<(Idm, seq<(byte, byte)>)>)
    ensures |d| < 11 ==> r == Err(InvalidLength(11, |d|))
    ensures |d| >= 11 && d[0] != 0x09 ==> r == Err(UnexpectedResponse(0x09, d[0]))
    ensures |d| >= 11 && d[0] == 0x09 && (|d| - 9) % 2 != 0 ==> r == Err(InvalidLength(11, |d|))
    ensures r.Ok? <==> WriteShape(d) && forall i :: 0 <= i < |WriteStatuses(d)| ==> WriteStatuses(d)[i] == (0, 0)
    ensures r.Ok? ==> r.value.0.bytes == d[1..9] && r.value.1 == WriteStatuses(d)
    ensures WriteShape(d) && |d| == 11 && r.Err? ==> r == Err(FelicaStatus(d[9], d[10]))
    ensures WriteShape(d) && |d| > 11 && r.Err? ==>
      && r.error.FelicaBlockStatus?
      && var k := r.error.index;
      && k < |WriteStatuses(d)|
      && WriteStatuses(d)[k] == (r.error.status1, r.error.status2) != (0, 0)
      && forall j :: 0 <= j < k ==> WriteStatuses(d)[j] == (0, 0)
  {
    var _ :- EnsureLen(d, 11);
    var _ :- ExpectResponseCode(d, 0x09);
    var idm := IdmAt(d, 1).value;
    var remaining := |d| - 9;
    if remaining < 2 || remaining % 2 != 0 then Err(InvalidLength(11, |d|))
    else
      var statuses := PairsFrom(d, 9, remaining / 2).value;
      assert statuses == WriteStatuses(d);
      var k := FirstNonZero(statuses);
      if k == |statuses| then Ok((idm, statuses))
      else if |statuses| == 1 then Err(FelicaStatus(statuses[k].0, statuses[k].1))
      else Err(FelicaBlockStatus(k, statuses[k].0, statuses[k].1))
  }

  /** `decode_request_service`: a count byte, then that many versions. */
  function DecodeRequestService(d: seq<byte>): (r: Result<(Idm, seq<u16>)>)
    ensures |d| < 10 ==> r == Err(InvalidLength(10, |d|))
    ensures |d| >= 10 && d[0] != 0x03 ==> r == Err(UnexpectedResponse(0x03, d[0]))
    ensures r.Ok? <==> |d| >= 10 && d[0] == 0x03 && |d| >= 10 + 2 * d[9] as int
    ensures |d| >= 10 && d[0] == 0x03 && |d| < 10 + 2 * d[9] as int
         ==> r == Err(InvalidLength(10 + 2 * d[9] as int, |d|))
    ensures r.Ok? ==> r.value.0.bytes == d[1..9] && |r.value.1| == d[9]
    ensures r.Ok? ==> forall i :: 0 <= i < |r.value.1| ==> ToLe(r.value.1[i]) == d[10 + 2 * i..12 + 2 * i]
  {
    var _ :- EnsureLen(d, 10);
    var _ :- ExpectResponseCode(d, 0x03);
    var idm := IdmAt(d, 1).value;
    var count := ByteAt(d, 9).value;
    var _ :- EnsureLen(d, 10 + 2 * count as int);
    var versions := U16sFrom(d, 10, count).value;
    Ok((idm, versions))
  }

  /** `decode_request_response`: the mode byte follows the IDm. */
  function DecodeRequestResponse(d: seq<byte>): (r: Result<(Idm, byte)>)
    ensures r.Ok? <==> |d| >= 10 && d[0] == 0x05
    ensures |d| < 10 ==> r == Err(InvalidLength(10, |d|))
    ensures |d| >= 10 && d[0] != 0x05 ==> r == Err(UnexpectedResponse(0x05, d[0]))
    ensures r.Ok? ==> r.value.0.bytes == d[1..9] && r.value.1 == d[9]
  {
    var _ :- EnsureLen(d, 10);
    var _ :- ExpectResponseCode(d, 0x05);
    var idm := IdmAt(d, 1).value;
    var mode := ByteAt(d, 9).value;
    Ok((idm, mode))
  }

  /** `decode_request_system_code`: a count byte, then that many codes. */
  function DecodeRequestSystemCode(d: seq<byte>): (r: Result<(Idm, seq<SystemCode>)>)
    ensures |d| < 10 ==> r == Err(InvalidLength(10, |d|))
    ensures |d| >= 10 && d[0] != 0x0D ==> r == Err(UnexpectedResponse(0x0D, d[0]))
    ensures r.Ok? <==> |d| >= 10 && d[0] == 0x0D && |d| >= 10 + 2 * d[9] as int
    ensures |d| >= 10 && d[0] == 0x0D && |d| < 10 + 2 * d[9] as int
         ==> r == Err(InvalidLength(10 + 2 * d[9] as int, |d|))
    ensures r.Ok? ==> r.value.0.bytes == d[1..9] && |r.value.1| == d[9]
    ensures r.Ok? ==> forall i :: 0 <= i < |r.value.1| ==> r.value.1[i].ToLeBytes() == d[10 + 2 * i..12 + 2 * i]
  {
    var _ :- EnsureLen(d, 10);
    var _ :- ExpectResponseCode(d, 0x0D);
    var idm := IdmAt(d, 1).value;
    var count := ByteAt(d, 9).value;
    var _ :- EnsureLen(d, 10 + 2 * count as int);
    var codes := U16sFrom(d, 10, count).value;
    Ok((idm, seq(|codes|, i requires 0 <= i < |codes| => SystemCode(codes[i]))))
  }

  /** `decode_search_service_code`: a zero presence flag means no code,
      whatever follows; any other flag needs the two code bytes. */
  function DecodeSearchServiceCode(d: seq<byte>): (r: Result<(Idm, Option<u16>)>)
    ensures |d| < 10 ==> r == Err(InvalidLength(10, |d|))
    ensures |d| >= 10 && d[0] != 0x0B ==> r == Err(UnexpectedResponse(0x0B, d[0]))
    ensures r.Ok? <==> |d| >= 10 && d[0] == 0x0B && (d[9] == 0 || |d| >= 12)
    ensures |d| >= 10 && d[0] == 0x0B && d[9] != 0 && |d| < 12 ==> r == Err(InvalidLength(12, |d|))
    ensures r.Ok? ==> r.value.0.bytes == d[1..9] && (r.value.1.None? <==> d[9] == 0)
    ensures r.Ok? && r.value.1.Some? ==> ToLe(r.value.1.value) == d[10..12]
  {
    var _ :- EnsureLen(d, 10);
    var _ :- ExpectResponseCode(d, 0x0B);
    var idm := IdmAt(d, 1).value;
    var flag := ByteAt(d, 9).value;
    if flag == 0 then Ok((idm, None))
    else
      var _ :- EnsureLen(d, 12);
      var code := LeU16At(d, 10).value;
      Ok((idm, Some(code)))
  }

  // ---- dispatch on the expected command ----

  /** `Response::response_code`: the code each variant answers with. */
  function ResponseCode(r: Response): (c: byte)
    ensures c % 2 == 1 && c <= 0x0D
  {
    match r
    case Polling(_, _, _) => 0x01
    case ReadWithoutEncryption(_, _, _) => 0x07
    case WriteWithoutEncryption(_, _) => 0x09
    case RequestService(_, _) => 0x03
    case RequestResponse(_, _) => 0x05
    case RequestSystemCode(_, _) => 0x0D
    case SearchServiceCode(_, _) => 0x0B
  }

  /** The command codes `Response::decode` has a decoder for. */
  predicate KnownCommand(cmd: byte)
  {
    cmd == 0x00 || cmd == 0x06 || cmd == 0x08 || cmd == 0x02
      || cmd == 0x04 || cmd == 0x0C || cmd == 0x0A
  }

  /** The dispatch arms of `Response::decode` for the known codes. */
  function DecodeKnown(cmd: byte, d: seq<byte>): (r: Result<Response>)
    requires KnownCommand(cmd)
    ensures r.Ok? ==> ResponseCode(r.value) == cmd + 1
  {
    match cmd
    case 0x00 =>
      var v :- DecodePolling(d);
      Ok(Polling(v.0, v.1, v.2))
    case 0x06 =>
      var v :- DecodeRead(d);
      Ok(ReadWithoutEncryption(v.0, v.1, v.2))
    case 0x08 =>
      var v :- DecodeWrite(d);
      Ok(WriteWithoutEncryption(v.0, v.1))
    case 0x02 =>
      var v :- DecodeRequestService(d);
      Ok(RequestService(v.0, v.1))
    case 0x04 =>
      var v :- DecodeRequestResponse(d);
      Ok(RequestResponse(v.0, v.1))
    case 0x0C =>
      var v :- DecodeRequestSystemCode(d);
      Ok(RequestSystemCode(v.0, v.1))
    case 0x0A =>
      var v :- DecodeSearchServiceCode(d);
      Ok(SearchServiceCode(v.0, v.1))
  }

  /** The response code expected for a command: `expected_cmd.wrapping_add(1)`. */
  function ExpectedResponse(cmd: byte): byte
  {
    (cmd + 1) % 0x100
  }

  /** `Response::decode`, with the error of the fall-through arm computed from
      the wrapped response code (see `DecodeAsWritten` for the code as
      written). The payload must be non-empty and start with the expected
      response code before any per-command decoder runs. */
  function Decode(cmd: byte, d: seq<byte>): (r: Result<Response>)
    ensures |d| == 0 ==> r == Err(InvalidLength(1, 0))
    ensures |d| > 0 && d[0] != ExpectedResponse(cmd) ==> r == Err(UnexpectedResponse(ExpectedResponse(cmd), d[0]))
    ensures r.Ok? ==> KnownCommand(cmd) && ResponseCode(r.value) == ExpectedResponse(cmd) == cmd + 1
    ensures !KnownCommand(cmd) && |d| > 0 ==> r == Err(UnexpectedResponse(ExpectedResponse(cmd), d[0]))
    ensures r.Err? && r.error.UnexpectedResponse? ==> 0 <= r.error.expected < 0x100
  {
    var _ :- EnsureLen(d, 1);
    var expectedResponse := ExpectedResponse(cmd);
    var _ :- ExpectResponseCode(d, expectedResponse);
    if KnownCommand(cmd) then DecodeKnown(cmd, d)
    else Err(UnexpectedResponse(expectedResponse, d[0]))
  }

  /** What a call of the code as written can do: return, or stop on an
      arithmetic overflow (a panic in a debug build). */
  datatype Outcome = Returned(result: Result<Response>) | Overflow

  /** `u8 + u8` in a debug build: `None` when the sum overflows. */
  function CheckedAddU8(a: byte, b: byte): (r: Option<byte>)
    ensures r.Some? <==> a as int + b as int < 0x100
    ensures r.Some? ==> r.value == a + b
  {
    if a as int + b as int < 0x100 then Some(a + b) else None
  }

  /** `Response::decode` as written: the fall-through arm builds its error
      with an unchecked `expected_cmd + 1`. */
  function DecodeAsWritten(cmd: byte, d: seq<byte>): Outcome
  {
    var pre := EnsureLen(d, 1);
    if pre.Err? then Returned(Err(pre.error))
    else
      var check := ExpectResponseCode(d, ExpectedResponse(cmd));
      if check.Err? then Returned(Err(check.error))
      else if KnownCommand(cmd) then Returned(DecodeKnown(cmd, d))
      else
        match CheckedAddU8(cmd, 1)
        case None => Overflow
        case Some(expected) => Returned(Err(UnexpectedResponse(expected, d[0])))
  }

  /** The code as written stops exactly for command 0xFF with a payload whose
      first byte is the wrapped response code 0x00; otherwise it agrees with
      `Decode`. */
  lemma DecodeAsWrittenOverflows(cmd: byte, d: seq<byte>)
    ensures DecodeAsWritten(cmd, d).Overflow? <==> cmd == 0xFF && |d| > 0 && d[0] == 0x00
    ensures !DecodeAsWritten(cmd, d).Overflow? ==> DecodeAsWritten(cmd, d) == Returned(Decode(cmd, d))
  {
  }

  /** The concrete input: command 0xFF, payload `[00]`. */
  lemma OverflowWitness()
    ensures DecodeAsWritten(0xFF, [0x00]) == Overflow
    ensures Decode(0xFF, [0x00]) == Err(UnexpectedResponse(0x00, 0x00))
  {
  }

  // ---- the card side: response payloads, the inverse of decoding ----

  /** Status pairs laid out byte by byte. */
  function StatusBytes(st: seq<(byte, byte)>): (r: seq<byte>)
    ensures |r| == 2 * |st|
  {
    if |st| == 0 then [] else [st[0].0, st[0].1] + StatusBytes(st[1..])
  }

  lemma {:induction false} StatusBytesSlice(st: seq<(byte, byte)>, i: nat)
    requires i < |st|
    ensures StatusBytes(st)[2 * i..2 * i + 2] == [st[i].0, st[i].1]
  {
    if i > 0 {
      StatusBytesSlice(st[1..], i - 1);
      assert StatusBytes(st)[2 * i..2 * i + 2] == StatusBytes(st[1..])[2 * (i - 1)..2 * (i - 1) + 2];
    }
  }

  lemma {:induction false} StatusBytesOfSlices(st: seq<(byte, byte)>, b: seq<byte>, at: nat)
    requires at + 2 * |st| <= |b|
    requires forall i :: 0 <= i < |st| ==> st[i] == (b[at + 2 * i], b[at + 2 * i + 1])
    ensures StatusBytes(st) == b[at..at + 2 * |st|]
    decreases |st|
  {
    if |st| > 0 {
      forall i | 0 <= i < |st| - 1
        ensures st[1..][i] == (b[at + 2 + 2 * i], b[at + 2 + 2 * i + 1])
      {
        assert st[1..][i] == st[i + 1];
      }
      StatusBytesOfSlices(st[1..], b, at + 2);
      assert b[at..at + 2 * |st|] == [b[at], b[at + 1]] + b[at + 2..at + 2 + 2 * (|st| - 1)];
    }
  }

  lemma {:induction false} DataListOfSlices(data: seq<BlockData>, b: seq<byte>, at: nat)
    requires at + 16 * |data| <= |b|
    requires forall i :: 0 <= i < |data| ==> data[i].bytes == b[at + 16 * i..at + 16 * i + 16]
    ensures Commands.DataList(data) == b[at..at + 16 * |data|]
    decreases |data|
  {
    if |data| > 0 {
      forall i | 0 <= i < |data| - 1
        ensures data[1..][i].bytes == b[at + 16 + 16 * i..at + 16 + 16 * i + 16]
      {
        assert data[1..][i] == data[i + 1];
      }
      DataListOfSlices(data[1..], b, at + 16);
      assert b[at..at + 16 * |data|] == b[at..at + 16] + b[at + 16..at + 16 + 16 * (|data| - 1)];
    }
  }

  /** The raw values of a list of system codes. */
  function CodeValues(codes: seq<SystemCode>): (r: seq<u16>)
    ensures |r| == |codes|
  {
    seq(|codes|, i requires 0 <= i < |codes| => codes[i].code)
  }

  /** The responses a card can send that decode successfully: all statuses
      zero, at least one write status, and counts that fit their byte. */
  predicate WellFormed(r: Response)
  {
    match r
    case ReadWithoutEncryption(_, status, blocks) => status == (0, 0) && |blocks| < 0x100
    case WriteWithoutEncryption(_, statuses) =>
      |statuses| >= 1 && forall i :: 0 <= i < |statuses| ==> statuses[i] == (0, 0)
    case RequestService(_, versions) => |versions| < 0x100
    case RequestSystemCode(_, codes) => |codes| < 0x100
    case _ => true
  }

  /** The payload a card sends for a response, in the layouts the decoders
      read; a present search result carries the presence flag 1. */
  function Payload(r: Response): (p: seq<byte>)
    requires WellFormed(r)
    ensures |p| >= 10 && p[0] == ResponseCode(r) && p[1..9] == r.idm.bytes
  {
    var fields :=
      match r
      case Polling(_, pmm, sc) => pmm.bytes + sc.ToLeBytes()
      case ReadWithoutEncryption(_, _, blocks) => [0, 0, |blocks|] + Commands.DataList(blocks)
      case WriteWithoutEncryption(_, statuses) => StatusBytes(statuses)
      case RequestService(_, versions) => [|versions|] + LeList(versions)
      case RequestResponse(_, mode) => [mode]
      case RequestSystemCode(_, codes) => [|codes|] + LeList(CodeValues(codes))
      case SearchServiceCode(_, code) => if code.None? then [0] else [1] + ToLe(code.value);
    [ResponseCode(r)] + r.idm.bytes + fields
  }

  /** The command a response answers. */
  function CommandOf(r: Response): (cmd: byte)
    ensures KnownCommand(cmd) && ExpectedResponse(cmd) == ResponseCode(r)
  {
    ResponseCode(r) - 1
  }

  lemma IdmFromBytes(a: Idm, b: Idm)
    requires a.bytes == b.bytes
    ensures a == b
  {
  }

  lemma DecodePollingPayload(r: Response, extra: seq<byte>)
    requires r.Polling?
    ensures Decode(0x00, Payload(r) + extra) == Ok(r)
  {
    var d := Payload(r) + extra;
    assert d[1..9] == r.idm.bytes && d[9..17] == r.pmm.bytes && d[17..19] == r.systemCode.ToLeBytes();
    var v := DecodePolling(d).value;
    ToLeInjective(v.2.code, r.systemCode.code);
  }

  lemma DecodeReadPayload(r: Response, extra: seq<byte>)
    requires r.ReadWithoutEncryption? && WellFormed(r)
    ensures Decode(0x06, Payload(r) + extra) == Ok(r)
  {
    var d := Payload(r) + extra;
    var n := |r.blocks|;
    assert d[9] == 0 && d[10] == 0 && d[11] == n;
    assert d[1..9] == r.idm.bytes;
    assert d[12..12 + 16 * n] == Commands.DataList(r.blocks);
    var v := DecodeRead(d).value;
    forall i | 0 <= i < n
      ensures v.2[i] == r.blocks[i]
    {
      Commands.DataListLayout(r.blocks, i);
      assert d[12 + 16 * i..28 + 16 * i] == Commands.DataList(r.blocks)[16 * i..16 * i + 16];
    }
    assert v.2 == r.blocks;
    assert DecodeKnown(0x06, d) == Ok(ReadWithoutEncryption(v.0, v.1, v.2));
  }

  lemma DecodeWritePayload(r: Response)
    requires r.WriteWithoutEncryption? && WellFormed(r)
    ensures Decode(0x08, Payload(r)) == Ok(r)
  {
    var d := Payload(r);
    assert d[1..9] == r.idm.bytes;
    assert d[9..] == StatusBytes(r.statuses);
    assert WriteShape(d);
    forall i | 0 <= i < |r.statuses|
      ensures WriteStatuses(d)[i] == r.statuses[i]
    {
      StatusBytesSlice(r.statuses, i);
      assert d[9 + 2 * i..11 + 2 * i] == StatusBytes(r.statuses)[2 * i..2 * i + 2];
    }
    assert WriteStatuses(d) == r.statuses;
  }

  lemma DecodeRequestServicePayload(r: Response, extra: seq<byte>)
    requires r.RequestService? && WellFormed(r)
    ensures Decode(0x02, Payload(r) + extra) == Ok(r)
  {
    var d := Payload(r) + extra;
    var n := |r.versions|;
    assert d[1..9] == r.idm.bytes && d[9] == n;
    assert d[10..10 + 2 * n] == LeList(r.versions);
    var v := DecodeRequestService(d).value;
    forall i | 0 <= i < n
      ensures v.1[i] == r.versions[i]
    {
      LeListSlice(r.versions, i);
      assert d[10 + 2 * i..12 + 2 * i] == LeList(r.versions)[2 * i..2 * i + 2];
      ToLeInjective(v.1[i], r.versions[i]);
    }
    assert v.1 == r.versions;
    assert DecodeKnown(0x02, d) == Ok(RequestService(v.0, v.1));
  }

  lemma DecodeRequestSystemCodePayload(r: Response, extra: seq<byte>)
    requires r.RequestSystemCode? && WellFormed(r)
    ensures Decode(0x0C, Payload(r) + extra) == Ok(r)
  {
    var d := Payload(r) + extra;
    var n := |r.systemCodes|;
    var vs := CodeValues(r.systemCodes);
    assert d[1..9] == r.idm.bytes && d[9] == n;
    assert d[10..10 + 2 * n] == LeList(vs);
    var v := DecodeRequestSystemCode(d).value;
    forall i | 0 <= i < n
      ensures v.1[i] == r.systemCodes[i]
    {
      LeListSlice(vs, i);
      assert d[10 + 2 * i..12 + 2 * i] == LeList(vs)[2 * i..2 * i + 2];
      ToLeInjective(v.1[i].code, r.systemCodes[i].code);
    }
    assert v.1 == r.systemCodes;
    assert DecodeKnown(0x0C, d) == Ok(RequestSystemCode(v.0, v.1));
  }

  /** Decoding a card's payload for the command it answers gives the
      response back; bytes after the fields do not matter, except for a
      write response, where every trailing byte is a status byte. */
  lemma DecodePayloadRoundTrip(r: Response, extra: seq<byte>)
    requires WellFormed(r)
    requires r.WriteWithoutEncryption? ==> extra == []
    ensures Decode(CommandOf(r), Payload(r) + extra) == Ok(r)
  {
    match r
    case Polling(_, _, _) => DecodePollingPayload(r, extra);
    case ReadWithoutEncryption(_, _, _) => DecodeReadPayload(r, extra);
    case WriteWithoutEncryption(_, _) =>
      assert Payload(r) + extra == Payload(r);
      DecodeWritePayload(r);
    case RequestService(_, _) => DecodeRequestServicePayload(r, extra);
    case RequestResponse(_, _) =>
      assert (Payload(r) + extra)[1..9] == r.idm.bytes;
    case RequestSystemCode(_, _) => DecodeRequestSystemCodePayload(r, extra);
    case SearchServiceCode(_, code) =>
      var d := Payload(r) + extra;
      assert d[1..9] == r.idm.bytes;
      if code.Some? {
        assert d[10..12] == ToLe(code.value);
        ToLeInjective(DecodeSearchServiceCode(d).value.1.value, code.value);
      }
  }

  /** The response decoded from `d` for `cmd`, when decoding succeeds. */
  predicate ReadsBack(cmd: byte, d: seq<byte>)
    requires Decode(cmd, d).Ok?
  {
    var v := Decode(cmd, d).value;
    WellFormed(v) && |Payload(v)| <= |d| && Payload(v) == d[..|Payload(v)|]
  }

  lemma PollingReadsBack(d: seq<byte>)
    requires Decode(0x00, d).Ok?
    ensures ReadsBack(0x00, d)
  {
    assert d[..19] == [d[0]] + d[1..9] + d[9..17] + d[17..19];
  }

  lemma ReadReadsBack(d: seq<byte>)
    requires Decode(0x06, d).Ok?
    ensures ReadsBack(0x06, d)
  {
    var v := Decode(0x06, d).value;
    var n := |v.blocks|;
    DataListOfSlices(v.blocks, d, 12);
    assert d[..12 + 16 * n] == [d[0]] + d[1..9] + [d[9], d[10], d[11]] + d[12..12 + 16 * n];
  }

  lemma WriteReadsBack(d: seq<byte>)
    requires Decode(0x08, d).Ok?
    ensures ReadsBack(0x08, d) && Payload(Decode(0x08, d).value) == d
  {
    var v := Decode(0x08, d).value;
    var n := |v.statuses|;
    StatusBytesOfSlices(v.statuses, d, 9);
    assert d == [d[0]] + d[1..9] + d[9..9 + 2 * n];
  }

  lemma RequestServiceReadsBack(d: seq<byte>)
    requires Decode(0x02, d).Ok?
    ensures ReadsBack(0x02, d)
  {
    var v := Decode(0x02, d).value;
    var n := |v.versions|;
    LeListOfSlices(v.versions, d, 10);
    assert d[..10 + 2 * n] == [d[0]] + d[1..9] + [d[9]] + d[10..10 + 2 * n];
  }

  lemma RequestSystemCodeReadsBack(d: seq<byte>)
    requires Decode(0x0C, d).Ok?
    ensures ReadsBack(0x0C, d)
  {
    var v := Decode(0x0C, d).value;
    var n := |v.systemCodes|;
    var vs := CodeValues(v.systemCodes);
    assert LeList(vs) == d[10..10 + 2 * n] by {
      forall i | 0 <= i < n
        ensures ToLe(vs[i]) == d[10 + 2 * i..10 + 2 * i + 2]
      {
        assert ToLe(vs[i]) == v.systemCodes[i].ToLeBytes();
      }
      LeListOfSlices(vs, d, 10);
    }
    assert Payload(v) == [d[0]] + d[1..9] + ([d[9]] + d[10..10 + 2 * n]);
    assert d[..10 + 2 * n] == [d[0]] + d[1..9] + ([d[9]] + d[10..10 + 2 * n]);
  }

  lemma SearchReadsBack(d: seq<byte>)
    requires Decode(0x0A, d).Ok? && |d| > 9 && d[9] <= 1
    ensures ReadsBack(0x0A, d)
  {
    if d[9] == 0 {
      assert d[..10] == [d[0]] + d[1..9] + [d[9]];
    } else {
      assert d[..12] == [d[0]] + d[1..9] + [d[9]] + d[10..12];
    }
  }

  /** Reading a decoded response back out as a payload gives the bytes it was
      decoded from (for a search result, when the presence flag is 0 or 1);
      a write response accounts for every byte. */
  lemma PayloadOfDecoded(cmd: byte, d: seq<byte>)
    requires Decode(cmd, d).Ok?
    requires cmd == 0x0A && |d| > 9 ==> d[9] <= 1
    ensures ReadsBack(cmd, d)
    ensures cmd == 0x08 ==> Payload(Decode(cmd, d).value) == d
  {
    if cmd == 0x00 { PollingReadsBack(d); }
    else if cmd == 0x06 { ReadReadsBack(d); }
    else if cmd == 0x08 { WriteReadsBack(d); }
    else if cmd == 0x02 { RequestServiceReadsBack(d); }
    else if cmd == 0x04 { assert d[..10] == [d[0]] + d[1..9] + [d[9]]; }
    else if cmd == 0x0C { RequestSystemCodeReadsBack(d); }
    else { SearchReadsBack(d); }
  }

  const PollingIdm: seq<byte> := [1, 2, 3, 4, 5, 6, 7, 8]
  const PollingPmm: seq<byte> := [9, 10, 11, 12, 13, 14, 15, 16]

  /** Unit-test vector: a framed polling answer decodes field by field. */
  lemma PollingResponseVector()
    ensures Decode(0x00, [0x01] + PollingIdm + PollingPmm + [0x0B, 0x0A])
         == Ok(Polling(Idm(PollingIdm), Pmm(PollingPmm), SystemCode(0x0A0B)))
  {
    var r := Polling(Idm(PollingIdm), Pmm(PollingPmm), SystemCode(0x0A0B));
    assert Payload(r) + [] == [0x01] + PollingIdm + PollingPmm + [0x0B, 0x0A] by {
      assert SystemCode(0x0A0B).ToLeBytes() == [0x0B, 0x0A];
    }
    DecodePollingPayload(r, []);
  }

  /** A short payload with the wrong code: the per-command decoder reports the
      length, `Decode` the code, because it checks the code first. */
  lemma ShortPollingVector()
    ensures DecodePolling([0x00]) == Err(InvalidLength(19, 1))
    ensures Decode(0x00, [0x00]) == Err(UnexpectedResponse(0x01, 0x00))
  {
  }

  /** Unit-test vectors of the status and response-code errors. */
  lemma StatusVectors()
    ensures DecodeRead([0x07, 1, 2, 3, 4, 5, 6, 7, 8, 0xA4, 0x00, 0x00]) == Err(FelicaStatus(0xA4, 0x00))
    ensures DecodeWrite([0x09, 1, 2, 3, 4, 5, 6, 7, 8, 0xA4, 0x00]) == Err(FelicaStatus(0xA4, 0x00))
    ensures DecodeRequestService([0x00, 1, 2, 3, 4, 5, 6, 7, 8, 0]) == Err(UnexpectedResponse(0x03, 0x00))
  {
  }

  /** Among several write statuses, the first non-zero one is reported with
      its index. */
  lemma BlockStatusVector()
    ensures DecodeWrite([0x09, 1, 2, 3, 4, 5, 6, 7, 8, 0x00, 0x00, 0xA4, 0x01]) == Err(FelicaBlockStatus(1, 0xA4, 0x01))
  {
    var w: seq<byte> := [0x09, 1, 2, 3, 4, 5, 6, 7, 8, 0x00, 0x00, 0xA4, 0x01];
    assert WriteShape(w) && WriteStatuses(w)[0] == (0, 0) && WriteStatuses(w)[1] == (0xA4, 0x01);
  }
}
