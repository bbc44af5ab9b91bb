/** The FeliCa operations on a detected card: reading and writing blocks,
    the three request commands, and the iterator over the card's service
    codes. Each operation builds one command and hands it to the device;
    the device's `execute` (framing, transport and decoding) is the
    parameter `exec`, a function from the command to the decoded response
    or error. An operation reports the command it handed over, if any, with
    its result. */
module CardOperations {
  import opened Bytes
  import opened Errors
  import opened Types
  import opened Cards
  import Commands
  import Responses

  /** What the device is asked to do: execute a command and return the
      decoded response. */
  type Executor = Commands.Command -> Result<Responses.Response>

  /** The command an operation handed to the device, if any, and its
      result. */
  datatype Exchange<+T> = Exchange(sent: Option<Commands.Command>, result: Result<T>)

  const NoIdmMessage: string := "Card does not have IDm (not a FeliCa card)"
  const NotFelicaMessage: string := "operation is only supported for FeliCa (Type F) cards"

  const RequestServiceRsp: byte := 0x03
  const RequestResponseRsp: byte := 0x05
  const RequestSystemRsp: byte := 0x0D
  const SearchServiceRsp: byte := 0x0B

  /** The element `read_single` and the card's `write_single` address: the
      first service, direct access, the given block number. */
  function SingleElement(block: u16): (e: BlockElement)
    ensures e.serviceIndex == 0 && e.accessMode == DirectAccessOrRead && e.blockNumber == block
  {
    BlockElement(0, DirectAccessOrRead, block)
  }

  // ---- read.rs ----

  /** `read_blocks`: a card without IDm is refused before anything is sent;
      otherwise one ReadWithoutEncryption for the card's IDm and the given
      services and blocks, unchanged. A read response gives its blocks, any
      other response is `PollingFailed`, and a device error is passed on. */
  function ReadBlocks(card: Card, services: seq<ServiceCode>, blocks: seq<BlockElement>, exec: Executor): (r: Exchange<seq<BlockData>>)
    ensures r.sent.Some? <==> IdmOf(card).Some?
    ensures r.sent.None? ==> r.result == Err(UnsupportedOperation(NoIdmMessage))
    ensures r.sent.Some? ==> r.sent.value == Commands.ReadWithoutEncryption(card.idm, services, blocks)
    ensures r.result.Ok? <==> r.sent.Some? && exec(r.sent.value).Ok? && exec(r.sent.value).value.ReadWithoutEncryption?
    ensures r.result.Ok? ==> r.result.value == exec(r.sent.value).value.blocks
    ensures r.sent.Some? && exec(r.sent.value).Err? ==> r.result == Err(exec(r.sent.value).error)
    ensures r.sent.Some? && exec(r.sent.value).Ok? && r.result.Err? ==> r.result == Err(PollingFailed)
  {
    match IdmOf(card)
    case None => Exchange(None, Err(UnsupportedOperation(NoIdmMessage)))
    case Some(idm) =>
      var cmd := Commands.ReadWithoutEncryption(idm, services, blocks);
      var result :=
        match exec(cmd)
        case Err(e) => Err(e)
        case Ok(resp) => if resp.ReadWithoutEncryption? then Ok(resp.blocks) else Err(PollingFailed);
      Exchange(Some(cmd), result)
  }

  /** `read_single`: a `ReadBlocks` of one block in one service, whose first
      block is the result; a read that brings no block is `PollingFailed`. */
  function ReadSingle(card: Card, service: ServiceCode, block: u16, exec: Executor): (r: Exchange<BlockData>)
    ensures var whole := ReadBlocks(card, [service], [SingleElement(block)], exec);
      && r.sent == whole.sent
      && (r.result.Ok? <==> whole.result.Ok? && |whole.result.value| > 0)
      && (r.result.Ok? ==> r.result.value == whole.result.value[0])
      && (whole.result.Err? ==> r.result == Err(whole.result.error))
      && (whole.result.Ok? && |whole.result.value| == 0 ==> r.result == Err(PollingFailed))
  {
    var whole := ReadBlocks(card, [service], [SingleElement(block)], exec);
    var result :=
      match whole.result
      case Err(e) => Err(e)
      case Ok(bs) => if |bs| > 0 then Ok(bs[0]) else Err(PollingFailed);
    Exchange(whole.sent, result)
  }

  // ---- write.rs ----

  /** The status check both write operations apply to the device's answer:
      a write response is accepted when its first status pair is `(0, 0)`;
      one without statuses is `InvalidLength(11, 0)`, a non-zero first pair
      a `FelicaStatus`, any other response `PollingFailed`, and a device
      error is passed on. Later status pairs are not looked at. */
  function WriteStatus(answer: Result<Responses.Response>): (r: Result<()>)
    ensures r.Ok? <==> (answer.Ok? && answer.value.WriteWithoutEncryption?
                        && |answer.value.statuses| > 0 && answer.value.statuses[0] == (0, 0))
    ensures answer.Err? ==> r == Err(answer.error)
    ensures answer.Ok? && !answer.value.WriteWithoutEncryption? ==> r == Err(PollingFailed)
    ensures answer.Ok? && answer.value.WriteWithoutEncryption? && |answer.value.statuses| == 0
      ==> r == Err(InvalidLength(11, 0))
    ensures answer.Ok? && answer.value.WriteWithoutEncryption? && |answer.value.statuses| > 0
      && answer.value.statuses[0] != (0, 0)
      ==> r == Err(FelicaStatus(answer.value.statuses[0].0, answer.value.statuses[0].1))
  {
    match answer
    case Err(e) => Err(e)
    case Ok(resp) =>
      if !resp.WriteWithoutEncryption? then Err(PollingFailed)
      else if |resp.statuses| == 0 then Err(InvalidLength(11, 0))
      else
        var status := resp.statuses[0];
        if status.0 != 0 || status.1 != 0 then Err(FelicaStatus(status.0, status.1))
        else Ok(())
  }

  /** `write_single`: one WriteWithoutEncryption for the card's IDm, whose
      answer goes through `WriteStatus`. */
  function WriteSingle(idm: Idm, service: ServiceCode, block: BlockElement, data: BlockData, exec: Executor): (r: Exchange<()>)
    ensures r.sent == Some(Commands.WriteWithoutEncryption(idm, service, block, data))
    ensures r.result == WriteStatus(exec(r.sent.value))
  {
    var cmd := Commands.WriteWithoutEncryption(idm, service, block, data);
    Exchange(Some(cmd), WriteStatus(exec(cmd)))
  }

  /** The block elements of a list of (element, data) pairs, in order. */
  function Elements(pairs: seq<(BlockElement, BlockData)>): (r: seq<BlockElement>)
    ensures |r| == |pairs| && forall i :: 0 <= i < |pairs| ==> r[i] == pairs[i].0
  {
    seq(|pairs|, i requires 0 <= i < |pairs| => pairs[i].0)
  }

  /** The data blocks of a list of (element, data) pairs, in order. */
  function DataBlocks(pairs: seq<(BlockElement, BlockData)>): (r: seq<BlockData>)
    ensures |r| == |pairs| && forall i :: 0 <= i < |pairs| ==> r[i] == pairs[i].1
  {
    seq(|pairs|, i requires 0 <= i < |pairs| => pairs[i].1)
  }

  /** Pairs the elements and data blocks back up. */
  function Zip(blocks: seq<BlockElement>, data: seq<BlockData>): (r: seq<(BlockElement, BlockData)>)
    requires |blocks| == |data|
    ensures |r| == |blocks| && forall i :: 0 <= i < |r| ==> r[i] == (blocks[i], data[i])
  {
    seq(|blocks|, i requires 0 <= i < |blocks| => (blocks[i], data[i]))
  }

  /** Splitting the pairs loses nothing: zipping the two halves gives the
      pairs back, and splitting zipped lists gives the lists back. */
  lemma SplitZips(pairs: seq<(BlockElement, BlockData)>, blocks: seq<BlockElement>, data: seq<BlockData>)
    requires |blocks| == |data|
    ensures Zip(Elements(pairs), DataBlocks(pairs)) == pairs
    ensures Elements(Zip(blocks, data)) == blocks && DataBlocks(Zip(blocks, data)) == data
  {
  }

  /** `write_blocks`: an empty list is accepted without sending anything;
      otherwise one WriteWithoutEncryptionMulti for the card's IDm and the
      one service, carrying the elements and the data blocks of the pairs
      in order, whose answer goes through `WriteStatus`. */
  function WriteBlocks(idm: Idm, service: ServiceCode, pairs: seq<(BlockElement, BlockData)>, exec: Executor): (r: Exchange<()>)
    ensures r.sent.None? <==> |pairs| == 0
    ensures r.sent.None? ==> r.result == Ok(())
    ensures r.sent.Some? ==>
      && r.sent.value.WriteWithoutEncryptionMulti?
      && r.sent.value.idm == idm && r.sent.value.services == [service]
      && |r.sent.value.blocks| == |r.sent.value.dataBlocks| == |pairs|
      && (forall i :: 0 <= i < |pairs| ==> (r.sent.value.blocks[i], r.sent.value.dataBlocks[i]) == pairs[i])
      && r.result == WriteStatus(exec(r.sent.value))
  {
    if |pairs| == 0 then Exchange(None, Ok(()))
    else
      var cmd := Commands.WriteWithoutEncryptionMulti(idm, [service], Elements(pairs), DataBlocks(pairs));
      Exchange(Some(cmd), WriteStatus(exec(cmd)))
  }

  /** A single write and a write of the one pair put the same bytes on the
      wire, so a device that answers by what it receives treats them alike. */
  lemma WriteSingleIsOnePair(idm: Idm, service: ServiceCode, block: BlockElement, data: BlockData,
                             exec: Executor, sys: Idm -> seq<byte>)
    ensures var single := WriteSingle(idm, service, block, data, exec).sent.value;
      var multi := WriteBlocks(idm, service, [(block, data)], exec).sent.value;
      Commands.Encode(single, sys) == Commands.Encode(multi, sys)
  {
    assert Elements([(block, data)]) == [block];
    assert DataBlocks([(block, data)]) == [data];
    Commands.WriteIsSingletonMulti(idm, service, block, data, sys);
  }

  // ---- service.rs ----

  /** `require_felica`: the card's IDm, or `UnsupportedOperation`. */
  function RequireFelica(card: Card): (r: Result<Idm>)
    ensures r.Ok? <==> Kind(card) == FType
    ensures r.Ok? ==> r.value == card.idm
    ensures r.Err? ==> r.error == UnsupportedOperation(NotFelicaMessage)
  {
    match IdmOf(card)
    case Some(idm) => Ok(idm)
    case None => Err(UnsupportedOperation(NotFelicaMessage))
  }

  /** `request_service_versions`: the versions of a RequestService answer
      from the same card. An answer from another IDm, or another response,
      is `UnexpectedResponse` with expected code 0x03 and the answer's
      code. */
  function RequestServiceVersions(card: Card, nodeCodes: seq<u16>, exec: Executor): (r: Exchange<seq<u16>>)
    ensures r.sent.Some? <==> Kind(card) == FType
    ensures r.sent.None? ==> r.result == Err(UnsupportedOperation(NotFelicaMessage))
    ensures r.sent.Some? ==> r.sent.value == Commands.RequestService(card.idm, nodeCodes)
    ensures r.sent.Some? && exec(r.sent.value).Err? ==> r.result == Err(exec(r.sent.value).error)
    ensures r.sent.Some? && exec(r.sent.value).Ok? ==>
      var resp := exec(r.sent.value).value;
      && (r.result.Ok? <==> resp.RequestService? && resp.idm == card.idm)
      && (r.result.Ok? ==> r.result.value == resp.versions)
      && (r.result.Err? ==> r.result.error == UnexpectedResponse(RequestServiceRsp, Responses.ResponseCode(resp)))
  {
    match RequireFelica(card)
    case Err(e) => Exchange(None, Err(e))
    case Ok(idm) =>
      var cmd := Commands.RequestService(idm, nodeCodes);
      var result :=
        match exec(cmd)
        case Err(e) => Err(e)
        case Ok(resp) =>
          if resp.RequestService? && resp.idm == idm then Ok(resp.versions)
          else if resp.RequestService? then Err(UnexpectedResponse(RequestServiceRsp, RequestServiceRsp))
          else Err(UnexpectedResponse(RequestServiceRsp, Responses.ResponseCode(resp)));
      Exchange(Some(cmd), result)
  }

  /** `request_response_mode`: the mode of a RequestResponse answer from the
      same card; otherwise `UnexpectedResponse` with expected code 0x05. */
  function RequestResponseMode(card: Card, exec: Executor): (r: Exchange<byte>)
    ensures r.sent.Some? <==> Kind(card) == FType
    ensures r.sent.None? ==> r.result == Err(UnsupportedOperation(NotFelicaMessage))
    ensures r.sent.Some? ==> r.sent.value == Commands.RequestResponse(card.idm)
    ensures r.sent.Some? && exec(r.sent.value).Err? ==> r.result == Err(exec(r.sent.value).error)
    ensures r.sent.Some? && exec(r.sent.value).Ok? ==>
      var resp := exec(r.sent.value).value;
      && (r.result.Ok? <==> resp.RequestResponse? && resp.idm == card.idm)
      && (r.result.Ok? ==> r.result.value == resp.mode)
      && (r.result.Err? ==> r.result.error == UnexpectedResponse(RequestResponseRsp, Responses.ResponseCode(resp)))
  {
    match RequireFelica(card)
    case Err(e) => Exchange(None, Err(e))
    case Ok(idm) =>
      var cmd := Commands.RequestResponse(idm);
      var result :=
        match exec(cmd)
        case Err(e) => Err(e)
        case Ok(resp) =>
          if resp.RequestResponse? && resp.idm == idm then Ok(resp.mode)
          else if resp.RequestResponse? then Err(UnexpectedResponse(RequestResponseRsp, RequestResponseRsp))
          else Err(UnexpectedResponse(RequestResponseRsp, Responses.ResponseCode(resp)));
      Exchange(Some(cmd), result)
  }

  /** `request_system_codes`: the system codes of a RequestSystemCode answer
      from the same card; otherwise `UnexpectedResponse` with expected code
      0x0D. */
  function RequestSystemCodes(card: Card, exec: Executor): (r: Exchange<seq<SystemCode>>)
    ensures r.sent.Some? <==> Kind(card) == FType
    ensures r.sent.None? ==> r.result == Err(UnsupportedOperation(NotFelicaMessage))
    ensures r.sent.Some? ==> r.sent.value == Commands.RequestSystemCode(card.idm)
    ensures r.sent.Some? && exec(r.sent.value).Err? ==> r.result == Err(exec(r.sent.value).error)
    ensures r.sent.Some? && exec(r.sent.value).Ok? ==>
      var resp := exec(r.sent.value).value;
      && (r.result.Ok? <==> resp.RequestSystemCode? && resp.idm == card.idm)
      && (r.result.Ok? ==> r.result.value == resp.systemCodes)
      && (r.result.Err? ==> r.result.error == UnexpectedResponse(RequestSystemRsp, Responses.ResponseCode(resp)))
  {
    match RequireFelica(card)
    case Err(e) => Exchange(None, Err(e))
    case Ok(idm) =>
      var cmd := Commands.RequestSystemCode(idm);
      var result :=
        match exec(cmd)
        case Err(e) => Err(e)
        case Ok(resp) =>
          if resp.RequestSystemCode? && resp.idm == idm then Ok(resp.systemCodes)
          else if resp.RequestSystemCode? then Err(UnexpectedResponse(RequestSystemRsp, RequestSystemRsp))
          else Err(UnexpectedResponse(RequestSystemRsp, Responses.ResponseCode(resp)));
      Exchange(Some(cmd), result)
  }

  // ---- the service iterator ----

  /** `ServiceIterator`: the card, the next search index and whether the
      iteration is over. */
  datatype ServiceIterator = ServiceIterator(card: Card, index: u16, finished: bool)

  /** `ServiceIterator::new`. */
  function NewIterator(card: Card): (it: ServiceIterator)
    ensures it.card == card && it.index == 0 && !it.finished
  {
    ServiceIterator(card, 0, false)
  }

  /** `u16::saturating_add(1)`. */
  function SaturatingInc(i: u16): (r: u16)
    ensures r as int == if i < 0xFFFF then i as int + 1 else 0xFFFF
  {
    if i < 0xFFFF then i + 1 else i
  }

  /** One call of `next`: the iterator after it, the item it yields, and
      the command it handed to the device. */
  datatype Step = Step(next: ServiceIterator, item: Option<Result<u16>>, sent: Option<Commands.Command>)

  /** An item that carries a service code. */
  predicate IsCode(item: Option<Result<u16>>)
  {
    item.Some? && item.value.Ok?
  }

  /** `next`: a finished iterator yields nothing; a card without IDm yields
      one `UnsupportedOperation`; otherwise a SearchServiceCode for the
      current index is sent. A found code is yielded and the index moves on
      (stopping at 0xFFFF); an absent code ends the iteration silently; any
      other response yields `UnexpectedResponse(0x0B, 0x00)` and a device
      error is yielded as it is, both ending the iteration. The iteration
      goes on exactly when a code was yielded. */
  function Next(it: ServiceIterator, exec: Executor): (s: Step)
    ensures s.next.card == it.card
    ensures !s.next.finished <==> IsCode(s.item)
    ensures IsCode(s.item) ==> s.next.index == SaturatingInc(it.index)
    ensures !IsCode(s.item) ==> s.next.index == it.index
    ensures it.finished ==> s == Step(it, None, None)
    ensures !it.finished && Kind(it.card) != FType ==>
      s.item == Some(Err(UnsupportedOperation(NoIdmMessage))) && s.sent == None
    ensures !it.finished && Kind(it.card) == FType ==>
      && s.sent == Some(Commands.SearchServiceCode(it.card.idm, it.index))
      && var answer := exec(s.sent.value);
      && (answer.Err? ==> s.item == Some(Err(answer.error)))
      && (answer.Ok? && !answer.value.SearchServiceCode? ==>
            s.item == Some(Err(UnexpectedResponse(SearchServiceRsp, 0x00))))
      && (answer.Ok? && answer.value.SearchServiceCode? ==>
            s.item == (match answer.value.areaOrServiceCode
                       case Some(code) => Some(Ok(code))
                       case None => None))
  {
    if it.finished then Step(it, None, None)
    else match IdmOf(it.card)
      case None =>
        Step(it.(finished := true), Some(Err(UnsupportedOperation(NoIdmMessage))), None)
      case Some(idm) =>
        var cmd := Commands.SearchServiceCode(idm, it.index);
        match exec(cmd)
        case Err(e) =>
          Step(it.(finished := true), Some(Err(e)), Some(cmd))
        case Ok(resp) =>
          if !resp.SearchServiceCode? then
            Step(it.(finished := true), Some(Err(UnexpectedResponse(SearchServiceRsp, 0x00))), Some(cmd))
          else match resp.areaOrServiceCode
            case Some(code) => Step(it.(index := SaturatingInc(it.index)), Some(Ok(code)), Some(cmd))
            case None => Step(it.(finished := true), None, Some(cmd))
  }

  /** `n` calls of `next` in a row: the iterator after them, the items
      yielded and the commands handed to the device. */
  function Run(it: ServiceIterator, exec: Executor, n: nat): (r: (ServiceIterator, seq<Option<Result<u16>>>, seq<Commands.Command>))
    ensures |r.1| == n && |r.2| <= n
    decreases n
  {
    if n == 0 then (it, [], [])
    else
      var s := Next(it, exec);
      var rest := Run(s.next, exec, n - 1);
      (rest.0, [s.item] + rest.1, (if s.sent.Some? then [s.sent.value] else []) + rest.2)
  }

  /** A finished iterator stays finished: it yields nothing and sends
      nothing, however often it is called. */
  lemma {:induction false} FinishedStaysDone(it: ServiceIterator, exec: Executor, n: nat)
    requires it.finished
    ensures Run(it, exec, n).0 == it && Run(it, exec, n).2 == []
    ensures forall j :: 0 <= j < n ==> Run(it, exec, n).1[j] == None
    decreases n
  {
    if n > 0 {
      FinishedStaysDone(it, exec, n - 1);
      var r := Run(it, exec, n);
      forall j | 1 <= j < n
        ensures r.1[j] == None
      {
        assert r.1[j] == Run(it, exec, n - 1).1[j - 1];
      }
    }
  }

  /** After the first item that is not a service code, only `None`
      follows. */
  predicate EndsQuietly(items: seq<Option<Result<u16>>>)
  {
    forall i, j :: 0 <= i < j < |items| && !IsCode(items[i]) ==> items[j] == None
  }

  /** The iteration yields at most one error, and nothing after it: once an
      item is not a service code, every later item is `None`. */
  lemma {:induction false} NothingAfterEnd(it: ServiceIterator, exec: Executor, n: nat)
    ensures EndsQuietly(Run(it, exec, n).1)
    ensures var items := Run(it, exec, n).1;
      forall i, j :: (0 <= i < n && 0 <= j < n && items[i].Some? && items[i].value.Err?
                      && items[j].Some? && items[j].value.Err?) ==> i == j
    decreases n
  {
    if n > 0 {
      var s := Next(it, exec);
      var items := Run(it, exec, n).1;
      var rest := Run(s.next, exec, n - 1).1;
      assert items == [s.item] + rest;
      NothingAfterEnd(s.next, exec, n - 1);
      assert EndsQuietly(rest);
      if !IsCode(s.item) {
        FinishedStaysDone(s.next, exec, n - 1);
      }
      forall i, j | 0 <= i < j < n && !IsCode(items[i])
        ensures items[j] == None
      {
        assert items[j] == rest[j - 1];
        if i == 0 {
          assert items[0] == s.item;
        } else {
          assert items[i] == rest[i - 1];
        }
      }
    }
  }

  /** `i + k`, stopping at 0xFFFF, as `k` saturating increments of `i` give. */
  function SaturatingAdd(i: u16, k: nat): (r: u16)
    ensures r as int == if i as int + k < 0xFFFF then i as int + k else 0xFFFF
  {
    if i as int + k < 0xFFFF then (i as int + k) as u16 else 0xFFFF
  }

  /** While the card keeps finding codes, the iterator searches the indices
      in order from where it stands, one command per item, and its index
      counts the codes found, stopping at 0xFFFF. */
  lemma {:induction false} SearchesInOrder(it: ServiceIterator, exec: Executor, n: nat)
    requires !it.finished && Kind(it.card) == FType
    requires forall k :: 0 <= k < n ==> IsCode(Run(it, exec, n).1[k])
    ensures var r := Run(it, exec, n);
      && |r.2| == n
      && (forall k :: 0 <= k < n ==> r.2[k] == Commands.SearchServiceCode(it.card.idm, SaturatingAdd(it.index, k)))
      && r.0 == it.(index := SaturatingAdd(it.index, n))
    decreases n
  {
    if n > 0 {
      var s := Next(it, exec);
      var r := Run(it, exec, n);
      var rest := Run(s.next, exec, n - 1);
      assert r.1[0] == s.item;
      forall k | 0 <= k < n - 1
        ensures IsCode(rest.1[k])
      {
        assert rest.1[k] == r.1[k + 1];
      }
      SearchesInOrder(s.next, exec, n - 1);
      assert s.next == it.(index := SaturatingAdd(it.index, 1));
      forall k | 0 <= k < n
        ensures r.2[k] == Commands.SearchServiceCode(it.card.idm, SaturatingAdd(it.index, k))
      {
        if k > 0 {
          assert r.2[k] == rest.2[k - 1];
        }
      }
    }
  }

  /** At index 0xFFFF the index no longer moves: a card that answers that
      index with a code gets the same search again and again, and the
      iterator yields that code forever. */
  lemma {:induction false} SaturatedRepeats(it: ServiceIterator, exec: Executor, code: u16, n: nat)
    requires !it.finished && Kind(it.card) == FType && it.index == 0xFFFF
    requires exec(Commands.SearchServiceCode(it.card.idm, 0xFFFF)).Ok?
    requires exec(Commands.SearchServiceCode(it.card.idm, 0xFFFF)).value.SearchServiceCode?
    requires exec(Commands.SearchServiceCode(it.card.idm, 0xFFFF)).value.areaOrServiceCode == Some(code)
    ensures Run(it, exec, n).0 == it
    ensures forall k :: 0 <= k < n ==> Run(it, exec, n).1[k] == Some(Ok(code))
    decreases n
  {
    if n > 0 {
      assert Next(it, exec).next == it;
      SaturatedRepeats(it, exec, code, n - 1);
      forall k | 1 <= k < n
        ensures Run(it, exec, n).1[k] == Some(Ok(code))
      {
        assert Run(it, exec, n).1[k] == Run(it, exec, n - 1).1[k - 1];
      }
    }
  }

  // ---- against the card's reply bytes ----

  /** A device that answers every command with the card reply `reply`,
      decoded for that command. */
  function Replying(reply: seq<byte>): Executor
  {
    c => Responses.Decode(Commands.CommandCode(c), reply)
  }

  /** A card that sends the payload of a read response gets its blocks
      read back. */
  lemma ReadFromCard(card: Card, services: seq<ServiceCode>, blocks: seq<BlockElement>, resp: Responses.Response)
    requires Kind(card) == FType && resp.ReadWithoutEncryption? && Responses.WellFormed(resp)
    ensures ReadBlocks(card, services, blocks, Replying(Responses.Payload(resp))).result == Ok(resp.blocks)
  {
    Responses.DecodePayloadRoundTrip(resp, []);
    assert Responses.Payload(resp) + [] == Responses.Payload(resp);
  }

  /** A card that reports a non-zero status for a read gets that status
      back as a `FelicaStatus`. */
  lemma ReadStatusFromCard(card: Card, services: seq<ServiceCode>, blocks: seq<BlockElement>, reply: seq<byte>)
    requires Kind(card) == FType
    requires |reply| >= 12 && reply[0] == 0x07 && (reply[9] != 0 || reply[10] != 0)
    ensures ReadBlocks(card, services, blocks, Replying(reply)).result == Err(FelicaStatus(reply[9], reply[10]))
  {
  }

  /** After decoding, the write status check accepts exactly what the
      decoder accepted: a decoded write response always has a first status
      of `(0, 0)`, so the check's own error branches are never taken, and
      the decoder's error is what the write reports. */
  lemma WriteStatusOfDecoded(reply: seq<byte>)
    ensures var answer := Responses.Decode(0x08, reply);
      WriteStatus(answer) == if answer.Ok? then Ok(()) else Err(answer.error)
  {
    var answer := Responses.Decode(0x08, reply);
    if answer.Ok? {
      assert Responses.DecodeWrite(reply).Ok?;
      assert answer.value.statuses == Responses.WriteStatuses(reply);
    }
  }

  /** Writing to a card that sends the payload of a successful write
      response succeeds, whether one block or several are written. */
  lemma WriteToCard(idm: Idm, service: ServiceCode, pairs: seq<(BlockElement, BlockData)>, resp: Responses.Response)
    requires |pairs| > 0 && resp.WriteWithoutEncryption? && Responses.WellFormed(resp)
    ensures WriteBlocks(idm, service, pairs, Replying(Responses.Payload(resp))).result == Ok(())
    ensures WriteSingle(idm, service, pairs[0].0, pairs[0].1, Replying(Responses.Payload(resp))).result == Ok(())
  {
    Responses.DecodePayloadRoundTrip(resp, []);
    assert Responses.Payload(resp) + [] == Responses.Payload(resp);
  }

  /** A card whose reply to a request is the payload of the matching
      response gets its fields back when it answers with its own IDm, and
      `UnexpectedResponse` with the response code twice otherwise. */
  lemma RequestServiceFromCard(card: Card, nodeCodes: seq<u16>, resp: Responses.Response)
    requires Kind(card) == FType && resp.RequestService? && Responses.WellFormed(resp)
    ensures var r := RequestServiceVersions(card, nodeCodes, Replying(Responses.Payload(resp))).result;
      && (resp.idm == card.idm ==> r == Ok(resp.versions))
      && (resp.idm != card.idm ==> r == Err(UnexpectedResponse(0x03, 0x03)))
  {
    Responses.DecodePayloadRoundTrip(resp, []);
    assert Responses.Payload(resp) + [] == Responses.Payload(resp);
  }

  lemma RequestResponseFromCard(card: Card, resp: Responses.Response)
    requires Kind(card) == FType && resp.RequestResponse?
    ensures var r := RequestResponseMode(card, Replying(Responses.Payload(resp))).result;
      && (resp.idm == card.idm ==> r == Ok(resp.mode))
      && (resp.idm != card.idm ==> r == Err(UnexpectedResponse(0x05, 0x05)))
  {
    Responses.DecodePayloadRoundTrip(resp, []);
    assert Responses.Payload(resp) + [] == Responses.Payload(resp);
  }

  lemma RequestSystemCodesFromCard(card: Card, resp: Responses.Response)
    requires Kind(card) == FType && resp.RequestSystemCode? && Responses.WellFormed(resp)
    ensures var r := RequestSystemCodes(card, Replying(Responses.Payload(resp))).result;
      && (resp.idm == card.idm ==> r == Ok(resp.systemCodes))
      && (resp.idm != card.idm ==> r == Err(UnexpectedResponse(0x0D, 0x0D)))
  {
    Responses.DecodePayloadRoundTrip(resp, []);
    assert Responses.Payload(resp) + [] == Responses.Payload(resp);
  }

  /** Behind a decoding device the iterator's own `UnexpectedResponse`
      branch is never taken: a search answer that decodes is always a
      SearchServiceCode response. The same error value still arises when
      the decoder rejects a reply that starts with 0x00 instead of 0x0B. */
  lemma SearchUnexpectedOnlyFromDecoder(it: ServiceIterator, reply: seq<byte>)
    ensures Next(it, Replying(reply)).item == Some(Err(UnexpectedResponse(SearchServiceRsp, 0x00)))
      ==> |reply| > 0 && reply[0] == 0x00
  {
  }

  /** The unit test of the iterator: the card finds 0x1111 at index 0 and
      nothing at index 1, so the codes collected are `[0x1111]`, and two
      searches are sent. */
  lemma CollectsServiceCodes(card: Card)
    requires Kind(card) == FType
    ensures var found := Responses.SearchServiceCode(card.idm, Some(0x1111));
      var ended := Responses.SearchServiceCode(card.idm, None);
      var exec := (c: Commands.Command) =>
        if c.SearchServiceCode? && c.index == 0 then Responses.Decode(0x0A, Responses.Payload(found))
        else Responses.Decode(0x0A, Responses.Payload(ended));
      var r := Run(NewIterator(card), exec, 3);
      r.1 == [Some(Ok(0x1111)), None, None] && |r.2| == 2
  {
    var found := Responses.SearchServiceCode(card.idm, Some(0x1111));
    var ended := Responses.SearchServiceCode(card.idm, None);
    Responses.DecodePayloadRoundTrip(found, []);
    Responses.DecodePayloadRoundTrip(ended, []);
    assert Responses.Payload(found) + [] == Responses.Payload(found);
    assert Responses.Payload(ended) + [] == Responses.Payload(ended);
  }
}
