/** The operations a `Card` offers. Each one that talks to the card first
    checks that the card is a FeliCa card and refuses any other card with an
    `UnsupportedOperation` naming the operation, before the device is
    used; a FeliCa card is handed to the matching card operation. Listing
    services is not guarded: the iterator reports a card without IDm
    itself. */
module CardApi {
  import opened Bytes
  import opened Errors
  import opened Types
  import opened Cards
  import opened CardOperations

  /** The refusal of operation `name` on a card that is not a FeliCa card. */
  function Refusal(name: string): Error
  {
    UnsupportedOperation(name + " is only supported for FeliCa (Type F) cards")
  }

  /** `Card::read_blocks`. */
  function CardReadBlocks(card: Card, services: seq<ServiceCode>, blocks: seq<BlockElement>, exec: Executor): (r: Exchange<seq<BlockData>>)
    ensures Kind(card) != FType ==> r == Exchange(None, Err(Refusal("read_blocks")))
    ensures Kind(card) == FType ==> r == ReadBlocks(card, services, blocks, exec)
  {
    if !card.TypeF? then Exchange(None, Err(Refusal("read_blocks")))
    else ReadBlocks(card, services, blocks, exec)
  }

  /** `Card::read_single`. */
  function CardReadSingle(card: Card, service: ServiceCode, block: u16, exec: Executor): (r: Exchange<BlockData>)
    ensures Kind(card) != FType ==> r == Exchange(None, Err(Refusal("read_single")))
    ensures Kind(card) == FType ==> r == ReadSingle(card, service, block, exec)
  {
    if !card.TypeF? then Exchange(None, Err(Refusal("read_single")))
    else ReadSingle(card, service, block, exec)
  }

  /** `Card::write_single`: the block number becomes the element for the
      first service with direct access. */
  function CardWriteSingle(card: Card, service: ServiceCode, block: u16, data: BlockData, exec: Executor): (r: Exchange<()>)
    ensures Kind(card) != FType ==> r == Exchange(None, Err(Refusal("write_single")))
    ensures Kind(card) == FType ==> r == WriteSingle(card.idm, service, SingleElement(block), data, exec)
  {
    if !card.TypeF? then Exchange(None, Err(Refusal("write_single")))
    else WriteSingle(card.idm, service, SingleElement(block), data, exec)
  }

  /** `Card::write_blocks`. */
  function CardWriteBlocks(card: Card, service: ServiceCode, pairs: seq<(BlockElement, BlockData)>, exec: Executor): (r: Exchange<()>)
    ensures Kind(card) != FType ==> r == Exchange(None, Err(Refusal("write_blocks")))
    ensures Kind(card) == FType ==> r == WriteBlocks(card.idm, service, pairs, exec)
  {
    if !card.TypeF? then Exchange(None, Err(Refusal("write_blocks")))
    else WriteBlocks(card.idm, service, pairs, exec)
  }

  /** `Card::services`: the iterator, without a guard. */
  function CardServices(card: Card): (it: ServiceIterator)
    ensures it == NewIterator(card)
  {
    NewIterator(card)
  }

  /** `Card::request_service_versions`. */
  function CardRequestServiceVersions(card: Card, nodeCodes: seq<u16>, exec: Executor): (r: Exchange<seq<u16>>)
    ensures Kind(card) != FType ==> r == Exchange(None, Err(Refusal("request_service_versions")))
    ensures Kind(card) == FType ==> r == RequestServiceVersions(card, nodeCodes, exec)
  {
    if !card.TypeF? then Exchange(None, Err(Refusal("request_service_versions")))
    else RequestServiceVersions(card, nodeCodes, exec)
  }

  /** `Card::request_response_mode`. */
  function CardRequestResponseMode(card: Card, exec: Executor): (r: Exchange<byte>)
    ensures Kind(card) != FType ==> r == Exchange(None, Err(Refusal("request_response_mode")))
    ensures Kind(card) == FType ==> r == RequestResponseMode(card, exec)
  {
    if !card.TypeF? then Exchange(None, Err(Refusal("request_response_mode")))
    else RequestResponseMode(card, exec)
  }

  /** `Card::request_system_codes`. */
  function CardRequestSystemCodes(card: Card, exec: Executor): (r: Exchange<seq<SystemCode>>)
    ensures Kind(card) != FType ==> r == Exchange(None, Err(Refusal("request_system_codes")))
    ensures Kind(card) == FType ==> r == RequestSystemCodes(card, exec)
  {
    if !card.TypeF? then Exchange(None, Err(Refusal("request_system_codes")))
    else RequestSystemCodes(card, exec)
  }

  /** On a card that is not a FeliCa card no guarded operation hands a
      command to the device, whatever the device would answer, and the
      seven refusals all differ, so each one identifies its operation. */
  lemma NonFelicaUntouched(card: Card, service: ServiceCode, services: seq<ServiceCode>, blocks: seq<BlockElement>,
                           block: u16, data: BlockData, pairs: seq<(BlockElement, BlockData)>, nodeCodes: seq<u16>,
                           exec: Executor)
    requires Kind(card) != FType
    ensures CardReadBlocks(card, services, blocks, exec).sent == None
    ensures CardReadSingle(card, service, block, exec).sent == None
    ensures CardWriteSingle(card, service, block, data, exec).sent == None
    ensures CardWriteBlocks(card, service, pairs, exec).sent == None
    ensures CardRequestServiceVersions(card, nodeCodes, exec).sent == None
    ensures CardRequestResponseMode(card, exec).sent == None
    ensures CardRequestSystemCodes(card, exec).sent == None
    ensures var errors := [CardReadBlocks(card, services, blocks, exec).result.error,
                           CardReadSingle(card, service, block, exec).result.error,
                           CardWriteSingle(card, service, block, data, exec).result.error,
                           CardWriteBlocks(card, service, pairs, exec).result.error,
                           CardRequestServiceVersions(card, nodeCodes, exec).result.error,
                           CardRequestResponseMode(card, exec).result.error,
                           CardRequestSystemCodes(card, exec).result.error];
      forall i, j :: 0 <= i < j < |errors| ==> errors[i] != errors[j]
  {
    assert Refusal("read_blocks").message[5] != Refusal("read_single").message[5];
    assert Refusal("write_single").message[6] != Refusal("write_blocks").message[6];
  }

  /** Through the card, the card operations' own refusals are never seen:
      whenever a guarded operation sends nothing it is the card's refusal
      (or, for an empty write list, success), since on a FeliCa card the
      operations' IDm checks pass. */
  lemma InnerRefusalsUnreachable(card: Card, service: ServiceCode, services: seq<ServiceCode>, blocks: seq<BlockElement>,
                                 block: u16, data: BlockData, pairs: seq<(BlockElement, BlockData)>, nodeCodes: seq<u16>,
                                 exec: Executor)
    ensures CardReadBlocks(card, services, blocks, exec).sent == None
      ==> CardReadBlocks(card, services, blocks, exec).result == Err(Refusal("read_blocks"))
    ensures CardReadSingle(card, service, block, exec).sent == None
      ==> CardReadSingle(card, service, block, exec).result == Err(Refusal("read_single"))
    ensures CardWriteSingle(card, service, block, data, exec).sent == None
      ==> CardWriteSingle(card, service, block, data, exec).result == Err(Refusal("write_single"))
    ensures CardWriteBlocks(card, service, pairs, exec).sent == None
      ==> CardWriteBlocks(card, service, pairs, exec).result in {Ok(()), Err(Refusal("write_blocks"))}
    ensures CardRequestServiceVersions(card, nodeCodes, exec).sent == None
      ==> CardRequestServiceVersions(card, nodeCodes, exec).result == Err(Refusal("request_service_versions"))
    ensures CardRequestResponseMode(card, exec).sent == None
      ==> CardRequestResponseMode(card, exec).result == Err(Refusal("request_response_mode"))
    ensures CardRequestSystemCodes(card, exec).sent == None
      ==> CardRequestSystemCodes(card, exec).result == Err(Refusal("request_system_codes"))
  {
  }

  /** Listing the services of a card without IDm yields one
      `UnsupportedOperation` and then nothing, with no command sent. */
  lemma NonFelicaServices(card: Card, exec: Executor, n: nat)
    requires Kind(card) != FType && n > 0
    ensures var r := Run(CardServices(card), exec, n);
      && r.1[0] == Some(Err(UnsupportedOperation(NoIdmMessage)))
      && (forall k :: 1 <= k < n ==> r.1[k] == None)
      && r.2 == []
  {
    var it := CardServices(card);
    var s := Next(it, exec);
    FinishedStaysDone(s.next, exec, n - 1);
    var r := Run(it, exec, n);
    forall k | 1 <= k < n
      ensures r.1[k] == None
    {
      assert r.1[k] == Run(s.next, exec, n - 1).1[k - 1];
    }
  }

  /** The read test of the card: a card with IDm 1..8 whose read reply
      carries one block of 0x99 bytes reads that block back. */
  lemma ReadSingleVector(service: ServiceCode, block: u16)
    ensures var card := NewTypeF(Idm([1, 2, 3, 4, 5, 6, 7, 8]), Pmm([9, 9, 9, 9, 9, 9, 9, 9]), SystemCode(0x0A0B));
      var nines := BlockData(seq(16, _ => 0x99));
      var resp := Responses.ReadWithoutEncryption(card.idm, (0, 0), [nines]);
      CardReadSingle(card, service, block, Replying(Responses.Payload(resp))).result == Ok(nines)
  {
    var card := NewTypeF(Idm([1, 2, 3, 4, 5, 6, 7, 8]), Pmm([9, 9, 9, 9, 9, 9, 9, 9]), SystemCode(0x0A0B));
    var nines := BlockData(seq(16, _ => 0x99));
    var resp := Responses.ReadWithoutEncryption(card.idm, (0, 0), [nines]);
    ReadFromCard(card, [service], [SingleElement(block)], resp);
  }
}
