/** FeliCa command payloads (command code followed by parameters). The
    layouts are the code's own: no leading length byte, and each block-list
    element is `[service index, access mode, low byte of block number]`. */
module Commands {
  import opened Bytes
  import opened Types
  import opened Errors

  datatype Command =
    | Polling(systemCode: SystemCode, requestCode: byte, timeSlot: byte)
    | ReadWithoutEncryption(idm: Idm, services: seq<ServiceCode>, blocks: seq<BlockElement>)
    | WriteWithoutEncryption(idm: Idm, service: ServiceCode, block: BlockElement, data: BlockData)
    | WriteWithoutEncryptionMulti(idm: Idm, services: seq<ServiceCode>, blocks: seq<BlockElement>, dataBlocks: seq<BlockData>)
    | RequestService(idm: Idm, nodeCodes: seq<u16>)
    | RequestResponse(idm: Idm)
    | RequestSystemCode(idm: Idm)
    | SearchServiceCode(idm: Idm, index: u16)

  /** `Command::command_code`. */
  function CommandCode(c: Command): (r: byte)
    ensures r % 2 == 0 && r <= 0x0C
  {
    match c
    case Polling(_, _, _) => 0x00
    case ReadWithoutEncryption(_, _, _) => 0x06
    case WriteWithoutEncryption(_, _, _, _) => 0x08
    case WriteWithoutEncryptionMulti(_, _, _, _) => 0x08
    case RequestService(_, _) => 0x02
    case RequestResponse(_) => 0x04
    case RequestSystemCode(_) => 0x0C
    case SearchServiceCode(_, _) => 0x0A
  }

  function Codes(services: seq<ServiceCode>): (r: seq<u16>)
    ensures |r| == |services|
  {
    seq(|services|, i requires 0 <= i < |services| => services[i].code)
  }

  /** The service-code list: each code little-endian, in order. */
  function ServiceList(services: seq<ServiceCode>): (r: seq<byte>)
    ensures |r| == 2 * |services|
  {
    LeList(Codes(services))
  }

  /** The block list: three bytes per element, in order. */
  function BlockList(blocks: seq<BlockElement>): (r: seq<byte>)
    ensures |r| == 3 * |blocks|
  {
    if |blocks| == 0 then [] else blocks[0].Encode() + BlockList(blocks[1..])
  }

  /** The block data: sixteen bytes per block, in order. */
  function DataList(data: seq<BlockData>): (r: seq<byte>)
    ensures |r| == 16 * |data|
  {
    if |data| == 0 then [] else data[0].bytes + DataList(data[1..])
  }

  /** Element `j` of the block list sits at bytes `3j .. 3j + 3`. */
  lemma {:induction false} BlockListLayout(blocks: seq<BlockElement>, j: nat)
    requires j < |blocks|
    ensures BlockList(blocks)[3 * j..3 * j + 3] == blocks[j].Encode()
  {
    if j > 0 {
      BlockListLayout(blocks[1..], j - 1);
      assert BlockList(blocks)[3 * j..3 * j + 3] == BlockList(blocks[1..])[3 * (j - 1)..3 * (j - 1) + 3];
    }
  }

  /** Data block `j` sits at bytes `16j .. 16j + 16`. */
  lemma {:induction false} DataListLayout(data: seq<BlockData>, j: nat)
    requires j < |data|
    ensures DataList(data)[16 * j..16 * j + 16] == data[j].bytes
  {
    if j > 0 {
      DataListLayout(data[1..], j - 1);
      assert DataList(data)[16 * j..16 * j + 16] == DataList(data[1..])[16 * (j - 1)..16 * (j - 1) + 16];
    }
  }

  /** `encode_polling`. */
  function EncodePolling(systemCode: SystemCode, requestCode: byte, timeSlot: byte): (r: seq<byte>)
    ensures |r| == 5 && r[0] == 0x00
    ensures r[1] as int + 0x100 * r[2] as int == systemCode.code
    ensures r[3] == requestCode && r[4] == timeSlot
  {
    [0x00] + systemCode.ToLeBytes() + [requestCode, timeSlot]
  }

  /** The layout shared by Read and Write: code, IDm, service count, then
      the lists and `tail`. Both counts are truncating `as u8` casts. */
  function BlockLayout(code: byte, idm: Idm, services: seq<ServiceCode>, blocks: seq<BlockElement>, tail: seq<byte>): (p: seq<byte>)
    ensures |p| == 11 + 2 * |services| + 3 * |blocks| + |tail| && p[0] == code
  {
    ([code] + idm.bytes + [TruncU8(|services|)]) + ListsLayout(services, blocks, tail)
  }

  /** Service list, element count, element list, then `tail`. */
  function ListsLayout(services: seq<ServiceCode>, blocks: seq<BlockElement>, tail: seq<byte>): (r: seq<byte>)
    ensures |r| == 1 + 2 * |services| + 3 * |blocks| + |tail|
  {
    ServiceList(services) + ElementsLayout(blocks, tail)
  }

  /** Element count, element list, then `tail`. */
  function ElementsLayout(blocks: seq<BlockElement>, tail: seq<byte>): (r: seq<byte>)
    ensures |r| == 1 + 3 * |blocks| + |tail|
  {
    [TruncU8(|blocks|)] + (BlockList(blocks) + tail)
  }

  /** `encode_read`: the two counts are truncating `as u8` casts. */
  function EncodeRead(idm: Idm, services: seq<ServiceCode>, blocks: seq<BlockElement>): (r: seq<byte>)
    ensures |r| == 11 + 2 * |services| + 3 * |blocks| && r[0] == 0x06
  {
    BlockLayout(0x06, idm, services, blocks, [])
  }

  /** `encode_write_multi`: the read layout followed by the data blocks; the
      number of data blocks is not checked against the number of elements. */
  function EncodeWriteMulti(idm: Idm, services: seq<ServiceCode>, blocks: seq<BlockElement>, data: seq<BlockData>): (r: seq<byte>)
    ensures |r| == 11 + 2 * |services| + 3 * |blocks| + 16 * |data| && r[0] == 0x08
    ensures r[|r| - 16 * |data|..] == DataList(data)
  {
    var r := BlockLayout(0x08, idm, services, blocks, DataList(data));
    assert r[|r| - 16 * |data|..] == DataList(data) by {
      var head := [0x08] + idm.bytes + [TruncU8(|services|)];
      var mid := ServiceList(services) + [TruncU8(|blocks|)] + BlockList(blocks);
      assert r == (head + mid) + DataList(data);
      SplitAt(head + mid, DataList(data));
    }
    r
  }

  /** `encode_write`: delegates to the multi-block encoder. */
  function EncodeWrite(idm: Idm, service: ServiceCode, block: BlockElement, data: BlockData): (r: seq<byte>)
    ensures |r| == 32 && r[0] == 0x08
    ensures r[16..] == data.bytes
  {
    var r := EncodeWriteMulti(idm, [service], [block], [data]);
    DataListLayout([data], 0);
    r
  }

  /** `encode_request_service`. */
  function EncodeRequestService(idm: Idm, nodeCodes: seq<u16>): (r: seq<byte>)
    ensures |r| == 10 + 2 * |nodeCodes| && r[0] == 0x02
  {
    [0x02] + idm.bytes + [TruncU8(|nodeCodes|)] + LeList(nodeCodes)
  }

  /** `encode_request_response`. */
  function EncodeRequestResponse(idm: Idm): (r: seq<byte>)
    ensures |r| == 9 && r[0] == 0x04 && r[1..] == idm.bytes
  {
    [0x04] + idm.bytes
  }

  /** `encode_search_service_code`. */
  function EncodeSearchServiceCode(idm: Idm, index: u16): (r: seq<byte>)
    ensures |r| == 11 && r[0] == 0x0A && r[1..9] == idm.bytes
    ensures r[9] as int + 0x100 * r[10] as int == index
  {
    [0x0A] + idm.bytes + ToLe(index)
  }

  /** `Command::encode`. The encoder of Request System Code lives in a file
      that is not part of this model, so it is a parameter. */
  function Encode(c: Command, encodeRequestSystemCode: Idm -> seq<byte>): (r: seq<byte>)
    ensures !c.RequestSystemCode? ==> |r| >= 5 && r[0] == CommandCode(c)
    ensures c.RequestSystemCode? ==> r == encodeRequestSystemCode(c.idm)
  {
    match c
    case Polling(sc, rc, ts) => EncodePolling(sc, rc, ts)
    case ReadWithoutEncryption(idm, services, blocks) => EncodeRead(idm, services, blocks)
    case WriteWithoutEncryption(idm, service, block, data) => EncodeWrite(idm, service, block, data)
    case WriteWithoutEncryptionMulti(idm, services, blocks, data) => EncodeWriteMulti(idm, services, blocks, data)
    case RequestService(idm, nodeCodes) => EncodeRequestService(idm, nodeCodes)
    case RequestResponse(idm) => EncodeRequestResponse(idm)
    case RequestSystemCode(idm) => encodeRequestSystemCode(idm)
    case SearchServiceCode(idm, index) => EncodeSearchServiceCode(idm, index)
  }

  /** The single-block write is the multi-block write of one-element lists. */
  lemma WriteIsSingletonMulti(idm: Idm, service: ServiceCode, block: BlockElement, data: BlockData, sys: Idm -> seq<byte>)
    ensures Encode(WriteWithoutEncryption(idm, service, block, data), sys)
         == Encode(WriteWithoutEncryptionMulti(idm, [service], [block], [data]), sys)
  {
  }

  // ---- a card-side reading of the commands ----

  /** The fields a card reads out of a Read or Write command payload. */
  datatype BlockCommandFields = BlockCommandFields(
    code: byte, idm: Idm, services: seq<ServiceCode>, elements: seq<seq<byte>>, data: seq<byte>)

  function ToServiceCodes(vs: seq<u16>): (r: seq<ServiceCode>)
    ensures |r| == |vs|
  {
    seq(|vs|, i requires 0 <= i < |vs| => ServiceCode(vs[i]))
  }

  function Triples(p: seq<byte>, at: nat, m: nat): (r: seq<seq<byte>>)
    requires at + 3 * m <= |p|
    ensures |r| == m
    decreases m
  {
    if m == 0 then [] else [p[at..at + 3]] + Triples(p, at + 3, m - 1)
  }

  /** Reads a block-list command the way a card does: code, IDm, a counted
      service list, a counted list of 3-byte elements, then whatever follows. */
  function ParseBlockCommand(p: seq<byte>): Option<BlockCommandFields>
  {
    if |p| < 10 then None
    else ParseLists(p[0], Idm(p[1..9]), p[9], p[10..])
  }

  /** The service list of `n` codes at the front of `r`, then the elements. */
  function ParseLists(code: byte, idm: Idm, n: nat, r: seq<byte>): Option<BlockCommandFields>
  {
    if |r| < 2 * n + 1 then None
    else
      var rest := r[2 * n..];
      ParseElements(code, idm, ToServiceCodes(FromLeAt(r, 0, n)), rest[0], rest[1..])
  }

  /** The `m` elements at the front of `r`, then whatever follows. */
  function ParseElements(code: byte, idm: Idm, services: seq<ServiceCode>, m: nat, r: seq<byte>): Option<BlockCommandFields>
  {
    if |r| < 3 * m then None
    else Some(BlockCommandFields(code, idm, services, Triples(r, 0, m), r[3 * m..]))
  }

  /** Reads a Request Service command: code, IDm, a counted node-code list. */
  function ParseRequestService(p: seq<byte>): Option<(byte, Idm, seq<u16>)>
  {
    if |p| < 10 || |p| != 10 + 2 * p[9] as int then None
    else Some((p[0], Idm(p[1..9]), FromLeAt(p, 10, p[9])))
  }

  function Encodings(blocks: seq<BlockElement>): (r: seq<seq<byte>>)
    ensures |r| == |blocks|
  {
    if |blocks| == 0 then [] else [blocks[0].Encode()] + Encodings(blocks[1..])
  }

  lemma CodesRoundTrip(services: seq<ServiceCode>)
    ensures ToServiceCodes(Codes(services)) == services
  {
  }

  /** Triples read where a block list was written are the elements'
      encodings. */
  lemma {:induction false} TriplesRead(blocks: seq<BlockElement>, p: seq<byte>, at: nat)
    requires at + 3 * |blocks| <= |p| && p[at..at + 3 * |blocks|] == BlockList(blocks)
    ensures Triples(p, at, |blocks|) == Encodings(blocks)
    decreases |blocks|
  {
    if |blocks| > 0 {
      var q := p[at..at + 3 * |blocks|];
      var rest := BlockList(blocks[1..]);
      assert q == blocks[0].Encode() + rest;
      assert p[at..at + 3] == blocks[0].Encode() by {
        assert p[at..at + 3] == q[..3];
      }
      assert p[at + 3..at + 3 + 3 * |blocks[1..]|] == rest by {
        assert p[at + 3..at + 3 + 3 * |blocks[1..]|] == q[3..];
      }
      TriplesRead(blocks[1..], p, at + 3);
    }
  }

  /** A card reads back every field of the block layout, provided both lists
      are shorter than 256 entries. */
  lemma ParseLayout(code: byte, idm: Idm, services: seq<ServiceCode>, blocks: seq<BlockElement>, tail: seq<byte>)
    requires |services| < 0x100 && |blocks| < 0x100
    ensures ParseBlockCommand(BlockLayout(code, idm, services, blocks, tail))
         == Some(BlockCommandFields(code, idm, services, Encodings(blocks), tail))
  {
    HeaderFields(code, idm, TruncU8(|services|), ListsLayout(services, blocks, tail));
    ParseListsLayout(code, idm, services, blocks, tail);
  }

  /** The fields of a ten-byte command header. */
  lemma HeaderFields(code: byte, idm: Idm, n: byte, rest: seq<byte>)
    ensures var p := [code] + idm.bytes + [n] + rest;
      p[1..9] == idm.bytes && p[9] == n && p[10..] == rest
  {
    var head := [code] + idm.bytes + [n];
    var p := head + rest;
    assert |head| == 10;
    forall k | 1 <= k < 9
      ensures p[k] == idm.bytes[k - 1]
    {
      assert p[k] == head[k];
    }
    assert p[9] == head[9];
    SplitAt(head, rest);
  }

  lemma ParseListsLayout(code: byte, idm: Idm, services: seq<ServiceCode>, blocks: seq<BlockElement>, tail: seq<byte>)
    requires |blocks| < 0x100
    ensures ParseLists(code, idm, |services|, ListsLayout(services, blocks, tail))
         == Some(BlockCommandFields(code, idm, services, Encodings(blocks), tail))
  {
    var r := ListsLayout(services, blocks, tail);
    var n := |services|;
    var e := ElementsLayout(blocks, tail);
    SplitAt(ServiceList(services), e);
    assert ToServiceCodes(FromLeAt(r, 0, n)) == services by {
      assert r[0..2 * n] == LeList(Codes(services));
      LeListRoundTrip(Codes(services), r, 0);
      CodesRoundTrip(services);
    }
    assert r[2 * n..] == e;
    assert e[0] == |blocks| && e[1..] == BlockList(blocks) + tail;
    ParseElementsLayout(code, idm, services, blocks, tail);
  }

  lemma ParseElementsLayout(code: byte, idm: Idm, services: seq<ServiceCode>, blocks: seq<BlockElement>, tail: seq<byte>)
    ensures ParseElements(code, idm, services, |blocks|, BlockList(blocks) + tail)
         == Some(BlockCommandFields(code, idm, services, Encodings(blocks), tail))
  {
    var r := BlockList(blocks) + tail;
    SplitAt(BlockList(blocks), tail);
    assert r[0..3 * |blocks|] == BlockList(blocks);
    TriplesRead(blocks, r, 0);
  }

  lemma SplitAt<T>(x: seq<T>, y: seq<T>)
    ensures (x + y)[..|x|] == x && (x + y)[|x|..] == y
  {
  }

  /** While both lists are shorter than 256 entries, a card reads back
      exactly the IDm, services and block elements a Read command was built
      from, with nothing after them. */
  lemma ReadCommandRoundTrip(idm: Idm, services: seq<ServiceCode>, blocks: seq<BlockElement>)
    requires |services| < 0x100 && |blocks| < 0x100
    ensures ParseBlockCommand(EncodeRead(idm, services, blocks))
         == Some(BlockCommandFields(0x06, idm, services, Encodings(blocks), []))
  {
    ParseLayout(0x06, idm, services, blocks, []);
  }

  /** The same for a multi-block Write, whose data blocks follow the element
      list. */
  lemma WriteCommandRoundTrip(idm: Idm, services: seq<ServiceCode>, blocks: seq<BlockElement>, data: seq<BlockData>)
    requires |services| < 0x100 && |blocks| < 0x100
    ensures ParseBlockCommand(EncodeWriteMulti(idm, services, blocks, data))
         == Some(BlockCommandFields(0x08, idm, services, Encodings(blocks), DataList(data)))
  {
    ParseLayout(0x08, idm, services, blocks, DataList(data));
  }

  /** A card reads back the IDm and node codes of a Request Service command
      with fewer than 256 nodes. */
  lemma RequestServiceRoundTrip(idm: Idm, nodeCodes: seq<u16>)
    requires |nodeCodes| < 0x100
    ensures ParseRequestService(EncodeRequestService(idm, nodeCodes)) == Some((0x02, idm, nodeCodes))
  {
    var p := EncodeRequestService(idm, nodeCodes);
    assert p[9] == |nodeCodes| && p[1..9] == idm.bytes;
    assert p[10..10 + 2 * |nodeCodes|] == LeList(nodeCodes);
    LeListRoundTrip(nodeCodes, p, 10);
  }

  /** The first byte of every payload whose encoder is part of this model is
      the command's code. */
  lemma FirstByteIsCommandCode(c: Command, sys: Idm -> seq<byte>)
    requires !c.RequestSystemCode?
    ensures Encode(c, sys)[0] == CommandCode(c)
  {
  }

  /** With 256 services the count byte wraps to zero, so the card reads an
      empty service list. */
  lemma ServiceCountWraps(idm: Idm, services: seq<ServiceCode>, blocks: seq<BlockElement>)
    requires |services| == 0x100
    ensures EncodeRead(idm, services, blocks)[9] == 0
  {
  }

  /** Unit-test vector of `encode_polling` and `Command::encode`. */
  lemma PollingVector(sys: Idm -> seq<byte>)
    ensures Encode(Polling(SystemCode(0x1234), 1, 0), sys) == [0x00, 0x34, 0x12, 0x01, 0x00]
  {
  }

  /** Unit-test vector of `encode_read`. */
  lemma ReadVector()
    ensures EncodeRead(Idm([1, 2, 3, 4, 5, 6, 7, 8]), [ServiceCode(0x090F)], [BlockElement(0, DirectAccessOrRead, 0x0012)])
         == [0x06, 1, 2, 3, 4, 5, 6, 7, 8, 1, 0x0F, 0x09, 1, 0, 2, 0x12]
  {
    var b := BlockElement(0, DirectAccessOrRead, 0x0012);
    assert BlockList([b]) == b.Encode() + BlockList([]);
    var sv := [ServiceCode(0x090F)];
    assert Codes(sv) == [0x090F];
    assert LeList([0x090F]) == ToLe(0x090F) + LeList([]);
  }

  /** Unit-test vectors of the two service encoders and the search encoder. */
  lemma ServiceVectors()
    ensures EncodeRequestService(Idm([1, 2, 3, 4, 5, 6, 7, 8]), [0x1001, 0x1002])
         == [0x02, 1, 2, 3, 4, 5, 6, 7, 8, 2, 0x01, 0x10, 0x02, 0x10]
    ensures EncodeRequestResponse(Idm([9, 9, 9, 9, 9, 9, 9, 9])) == [0x04, 9, 9, 9, 9, 9, 9, 9, 9]
    ensures EncodeSearchServiceCode(Idm([1, 1, 2, 2, 3, 3, 4, 4]), 0x0010) == [0x0A, 1, 1, 2, 2, 3, 3, 4, 4, 0x10, 0x00]
  {
    assert LeList([0x1001, 0x1002]) == [0x01, 0x10, 0x02, 0x10] by {
      assert [0x1001, 0x1002][1..] == [0x1002];
      assert LeList([0x1002]) == ToLe(0x1002) + LeList([]);
    }
  }

  /** The single-block write vector: 32 bytes ending in the block data. */
  lemma WriteVector()
    ensures EncodeWrite(Idm([1, 2, 3, 4, 5, 6, 7, 8]), ServiceCode(0x090F), BlockElement(0, DirectAccessOrRead, 0x0012), BlockData(Repeat(0x5A, 16)))
         == [0x08, 1, 2, 3, 4, 5, 6, 7, 8, 1, 0x0F, 0x09, 1, 0, 2, 0x12] + Repeat(0x5A, 16)
  {
    var b := BlockElement(0, DirectAccessOrRead, 0x0012);
    assert BlockList([b]) == b.Encode() + BlockList([]);
    var d := BlockData(Repeat(0x5A, 16));
    assert DataList([d]) == d.bytes + DataList([]);
    assert Codes([ServiceCode(0x090F)]) == [0x090F];
    assert LeList([0x090F]) == ToLe(0x090F) + LeList([]);
  }
}
