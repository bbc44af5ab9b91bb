/** The value types of the FeliCa layer: IDm/PMm identifiers, system and
    service codes, 16-byte blocks, access modes, block-list elements and the
    reader models. */
module Types {
  import opened Bytes
  import opened Errors

  type Bytes8 = s: seq<byte> | |s| == 8 witness [0, 0, 0, 0, 0, 0, 0, 0]
  type Bytes16 = s: seq<byte> | |s| == 16
    witness [0, 0, 0, 0, 0, 0, 0, 0, 0, 0, 0, 0, 0, 0, 0, 0]

  /** Manufacture ID of a card (8 bytes). */
  datatype Idm = Idm(bytes: Bytes8)

  /** Manufacture parameter of a card (8 bytes). */
  datatype Pmm = Pmm(bytes: Bytes8)

  /** `Idm::try_from(&[u8])`: only an exactly 8-byte slice is accepted. */
  function IdmFrom(s: seq<byte>): (r: Result<Idm>)
    ensures r.Ok? <==> |s| == 8
    ensures r.Ok? ==> r.value.bytes == s
    ensures r.Err? ==> r.error == InvalidLength(8, |s|)
  {
    if |s| != 8 then Err(InvalidLength(8, |s|)) else Ok(Idm(s))
  }

  /** `Pmm::try_from(&[u8])`, the same rule as for the IDm. */
  function PmmFrom(s: seq<byte>): (r: Result<Pmm>)
    ensures r.Ok? <==> |s| == 8
    ensures r.Ok? ==> r.value.bytes == s
    ensures r.Err? ==> r.error == InvalidLength(8, |s|)
  {
    if |s| != 8 then Err(InvalidLength(8, |s|)) else Ok(Pmm(s))
  }

  /** A 16-bit system code; on the wire it travels low byte first. */
  datatype SystemCode = SystemCode(code: u16) {
    function ToLeBytes(): (r: seq<byte>)
      ensures |r| == 2 && r[0] == code % 0x100 && r[1] == code / 0x100
    {
      ToLe(code)
    }
  }

  const AnySystem := SystemCode(0xFFFF)
  const CommonSystem := SystemCode(0xFE00)
  const SuicaSystem := SystemCode(0x0003)

  /** `SystemCode::from_le_bytes`. */
  function SystemCodeFromLe(lo: byte, hi: byte): (r: SystemCode)
    ensures r.ToLeBytes() == [lo, hi]
  {
    SystemCode(FromLe(lo, hi))
  }

  lemma SystemCodeRoundTrip(sc: SystemCode)
    ensures SystemCodeFromLe(sc.ToLeBytes()[0], sc.ToLeBytes()[1]) == sc
  {
  }

  /** A 16-bit service (or area) code, sent low byte first. */
  datatype ServiceCode = ServiceCode(code: u16) {
    function ToLeBytes(): (r: seq<byte>)
      ensures |r| == 2 && r[0] + 0x100 * r[1] as int == code
    {
      ToLe(code)
    }
  }

  /** One 16-byte FeliCa block. */
  datatype BlockData = BlockData(bytes: Bytes16)

  predicate IsAsciiGraphic(b: byte) { 0x21 <= b <= 0x7E }

  /** `BlockData::to_ascii_safe`: printable ASCII and space pass through,
      anything else is shown as `'.'`. */
  function ToAsciiSafe(block: BlockData): (r: string)
    ensures |r| == 16
    ensures forall i :: 0 <= i < 16 ==> ' ' <= r[i] <= '~'
    ensures forall i :: 0 <= i < 16 ==> (r[i] as int == block.bytes[i] <==> 0x20 <= block.bytes[i] <= 0x7E)
    ensures forall i :: 0 <= i < 16 && !(0x20 <= block.bytes[i] <= 0x7E) ==> r[i] == '.'
  {
    SafeChars(block.bytes)
  }

  function SafeChars(s: seq<byte>): (r: string)
    ensures |r| == |s|
    ensures forall i :: 0 <= i < |s| ==> r[i] == if IsAsciiGraphic(s[i]) || s[i] == 0x20 then s[i] as char else '.'
  {
    if |s| == 0 then []
    else [if IsAsciiGraphic(s[0]) || s[0] == 0x20 then s[0] as char else '.'] + SafeChars(s[1..])
  }

  /** The three reader models the crate drives. */
  datatype DeviceType = S310 | S320 | S330 {
    /** The USB product id of each model. */
    function ProductId(): u16
    {
      match this
      case S310 => 0x006C
      case S320 => 0x01BB
      case S330 => 0x02E1
    }
  }

  /** The model assumed when none is given. */
  const DefaultDeviceType := S320

  /** `DeviceType::from_product_id`. */
  function FromProductId(pid: u16): (r: Option<DeviceType>)
    ensures r.Some? ==> r.value.ProductId() == pid
    ensures r.None? <==> forall d: DeviceType :: d.ProductId() != pid
  {
    match pid
    case 0x006C => Some(S310)
    case 0x01BB => Some(S320)
    case 0x02E1 => Some(S330)
    case _ =>
      assert forall d: DeviceType :: d.ProductId() in {0x006C, 0x01BB, 0x02E1};
      None
  }

  lemma ProductIdRoundTrip(d: DeviceType)
    ensures FromProductId(d.ProductId()) == Some(d)
  {
  }

  /** Access mode of a block-list element, with its `repr(u8)` value. */
  datatype AccessMode = CashBackOrDecrement | DirectAccessOrDecrement | DirectAccessOrRead {
    function ToByte(): (r: byte)
      ensures r <= 2
    {
      match this
      case CashBackOrDecrement => 0
      case DirectAccessOrDecrement => 1
      case DirectAccessOrRead => 2
    }
  }

  /** Distinct access modes have distinct byte values. */
  lemma AccessModeByteInjective(a: AccessMode, b: AccessMode)
    ensures a.ToByte() == b.ToByte() <==> a == b
  {
  }

  /** One entry of a block list. */
  datatype BlockElement = BlockElement(serviceIndex: byte, accessMode: AccessMode, blockNumber: u16) {
    /** `BlockElement::encode`: only the low byte of the block number is sent. */
    function Encode(): (r: seq<byte>)
      ensures |r| == 3 && r[0] == serviceIndex && r[1] <= 2
    {
      [serviceIndex, accessMode.ToByte(), blockNumber % 0x100]
    }
  }

  /** Two block elements encode alike exactly when they agree on the service
      index, the access mode and the low byte of the block number: the high
      byte is lost. */
  lemma BlockElementEncodeIff(a: BlockElement, b: BlockElement)
    ensures a.Encode() == b.Encode() <==>
      (a.serviceIndex == b.serviceIndex && a.accessMode == b.accessMode
       && a.blockNumber % 0x100 == b.blockNumber % 0x100)
  {
    if a.Encode() == b.Encode() {
      assert a.Encode()[1] == b.Encode()[1];
      AccessModeByteInjective(a.accessMode, b.accessMode);
      assert a.Encode()[2] == b.Encode()[2];
    }
  }

  /** Unit-test vectors of types.rs. */
  lemma TypesVectors()
    ensures BlockElement(1, DirectAccessOrRead, 0x1234).Encode() == [1, 2, 0x34]
    ensures BlockElement(2, CashBackOrDecrement, 0x01FF).Encode() == [2, 0, 0xFF]
    ensures FromProductId(0x9999) == None && FromProductId(0x01BB) == Some(S320)
    ensures SystemCodeFromLe(SystemCode(0x1234).ToLeBytes()[0], SystemCode(0x1234).ToLeBytes()[1]).code == 0x1234
    ensures ServiceCode(0x090F).ToLeBytes() == [0x0F, 0x09]
  {
  }
}
