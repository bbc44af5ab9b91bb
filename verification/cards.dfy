/** A detected card: a FeliCa (Type F) card with its IDm, PMm and system
    code, or an ISO 14443 Type A or Type B card with its UID (and ATQB).
    The accessors answer only for the kind of card that has the field. */
module Cards {
  import opened Bytes
  import opened Errors
  import opened Types

  /** The kind of a card, as `card_type` reports it. */
  datatype CardType = FType | AType | BType

  /** `Card`. The UID and ATQB are kept as their bytes. */
  datatype Card =
    | TypeF(idm: Idm, pmm: Pmm, systemCode: SystemCode)
    | TypeA(uid: seq<byte>)
    | TypeB(uid: seq<byte>, atqb: seq<byte>)

  /** `Card::new` and `Card::new_type_f`: both build the same FeliCa card. */
  function NewTypeF(idm: Idm, pmm: Pmm, systemCode: SystemCode): (c: Card)
    ensures Kind(c) == FType
    ensures IdmOf(c) == Some(idm) && PmmOf(c) == Some(pmm) && SystemCodeOf(c) == Some(systemCode)
  {
    TypeF(idm, pmm, systemCode)
  }

  /** `Card::new_type_a`. */
  function NewTypeA(uid: seq<byte>): (c: Card)
    ensures Kind(c) == AType && UidOf(c) == Some(uid) && AtqbOf(c) == None
  {
    TypeA(uid)
  }

  /** `Card::new_type_b`. */
  function NewTypeB(uid: seq<byte>, atqb: seq<byte>): (c: Card)
    ensures Kind(c) == BType && UidOf(c) == Some(uid) && AtqbOf(c) == Some(atqb)
  {
    TypeB(uid, atqb)
  }

  /** `card_type`. */
  function Kind(c: Card): (k: CardType)
    ensures k == FType <==> c.TypeF?
    ensures k == AType <==> c.TypeA?
    ensures k == BType <==> c.TypeB?
  {
    match c
    case TypeF(_, _, _) => FType
    case TypeA(_) => AType
    case TypeB(_, _) => BType
  }

  /** `idm`: present only on a FeliCa card. */
  function IdmOf(c: Card): (r: Option<Idm>)
    ensures r.Some? <==> Kind(c) == FType
    ensures r.Some? ==> r.value == c.idm
  {
    if c.TypeF? then Some(c.idm) else None
  }

  /** `pmm`: present only on a FeliCa card. */
  function PmmOf(c: Card): (r: Option<Pmm>)
    ensures r.Some? <==> Kind(c) == FType
    ensures r.Some? ==> r.value == c.pmm
  {
    if c.TypeF? then Some(c.pmm) else None
  }

  /** `system_code`: present only on a FeliCa card. */
  function SystemCodeOf(c: Card): (r: Option<SystemCode>)
    ensures r.Some? <==> Kind(c) == FType
    ensures r.Some? ==> r.value == c.systemCode
  {
    if c.TypeF? then Some(c.systemCode) else None
  }

  /** `uid`: present on Type A and Type B cards. */
  function UidOf(c: Card): (r: Option<seq<byte>>)
    ensures r.Some? <==> Kind(c) != FType
    ensures r.Some? ==> r.value == c.uid
  {
    match c
    case TypeA(uid) => Some(uid)
    case TypeB(uid, _) => Some(uid)
    case TypeF(_, _, _) => None
  }

  /** `atqb`: present only on a Type B card. */
  function AtqbOf(c: Card): (r: Option<seq<byte>>)
    ensures r.Some? <==> Kind(c) == BType
    ensures r.Some? ==> r.value == c.atqb
  {
    if c.TypeB? then Some(c.atqb) else None
  }

  /** A FeliCa card is exactly what its three accessors report: the card is
      rebuilt from them. */
  lemma FelicaFromAccessors(c: Card)
    requires IdmOf(c).Some?
    ensures PmmOf(c).Some? && SystemCodeOf(c).Some?
    ensures NewTypeF(IdmOf(c).value, PmmOf(c).value, SystemCodeOf(c).value) == c
  {
  }

  /** A Type A or Type B card is rebuilt from its UID and, when it has one,
      its ATQB; the FeliCa fields and the UID never coexist. */
  lemma IsoFromAccessors(c: Card)
    requires UidOf(c).Some?
    ensures IdmOf(c) == None && PmmOf(c) == None && SystemCodeOf(c) == None
    ensures AtqbOf(c).None? ==> NewTypeA(UidOf(c).value) == c
    ensures AtqbOf(c).Some? ==> NewTypeB(UidOf(c).value, AtqbOf(c).value) == c
  {
  }
}
