/** Bit-level block and page descriptors (VMSAv8-64 stage 1, 4 KiB granule). */
module XlatDescriptor {

  /** EL2 has one or two VA ranges depending on the virtualization host extensions. */
  datatype Regime = EL1_EL0 | EL2(vhe: bool) | EL3

  datatype MemType = Device | NonCacheable | Memory

  /** The MT_* attributes of a region: type, RW, NS, EXECUTE_NEVER and USER. */
  datatype Attr = Attr(memType: MemType, rw: bool, ns: bool, xn: bool, user: bool)

  const DESC_MASK: bv64 := 3
  const BLOCK_DESC: bv64 := 1
  const PAGE_DESC: bv64 := 3
  const TABLE_ADDR_MASK: bv64 := 0x0000_FFFF_FFFF_F000
  const ACCESS_FLAG: bv64 := 0x400
  const NS: bv64 := 0x20
  const AP_RO: bv64 := 0x80
  const AP1: bv64 := 0x40
  const OSH: bv64 := 0x200
  const ISH: bv64 := 0x300
  const ATTR_INDEX: bv64 := 0xC
  const ATTR_IWBWA_OWBWA_NTR: bv64 := 0x0
  const ATTR_DEVICE: bv64 := 0x4
  const ATTR_NON_CACHEABLE: bv64 := 0x8
  const GP: bv64 := 0x0004_0000_0000_0000
  const XN: bv64 := 0x0040_0000_0000_0000

  /** The bits of `d` selected by `mask`. */
  function Bits(d: bv64, mask: bv64): bv64 { d & mask }

  function XnDesc(regime: Regime): bv64 {
    if regime == EL1_EL0 || regime == EL2(true) then 0x0060_0000_0000_0000 else XN
  }

  /** Every bit of a block or page descriptor except the address. */
  function Fields(regime: Regime, bti: bool, attr: Attr, page: bool): bv64 {
    (if page then PAGE_DESC else BLOCK_DESC) | ACCESS_FLAG
    | (if attr.ns then NS else 0)
    | (if attr.rw then 0 else AP_RO)
    | (if regime == EL1_EL0 then (if attr.user then AP1 else 0) else AP1)
    | match attr.memType
      case Device => ATTR_DEVICE | OSH | XnDesc(regime)
      case Memory =>
        (if attr.rw || attr.xn then XnDesc(regime) else 0)
        | ATTR_IWBWA_OWBWA_NTR | ISH
        | (if bti && !attr.rw && !attr.xn then GP else 0)
      case NonCacheable =>
        (if attr.rw || attr.xn then XnDesc(regime) else 0)
        | ATTR_NON_CACHEABLE | OSH
  }

  function Join(pa: bv64, fields: bv64): bv64 { pa | fields }

  /** The descriptor written for a block or page at `pa`. */
  function XlatDesc(regime: Regime, bti: bool, attr: Attr, pa: bv64, page: bool): bv64 {
    Join(pa, Fields(regime, bti, attr, page))
  }

  function DecodePa(desc: bv64): bv64 { Bits(desc, TABLE_ADDR_MASK) }

  /** The attributes read back from a descriptor. */
  function DecodeAttr(regime: Regime, desc: bv64): Attr {
    var index := Bits(desc, ATTR_INDEX);
    Attr(if index == ATTR_IWBWA_OWBWA_NTR then Memory else if index == ATTR_NON_CACHEABLE then NonCacheable else Device,
         Bits(desc, AP_RO) == 0,
         Bits(desc, NS) != 0,
         Bits(desc, XnDesc(regime)) == XnDesc(regime),
         regime == EL1_EL0 && Bits(desc, AP1) != 0)
  }

  /** What survives of a region's attributes in its descriptors: device and
      writable memory become execute-never, and the user bit is kept only in the
      regime that has user mappings. */
  function Normalise(regime: Regime, attr: Attr): Attr {
    attr.(xn := attr.memType == Device || attr.rw || attr.xn,
          user := regime == EL1_EL0 && attr.user)
  }

  lemma FieldAddress(regime: Regime, bti: bool, attr: Attr, page: bool)
    ensures Bits(Fields(regime, bti, attr, page), TABLE_ADDR_MASK) == 0
    ensures Bits(Fields(regime, bti, attr, page), DESC_MASK) == if page then PAGE_DESC else BLOCK_DESC
  {
  }

  lemma FieldAccess(regime: Regime, bti: bool, attr: Attr, page: bool)
    ensures Bits(Fields(regime, bti, attr, page), AP_RO) == 0 <==> attr.rw
    ensures Bits(Fields(regime, bti, attr, page), NS) != 0 <==> attr.ns
    ensures regime == EL1_EL0 ==> (Bits(Fields(regime, bti, attr, page), AP1) != 0 <==> attr.user)
  {
  }

  lemma FieldIndex(regime: Regime, bti: bool, attr: Attr, page: bool)
    ensures Bits(Fields(regime, bti, attr, page), ATTR_INDEX) ==
            match attr.memType case Device => ATTR_DEVICE case Memory => ATTR_IWBWA_OWBWA_NTR case NonCacheable => ATTR_NON_CACHEABLE
  {
  }

  lemma FieldExecute(regime: Regime, bti: bool, attr: Attr, page: bool)
    ensures Bits(Fields(regime, bti, attr, page), XnDesc(regime)) == if Normalise(regime, attr).xn then XnDesc(regime) else 0
  {
  }

  lemma KeepFields(pa: bv64, f: bv64, regime: Regime)
    requires Bits(pa, !TABLE_ADDR_MASK) == 0
    ensures Bits(Join(pa, f), DESC_MASK) == Bits(f, DESC_MASK)
    ensures Bits(Join(pa, f), ATTR_INDEX) == Bits(f, ATTR_INDEX)
    ensures Bits(Join(pa, f), AP_RO) == Bits(f, AP_RO)
    ensures Bits(Join(pa, f), AP1) == Bits(f, AP1)
    ensures Bits(Join(pa, f), NS) == Bits(f, NS)
    ensures Bits(Join(pa, f), XnDesc(regime)) == Bits(f, XnDesc(regime))
  {
  }

  lemma KeepAddress(pa: bv64, f: bv64)
    requires Bits(pa, !TABLE_ADDR_MASK) == 0 && Bits(f, TABLE_ADDR_MASK) == 0
    ensures Bits(Join(pa, f), TABLE_ADDR_MASK) == pa
  {
  }

  lemma XnNonZero(regime: Regime)
    ensures XnDesc(regime) != 0
  {
  }

  /** Reading back a written descriptor gives its address, its type and the
      normalised attributes, and the execute-never field is never half set. */
  lemma DecodeEncode(regime: Regime, bti: bool, attr: Attr, pa: bv64, page: bool)
    requires Bits(pa, !TABLE_ADDR_MASK) == 0
    ensures var d := XlatDesc(regime, bti, attr, pa, page);
            && DecodePa(d) == pa
            && Bits(d, DESC_MASK) == (if page then PAGE_DESC else BLOCK_DESC)
            && DecodeAttr(regime, d) == Normalise(regime, attr)
            && (Bits(d, XnDesc(regime)) == XnDesc(regime) || Bits(d, XnDesc(regime)) == 0)
  {
    hide Fields, Bits, XnDesc, Join;
    FieldAddress(regime, bti, attr, page);
    FieldAccess(regime, bti, attr, page);
    FieldIndex(regime, bti, attr, page);
    FieldExecute(regime, bti, attr, page);
    XnNonZero(regime);
    KeepFields(pa, Fields(regime, bti, attr, page), regime);
    KeepAddress(pa, Fields(regime, bti, attr, page));
  }

  // ----- The descriptor bit by bit

  /** Every bit that is not one of the fields below. */
  const ADDRESS_BITS: bv64 := 0x0000_FFFF_FFFF_F000
  const OTHER_BITS: bv64 := 0xFF9B_0000_0000_0810

  lemma LowBits(regime: Regime, bti: bool, attr: Attr, page: bool)
    ensures var f := Fields(regime, bti, attr, page);
            && Bits(f, 0x3) == (if page then 3 else 1)
            && Bits(f, 0xC) == (if attr.memType == Device then 0x4 else if attr.memType == NonCacheable then 0x8 else 0)
            && Bits(f, 0x20) == (if attr.ns then 0x20 else 0)
            && Bits(f, 0x40) == (if regime == EL1_EL0 && !attr.user then 0 else 0x40)
            && Bits(f, 0x80) == (if attr.rw then 0 else 0x80)
  {
  }

  lemma HighBits(regime: Regime, bti: bool, attr: Attr, page: bool)
    ensures var f := Fields(regime, bti, attr, page);
            && Bits(f, 0x300) == (if attr.memType == Memory then 0x300 else 0x200)
            && Bits(f, 0x400) == 0x400
            && Bits(f, 0x0004_0000_0000_0000) == (if bti && attr.memType == Memory && !attr.rw && !attr.xn then 0x0004_0000_0000_0000 else 0)
            && Bits(f, 0x0060_0000_0000_0000) == (if !(attr.memType == Device || attr.rw || attr.xn) then 0
                                                  else if regime == EL3 || regime == EL2(false) then 0x0040_0000_0000_0000
                                                  else 0x0060_0000_0000_0000)
            && Bits(f, OTHER_BITS) == 0 && Bits(f, ADDRESS_BITS) == 0
  {
  }

  lemma KeepLow(pa: bv64, f: bv64)
    requires Bits(pa, !ADDRESS_BITS) == 0
    ensures Bits(Join(pa, f), 0x3) == Bits(f, 0x3)
    ensures Bits(Join(pa, f), 0xC) == Bits(f, 0xC)
    ensures Bits(Join(pa, f), 0x20) == Bits(f, 0x20)
    ensures Bits(Join(pa, f), 0x40) == Bits(f, 0x40)
    ensures Bits(Join(pa, f), 0x80) == Bits(f, 0x80)
  {
  }

  lemma KeepHigh(pa: bv64, f: bv64)
    requires Bits(pa, !ADDRESS_BITS) == 0
    ensures Bits(Join(pa, f), 0x300) == Bits(f, 0x300)
    ensures Bits(Join(pa, f), 0x400) == Bits(f, 0x400)
    ensures Bits(Join(pa, f), 0x0004_0000_0000_0000) == Bits(f, 0x0004_0000_0000_0000)
    ensures Bits(Join(pa, f), 0x0060_0000_0000_0000) == Bits(f, 0x0060_0000_0000_0000)
    ensures Bits(Join(pa, f), OTHER_BITS) == Bits(f, OTHER_BITS)
  {
  }

  /** Each field of a block or page descriptor, and nothing beside the fields: the access flag always set;
      shareability inner for ordinary memory and outer otherwise; user access as asked for in the regime that has
      it and AP[1] set in the others; guarded exactly for read-only executable memory with branch target
      identification; and both execute-never bits, or the one the regime has, exactly for device, writable or
      execute-never memory. */
  lemma DescriptorBits(regime: Regime, bti: bool, attr: Attr, pa: bv64, page: bool)
    requires Bits(pa, !ADDRESS_BITS) == 0
    ensures var d := XlatDesc(regime, bti, attr, pa, page);
            && Bits(d, 0x0000_FFFF_FFFF_F000) == pa
            && Bits(d, 0x3) == (if page then 3 else 1)
            && Bits(d, 0xC) == (if attr.memType == Device then 0x4 else if attr.memType == NonCacheable then 0x8 else 0)
            && Bits(d, 0x20) == (if attr.ns then 0x20 else 0)
            && Bits(d, 0x40) == (if regime == EL1_EL0 && !attr.user then 0 else 0x40)
            && Bits(d, 0x80) == (if attr.rw then 0 else 0x80)
            && Bits(d, 0x300) == (if attr.memType == Memory then 0x300 else 0x200)
            && Bits(d, 0x400) == 0x400
            && Bits(d, 0x0004_0000_0000_0000) == (if bti && attr.memType == Memory && !attr.rw && !attr.xn then 0x0004_0000_0000_0000 else 0)
            && Bits(d, 0x0060_0000_0000_0000) == (if !(attr.memType == Device || attr.rw || attr.xn) then 0
                                                  else if regime == EL3 || regime == EL2(false) then 0x0040_0000_0000_0000
                                                  else 0x0060_0000_0000_0000)
            && Bits(d, 0xFF9B_0000_0000_0810) == 0
  {
    LowBits(regime, bti, attr, page);
    HighBits(regime, bti, attr, page);
    hide Fields, Bits, Join;
    var f := Fields(regime, bti, attr, page);
    KeepAddress(pa, f);
    KeepLow(pa, f);
    KeepHigh(pa, f);
  }

  /** The fields and the address make up the whole descriptor, so its bits determine it. */
  lemma FieldsCover(d: bv64, e: bv64)
    requires Bits(d, 0x3) == Bits(e, 0x3) && Bits(d, 0xC) == Bits(e, 0xC) && Bits(d, 0x20) == Bits(e, 0x20)
    requires Bits(d, 0x40) == Bits(e, 0x40) && Bits(d, 0x80) == Bits(e, 0x80) && Bits(d, 0x300) == Bits(e, 0x300)
    requires Bits(d, 0x400) == Bits(e, 0x400) && Bits(d, 0x0004_0000_0000_0000) == Bits(e, 0x0004_0000_0000_0000)
    requires Bits(d, 0x0060_0000_0000_0000) == Bits(e, 0x0060_0000_0000_0000)
    requires Bits(d, 0x0000_FFFF_FFFF_F000) == Bits(e, 0x0000_FFFF_FFFF_F000)
    requires Bits(d, 0xFF9B_0000_0000_0810) == Bits(e, 0xFF9B_0000_0000_0810)
    ensures d == e
  {
  }

  /** The attributes xlat_change_mem_attributes_ctx rebuilds a page with. */
  function ChangedAttr(prev: Attr, attr: Attr): Attr {
    prev.(rw := attr.rw, xn := attr.xn, user := attr.user)
  }

  /** An accepted change installs exactly the requested RW, execute-never and
      user bits, and keeps the memory type and security state. */
  lemma ChangeIsExact(regime: Regime, bti: bool, prev: Attr, attr: Attr, pa: bv64)
    requires Bits(pa, !TABLE_ADDR_MASK) == 0
    requires attr.xn || !attr.rw
    requires prev.memType == Device ==> attr.xn
    ensures DecodeAttr(regime, XlatDesc(regime, bti, ChangedAttr(prev, attr), pa, true)) ==
            Attr(prev.memType, attr.rw, prev.ns, attr.xn, regime == EL1_EL0 && attr.user)
  {
    DecodeEncode(regime, bti, ChangedAttr(prev, attr), pa, true);
  }
}
