/**
 * The flag bits of an accounting rule (fixed by the kernel's rule format)
 * and the small enumerated codes the agent reports for them.
 */
module FlagCodes {
  import opened Bits

  const IP_FW_F_ALL: nat := 0x0000
  const IP_FW_F_TCP: nat := 0x0001
  const IP_FW_F_UDP: nat := 0x0002
  const IP_FW_F_ICMP: nat := 0x0003
  /** Mask of the two bits that say which protocol a rule is for. */
  const IP_FW_F_KIND: nat := 0x0003
  /** The first two source ports are a range. */
  const IP_FW_F_SRNG: nat := 0x0008
  /** The first two destination ports are a range. */
  const IP_FW_F_DRNG: nat := 0x0010
  const IP_FW_F_BIDIR: nat := 0x0040
  /** Account incoming packets only. */
  const IP_FW_F_ACCTIN: nat := 0x1000
  /** Account outgoing packets only. */
  const IP_FW_F_ACCTOUT: nat := 0x2000

  /**
   * The protocol code: 2 for all protocols, 3 for TCP, 4 for UDP, 5 for
   * ICMP; the code 1 ("other") is never produced, as the kind mask has only
   * these four values.
   */
  function ProtoCode(flags: nat): (code: nat)
    ensures code == 2 + flags % 4
  {
    LowMasks(flags);
    var kind := BitAnd(flags, IP_FW_F_KIND);
    if kind == IP_FW_F_ALL then 2
    else if kind == IP_FW_F_TCP then 3
    else if kind == IP_FW_F_UDP then 4
    else if kind == IP_FW_F_ICMP then 5
    else 1
  }

  /** Bidirectional: 2 (true) when bit 6 is set, 1 (false) otherwise. */
  function BidirCode(flags: nat): (code: nat)
    ensures code == if Bit(flags, 6) then 2 else 1
  {
    SingleBitMask(flags, 6);
    Pow2Values();
    if BitAnd(flags, IP_FW_F_BIDIR) != 0 then 2 else 1
  }

  /**
   * Direction: 2 (incoming) when only the account-incoming bit 12 is set,
   * 3 (outgoing) when only the account-outgoing bit 13 is set, and 1 (both
   * directions) when both or neither are set.
   */
  function DirCode(flags: nat): (code: nat)
    ensures code == 2 <==> Bit(flags, 12) && !Bit(flags, 13)
    ensures code == 3 <==> !Bit(flags, 12) && Bit(flags, 13)
    ensures code == 1 <==> (Bit(flags, 12) <==> Bit(flags, 13))
  {
    Pow2Values();
    BitOrDisjoint(IP_FW_F_ACCTIN, 1, 13);
    DoubleBitMask(flags, 12);
    var dir := BitAnd(flags, BitOr(IP_FW_F_ACCTIN, IP_FW_F_ACCTOUT));
    if dir == IP_FW_F_ACCTIN then 2
    else if dir == IP_FW_F_ACCTOUT then 3
    else 1
  }

  /** Source ports form a range: 1 (true) when bit 3 is set, 2 (false) otherwise. */
  function SrcRangeCode(flags: nat): (code: nat)
    ensures code == if Bit(flags, 3) then 1 else 2
  {
    SingleBitMask(flags, 3);
    Pow2Values();
    if BitAnd(flags, IP_FW_F_SRNG) != 0 then 1 else 2
  }

  /** Destination ports form a range: 1 (true) when bit 4 is set, 2 (false) otherwise. */
  function DstRangeCode(flags: nat): (code: nat)
    ensures code == if Bit(flags, 4) then 1 else 2
  {
    SingleBitMask(flags, 4);
    Pow2Values();
    if BitAnd(flags, IP_FW_F_DRNG) != 0 then 1 else 2
  }
}
