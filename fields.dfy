/**
 * The columns the agent serves for one accounting rule, and the value each
 * field has for given buffer contents.
 */
module Fields {
  import opened Bytes
  import opened Columns
  import opened FlagCodes

  /** Which of the ten port columns. */
  type PortNumber = k: nat | 1 <= k <= 10 witness 1

  /** The per-rule fields, one per column the agent answers for. */
  datatype Field =
    | Index | SrcAddr | SrcMask | DstAddr | DstMask | ViaName | ViaAddr
    | Proto | Bidir | Dir | ByteCount | PacketCount | SrcPortCount | DstPortCount
    | SrcIsRange | DstIsRange | Port(k: PortNumber)

  /** A field value: an `unsigned long`, or the bytes of a string. */
  datatype Value = Number(n: nat) | Text(t: seq<byte>)

  /** Fixed columns of the four address words. */
  const SRC_ADDR_POS: nat := 0
  const SRC_MASK_POS: nat := 9
  const DST_ADDR_POS: nat := 19
  const DST_MASK_POS: nat := 28

  /** The address word at the fixed column `p`, as `atoip(p)` reads it. */
  function AddressAt(s: Buffer, p: nat): nat
    requires p + 8 <= IPFWRULELEN
  {
    DecodeIp(s[p..p + 8])
  }

  /** The fields the agent derives from the flags column. */
  predicate IsFlagField(field: Field)
  {
    field.Proto? || field.Bidir? || field.Dir? || field.SrcIsRange? || field.DstIsRange?
  }

  /** The fields the agent reads from the decimal columns after the flags. */
  predicate IsCounterField(field: Field)
  {
    field.SrcPortCount? || field.DstPortCount? || field.PacketCount? || field.ByteCount? || field.Port?
  }

  /** The code a flag field reports for the flags `flags`. */
  function FlagCode(flags: nat, field: Field): nat
    requires IsFlagField(field)
  {
    match field
    case Proto => ProtoCode(flags)
    case Bidir => BidirCode(flags)
    case Dir => DirCode(flags)
    case SrcIsRange => SrcRangeCode(flags)
    case DstIsRange => DstRangeCode(flags)
  }

  /**
   * The argument the agent passes `getnumeric` for a counter field: how many
   * columns after the flags column (column 0) the counter is, in the order
   * source ports, destination ports, packets, bytes and the ten ports.
   */
  function CounterSkip(field: Field): (skip: nat)
    requires IsCounterField(field)
    ensures 1 <= skip < 5 + 10
    ensures field.Port? ==> skip == 4 + field.k
  {
    match field
    case SrcPortCount => 1
    case DstPortCount => 2
    case PacketCount => 3
    case ByteCount => 4
    case Port(k) => 5 + k - 1
  }

  /**
   * The value the agent gives `field` of the rule in buffer `s`, once the
   * rule was found; `index` is the rule number it was asked for.
   */
  function FieldValue(s: Buffer, index: nat, field: Field): Value
  {
    if IsFlagField(field) then Number(FlagCode(FlagsValue(s), field))
    else if IsCounterField(field) then Number(NumericValue(s, CounterSkip(field)))
    else
      match field
      case Index => Number(index)
      case SrcAddr => Number(AddressAt(s, SRC_ADDR_POS))
      case SrcMask => Number(AddressAt(s, SRC_MASK_POS))
      case DstAddr => Number(AddressAt(s, DST_ADDR_POS))
      case DstMask => Number(AddressAt(s, DST_MASK_POS))
      case ViaName => Text(ViaNameText(s))
      case ViaAddr => Number(ViaAddrValue(s))
  }

  /** A counter field is the decimal column `CounterSkip(field)` columns after the flags. */
  lemma CounterFieldValue(s: Buffer, index: nat, field: Field)
    requires IsCounterField(field)
    ensures FieldValue(s, index, field) == Number(NumericValue(s, CounterSkip(field)))
  {
    assert !IsFlagField(field);
  }

  /** `sizeof(unsigned long)` on LP64: the reply length every field starts with. */
  const ULONG_SIZE: nat := 8

  /**
   * The via-name reply as the code leaves it: the reply length stays
   * `sizeof(ret_val)`, so the agent sends the 8 bytes from column 37 of the
   * buffer after the NUL was written, whatever the length of the name.
   */
  function ViaNameReplyAsWritten(s: Buffer): (t: seq<byte>)
    ensures |t| == ULONG_SIZE
  {
    var e := ViaNameEnd(s, LAST_INDEX);
    s[e := NUL][VIA_NAME_POS..VIA_NAME_POS + ULONG_SIZE]
  }

  /**
   * On a well-formed line the reply as written is the name only when it is
   * exactly 8 bytes long: a longer name is cut to 8 bytes, a shorter one is
   * followed by the NUL and the bytes after it.
   */
  lemma ViaNameReplyMismatch(s: Buffer, name: seq<byte>)
    requires ViaNameAt(s, name) && VIA_NAME_POS + |name| <= LAST_INDEX
    ensures ViaNameReplyAsWritten(s) == ViaNameText(s) <==> |name| == ULONG_SIZE
    ensures |name| > ULONG_SIZE ==> ViaNameReplyAsWritten(s) == name[..ULONG_SIZE]
    ensures |name| < ULONG_SIZE ==>
              ViaNameReplyAsWritten(s)[..|name|] == name && ViaNameReplyAsWritten(s)[|name|] == NUL
  {
    ViaNameTextAt(s, name);
    ViaNameEndAt(s, name, LAST_INDEX);
    var e := VIA_NAME_POS + |name|;
    var reply := ViaNameReplyAsWritten(s);
    AtConcat(s, VIA_NAME_POS, name, [SPACE]);
    assert s[VIA_NAME_POS..e] == name;
    assert reply == s[e := NUL][VIA_NAME_POS..VIA_NAME_POS + ULONG_SIZE];
    if |name| >= ULONG_SIZE {
      WindowBeforeEnd(s, e, ULONG_SIZE);
      assert reply[..ULONG_SIZE] == reply;
      assert name[..ULONG_SIZE] == s[VIA_NAME_POS..VIA_NAME_POS + ULONG_SIZE];
      if |name| != ULONG_SIZE {
        assert |reply| != |name|;
      }
    } else {
      WindowBeforeEnd(s, e, |name|);
      assert |reply| != |name|;
    }
  }

  /** The first `n` bytes of the reply window lie before the NUL written at `e`. */
  lemma WindowBeforeEnd(s: Buffer, e: nat, n: nat)
    requires VIA_NAME_POS + n <= e < |s| && n <= ULONG_SIZE
    ensures s[e := NUL][VIA_NAME_POS..VIA_NAME_POS + ULONG_SIZE][..n] == s[VIA_NAME_POS..VIA_NAME_POS + n]
  {
  }
}
