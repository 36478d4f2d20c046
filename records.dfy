/**
 * Accounting rules as the kernel lists them, one line each:
 *
 *   SSSSSSSS/MMMMMMMM->DDDDDDDD/MMMMMMMM name AAAAAAAA FLAGS nsp ndp pkts bytes p1 .. p10
 *
 * and the fact that, on such a line, every field the agent serves is the
 * value the rule holds.
 */
module Records {
  import opened Bits
  import opened Bytes
  import opened Numerals
  import opened Columns
  import opened FlagCodes
  import opened LineSource
  import opened Fields

  const SLASH: byte := 47
  const DASH: byte := 45
  const GREATER: byte := 62

  /** Number of port columns of a rule. */
  const PORT_COLUMNS: nat := 10

  /** One accounting rule: addresses and masks, the via interface, flags and counters. */
  datatype Rule = Rule(src: nat, srcMask: nat, dst: nat, dstMask: nat,
                       viaName: seq<byte>, viaAddr: nat, flags: nat,
                       srcPorts: nat, dstPorts: nat, packets: nat, bytes: nat,
                       ports: seq<nat>)

  /** Addresses are 32-bit, counters fit an `unsigned long`, the via name is one column. */
  predicate WellFormed(r: Rule)
  {
    r.src < UINT_MODULUS && r.srcMask < UINT_MODULUS &&
    r.dst < UINT_MODULUS && r.dstMask < UINT_MODULUS && r.viaAddr < UINT_MODULUS &&
    NoSpace(r.viaName) &&
    r.flags < ULONG_MODULUS && r.srcPorts < ULONG_MODULUS && r.dstPorts < ULONG_MODULUS &&
    r.packets < ULONG_MODULUS && r.bytes < ULONG_MODULUS &&
    |r.ports| == PORT_COLUMNS && (forall k | 0 <= k < PORT_COLUMNS :: r.ports[k] < ULONG_MODULUS)
  }

  /** The four address words, separated as the kernel prints them, and the space after them. */
  function Addresses(r: Rule): (t: seq<byte>)
    requires WellFormed(r)
    ensures |t| == VIA_NAME_POS
  {
    EncodeIp(r.src) + [SLASH] + EncodeIp(r.srcMask) + [DASH, GREATER] +
    EncodeIp(r.dst) + [SLASH] + EncodeIp(r.dstMask) + [SPACE]
  }

  /** The columns after the via address: flags in hex, the rest in decimal. */
  function Counters(r: Rule): (cols: seq<seq<byte>>)
    requires WellFormed(r)
    ensures |cols| == 5 + PORT_COLUMNS
  {
    [HexText(r.flags), DecText(r.srcPorts), DecText(r.dstPorts), DecText(r.packets), DecText(r.bytes)] +
    seq(PORT_COLUMNS, k requires 0 <= k < PORT_COLUMNS => DecText(r.ports[k]))
  }

  /** The line of rule `r`, its counter columns followed by `pads` spaces each. */
  function Line(r: Rule, pads: seq<nat>): seq<byte>
    requires WellFormed(r) && |pads| == 5 + PORT_COLUMNS
  {
    Addresses(r) + (r.viaName + ([SPACE] + (EncodeIp(r.viaAddr) + ([SPACE] + Layout(Counters(r), pads)))))
  }

  /** The value a query for `field` of rule number `index` should give. */
  function Expected(r: Rule, index: nat, field: Field): Value
    requires WellFormed(r)
  {
    match field
    case Index => Number(index)
    case SrcAddr => Number(r.src)
    case SrcMask => Number(r.srcMask)
    case DstAddr => Number(r.dst)
    case DstMask => Number(r.dstMask)
    case ViaName => Text(r.viaName)
    case ViaAddr => Number(r.viaAddr)
    case Proto => Number(ProtoCode(r.flags))
    case Bidir => Number(BidirCode(r.flags))
    case Dir => Number(DirCode(r.flags))
    case SrcIsRange => Number(SrcRangeCode(r.flags))
    case DstIsRange => Number(DstRangeCode(r.flags))
    case SrcPortCount => Number(r.srcPorts)
    case DstPortCount => Number(r.dstPorts)
    case PacketCount => Number(r.packets)
    case ByteCount => Number(r.bytes)
    case Port(k) => Number(r.ports[k - 1])
  }

  /** The counter columns are digits, hence well separated by any non-empty runs of spaces. */
  lemma CountersSeparated(r: Rule, pads: seq<nat>)
    requires WellFormed(r) && |pads| == 5 + PORT_COLUMNS
    requires forall j | 0 <= j < |pads| :: pads[j] >= 1
    ensures Separated(Counters(r), pads)
    ensures |Layout(Counters(r), pads)| >= 1
  {
    var cols := Counters(r);
    forall j | 0 <= j < |cols| ensures |cols[j]| >= 1 && NoSpace(cols[j]) {
      DigitsHaveNoSpace(cols[j]);
    }
    assert Layout(cols, pads) == cols[0] + Spaces(pads[0]) + Layout(cols[1..], pads[1..]);
  }

  /** The four address words of a line stand at columns 0, 9, 19 and 28. */
  lemma AddressWordsAt(s: Buffer, w1: seq<byte>, w2: seq<byte>, w3: seq<byte>, w4: seq<byte>)
    requires |w1| == 8 && |w2| == 8 && |w3| == 8 && |w4| == 8
    requires At(s, 0, w1 + [SLASH] + w2 + [DASH, GREATER] + w3 + [SLASH] + w4 + [SPACE])
    ensures At(s, SRC_ADDR_POS, w1) && At(s, SRC_MASK_POS, w2)
    ensures At(s, DST_ADDR_POS, w3) && At(s, DST_MASK_POS, w4)
  {
    var t := w1 + [SLASH] + w2 + [DASH, GREATER] + w3 + [SLASH] + w4 + [SPACE];
    assert t[0..8] == w1 && t[9..17] == w2 && t[19..27] == w3 && t[28..36] == w4;
    assert s[0..37] == t;
    assert s[0..8] == t[0..8] && s[9..17] == t[9..17];
    assert s[19..27] == t[19..27] && s[28..36] == t[28..36];
  }

  /** After the via name come a space, the via address word, a space and the counters. */
  lemma TailAt(s: Buffer, p: nat, n: seq<byte>, v: seq<byte>, l: seq<byte>)
    requires |v| == 8
    requires At(s, p, n + ([SPACE] + (v + ([SPACE] + l))))
    ensures At(s, p, n + [SPACE]) && At(s, p + |n| + 1, v) && At(s, p + |n| + 10, l)
  {
    AtConcat(s, p, n, [SPACE] + (v + ([SPACE] + l)));
    AtConcat(s, p + |n|, [SPACE], v + ([SPACE] + l));
    AtConcat(s, p + |n| + 1, v, [SPACE] + l);
    AtConcat(s, p + |n| + 9, [SPACE], l);
    AtConcat(s, p, n, [SPACE]);
  }

  /** Where each part of a line stands in a buffer that starts with the line. */
  lemma LineAt(s: Buffer, r: Rule, pads: seq<nat>)
    requires WellFormed(r) && |pads| == 5 + PORT_COLUMNS
    requires At(s, 0, Line(r, pads))
    ensures At(s, SRC_ADDR_POS, EncodeIp(r.src)) && At(s, SRC_MASK_POS, EncodeIp(r.srcMask))
    ensures At(s, DST_ADDR_POS, EncodeIp(r.dst)) && At(s, DST_MASK_POS, EncodeIp(r.dstMask))
    ensures At(s, VIA_NAME_POS, r.viaName + [SPACE])
    ensures At(s, VIA_NAME_POS + |r.viaName| + 1, EncodeIp(r.viaAddr))
    ensures At(s, VIA_NAME_POS + |r.viaName| + VIA_ADDR_STRIDE, Layout(Counters(r), pads))
  {
    var a, n, v, l := Addresses(r), r.viaName, EncodeIp(r.viaAddr), Layout(Counters(r), pads);
    AtConcat(s, 0, a, n + ([SPACE] + (v + ([SPACE] + l))));
    TailAt(s, VIA_NAME_POS, n, v, l);
    AddressWordsAt(s, EncodeIp(r.src), EncodeIp(r.srcMask), EncodeIp(r.dst), EncodeIp(r.dstMask));
  }

  /** The address word `w` at `p` is read back as the value it encodes. */
  lemma AddressRead(s: Buffer, p: nat, x: nat)
    requires x < UINT_MODULUS && At(s, p, EncodeIp(x))
    ensures p + 8 <= IPFWRULELEN && AddressAt(s, p) == x
  {
    DecodeEncodeIp(x);
  }

  /** Where the parts of the line of `r` stand in the buffer `s`, as the parsers look for them. */
  predicate Listed(s: Buffer, r: Rule, pads: seq<nat>)
    requires WellFormed(r) && |pads| == 5 + PORT_COLUMNS
  {
    At(s, SRC_ADDR_POS, EncodeIp(r.src)) && At(s, SRC_MASK_POS, EncodeIp(r.srcMask)) &&
    At(s, DST_ADDR_POS, EncodeIp(r.dst)) && At(s, DST_MASK_POS, EncodeIp(r.dstMask)) &&
    ViaNameAt(s, r.viaName) && VIA_NAME_POS + |r.viaName| <= COLUMN_SCAN_LIMIT &&
    At(s, VIA_NAME_POS + |r.viaName| + 1, EncodeIp(r.viaAddr)) &&
    ColumnsAt(s, r.viaName, Counters(r), pads)
  }

  /** A buffer that starts with the line of a well-formed rule has its parts where the parsers look. */
  lemma LineListed(s: Buffer, r: Rule, pads: seq<nat>)
    requires WellFormed(r) && |pads| == 5 + PORT_COLUMNS
    requires forall j | 0 <= j < |pads| :: pads[j] >= 1
    requires |Line(r, pads)| < IPFWRULELEN
    requires At(s, 0, Line(r, pads))
    ensures Listed(s, r, pads)
  {
    LineAt(s, r, pads);
    CountersSeparated(r, pads);
    assert |Line(r, pads)| == VIA_NAME_POS + |r.viaName| + VIA_ADDR_STRIDE + |Layout(Counters(r), pads)|;
  }

  /** The four address words are read back as the rule's addresses and masks. */
  lemma AddressFields(s: Buffer, r: Rule, index: nat, field: Field)
    requires WellFormed(r)
    requires At(s, SRC_ADDR_POS, EncodeIp(r.src)) && At(s, SRC_MASK_POS, EncodeIp(r.srcMask))
    requires At(s, DST_ADDR_POS, EncodeIp(r.dst)) && At(s, DST_MASK_POS, EncodeIp(r.dstMask))
    requires field.SrcAddr? || field.SrcMask? || field.DstAddr? || field.DstMask?
    ensures FieldValue(s, index, field) == Expected(r, index, field)
  {
    match field
    case SrcAddr => AddressRead(s, SRC_ADDR_POS, r.src);
    case SrcMask => AddressRead(s, SRC_MASK_POS, r.srcMask);
    case DstAddr => AddressRead(s, DST_ADDR_POS, r.dst);
    case DstMask => AddressRead(s, DST_MASK_POS, r.dstMask);
  }

  /** The via name and the via address are read back as the rule's. */
  lemma ViaFields(s: Buffer, r: Rule, index: nat, field: Field)
    requires WellFormed(r)
    requires ViaNameAt(s, r.viaName) && VIA_NAME_POS + |r.viaName| <= COLUMN_SCAN_LIMIT
    requires At(s, VIA_NAME_POS + |r.viaName| + 1, EncodeIp(r.viaAddr))
    requires field.ViaName? || field.ViaAddr?
    ensures FieldValue(s, index, field) == Expected(r, index, field)
  {
    if field.ViaName? {
      ViaNameTextAt(s, r.viaName);
    } else {
      ViaNameEndAt(s, r.viaName, ADDR_SCAN_LIMIT);
      DecodeEncodeIp(r.viaAddr);
    }
  }

  /** The fields derived from the flags are the codes of the rule's flags. */
  lemma FlagFields(s: Buffer, r: Rule, pads: seq<nat>, index: nat, field: Field)
    requires WellFormed(r) && |pads| == 5 + PORT_COLUMNS
    requires ViaNameAt(s, r.viaName) && VIA_NAME_POS + |r.viaName| <= COLUMN_SCAN_LIMIT
    requires ColumnsAt(s, r.viaName, Counters(r), pads)
    requires IsFlagField(field)
    ensures FieldValue(s, index, field) == Expected(r, index, field)
  {
    FlagsRead(s, r, pads);
  }

  /** The counters and ports are read back as the rule's. */
  lemma CounterFields(s: Buffer, r: Rule, pads: seq<nat>, index: nat, field: Field)
    requires WellFormed(r) && |pads| == 5 + PORT_COLUMNS
    requires ViaNameAt(s, r.viaName) && VIA_NAME_POS + |r.viaName| <= COLUMN_SCAN_LIMIT
    requires ColumnsAt(s, r.viaName, Counters(r), pads)
    requires IsCounterField(field)
    ensures FieldValue(s, index, field) == Expected(r, index, field)
  {
    var x := match field
      case SrcPortCount => r.srcPorts
      case DstPortCount => r.dstPorts
      case PacketCount => r.packets
      case ByteCount => r.bytes
      case Port(k) => r.ports[k - 1];
    assert Expected(r, index, field) == Number(x);
    CounterRead(s, r, pads, CounterSkip(field), x);
    CounterFieldValue(s, index, field);
  }

  /**
   * On a buffer that starts with the line of a well-formed rule, every field
   * is the value the rule holds: the address words, the via name and
   * address, the codes of its flags and each counter, whatever the widths of
   * the runs of spaces between the counters.
   */
  lemma FieldsOfLine(s: Buffer, r: Rule, pads: seq<nat>, index: nat, field: Field)
    requires WellFormed(r) && |pads| == 5 + PORT_COLUMNS
    requires forall j | 0 <= j < |pads| :: pads[j] >= 1
    requires |Line(r, pads)| < IPFWRULELEN
    requires At(s, 0, Line(r, pads))
    ensures FieldValue(s, index, field) == Expected(r, index, field)
  {
    LineListed(s, r, pads);
    if field.SrcAddr? || field.SrcMask? || field.DstAddr? || field.DstMask? {
      AddressFields(s, r, index, field);
    } else if field.ViaName? || field.ViaAddr? {
      ViaFields(s, r, index, field);
    } else if IsFlagField(field) {
      FlagFields(s, r, pads, index, field);
    } else if IsCounterField(field) {
      CounterFields(s, r, pads, index, field);
    }
  }

  /** The flags column of a well-formed line is read back as the rule's flags. */
  lemma FlagsRead(s: Buffer, r: Rule, pads: seq<nat>)
    requires WellFormed(r) && |pads| == 5 + PORT_COLUMNS
    requires ViaNameAt(s, r.viaName) && VIA_NAME_POS + |r.viaName| <= COLUMN_SCAN_LIMIT
    requires ColumnsAt(s, r.viaName, Counters(r), pads)
    ensures FlagsValue(s) == r.flags
  {
    FlagsOfLayout(s, r.viaName, Counters(r), pads);
    HexTextRoundTrip(r.flags);
    ULongFits(r.flags);
  }

  /** Counter column `skip` of a well-formed line is read back as the value `x` printed there. */
  lemma CounterRead(s: Buffer, r: Rule, pads: seq<nat>, skip: nat, x: nat)
    requires WellFormed(r) && |pads| == 5 + PORT_COLUMNS
    requires ViaNameAt(s, r.viaName) && VIA_NAME_POS + |r.viaName| <= COLUMN_SCAN_LIMIT
    requires ColumnsAt(s, r.viaName, Counters(r), pads)
    requires 1 <= skip < 5 + PORT_COLUMNS && Counters(r)[skip] == DecText(x) && x < ULONG_MODULUS
    ensures NumericValue(s, skip) == x
  {
    NumericWellFormed(s, r.viaName, Counters(r), pads, skip);
    DecTextRoundTrip(x);
    ULongFits(x);
  }

  /**
   * When line `number` of the source begins with the line of a well-formed
   * rule, `readrule(number)` finds it and every field of the loaded buffer
   * is the value the rule holds.
   */
  lemma FieldsOfListedRule(buf: Buffer, cs: seq<Chunk>, number: nat, r: Rule, pads: seq<nat>,
                           index: nat, field: Field)
    requires 1 <= number < |cs|
    requires WellFormed(r) && |pads| == 5 + PORT_COLUMNS
    requires forall j | 0 <= j < |pads| :: pads[j] >= 1
    requires At(cs[number], 0, Line(r, pads))
    ensures ReadRuleResult(Available(cs), number) == number
    ensures FieldValue(Loaded(buf, Available(cs), number), index, field) == Expected(r, index, field)
  {
    var s := Loaded(buf, Available(cs), number);
    var line, chunk := Line(r, pads), cs[number];
    ReadRuleLoads(buf, Available(cs), number);
    assert s[..|line|] == chunk[..|line|];
    FieldsOfLine(s, r, pads, index, field);
  }

  /** "eth0". */
  const ETH0: seq<byte> := [101, 116, 104, 48]

  /** A UDP rule on eth0, accounting incoming packets, with 100 packets and 5000 bytes so far. */
  const EXAMPLE: Rule := Rule(0x0100000A, 0x00FFFFFF, 0x0200000A, 0x00FFFFFF,
                              ETH0, 0xFE00000A, 0x1042, 1, 1, 100, 5000,
                              [80, 0, 0, 0, 0, 0, 0, 0, 0, 0])

  /** Its line with one space after each counter. */
  const EXAMPLE_PADS: seq<nat> := seq(5 + PORT_COLUMNS, _ => 1)

  /** The example rule is well formed. */
  lemma ExampleWellFormed()
    ensures WellFormed(EXAMPLE)
  {
    assert NoSpace(ETH0) by {
      forall j | 0 <= j < |ETH0| ensures ETH0[j] != SPACE {
        assert ETH0[j] in {101, 116, 104, 48};
      }
    }
    var ports := EXAMPLE.ports;
    forall k | 0 <= k < PORT_COLUMNS ensures ports[k] < ULONG_MODULUS {
      assert ports[k] <= 80;
    }
  }

  /** The listed example rule answers UDP for its protocol, 5000 for its bytes and eth0 for its interface. */
  lemma ExampleFields(s: Buffer, index: nat)
    requires At(s, 0, Line(EXAMPLE, EXAMPLE_PADS) + [NEWLINE])
    ensures FieldValue(s, index, Proto) == Number(4)
    ensures FieldValue(s, index, ByteCount) == Number(5000)
    ensures FieldValue(s, index, ViaName) == Text(ETH0)
  {
    ExampleWellFormed();
    var line := Line(EXAMPLE, EXAMPLE_PADS);
    AtConcat(s, 0, line, [NEWLINE]);
    FieldsOfLine(s, EXAMPLE, EXAMPLE_PADS, index, Proto);
    FieldsOfLine(s, EXAMPLE, EXAMPLE_PADS, index, ByteCount);
    FieldsOfLine(s, EXAMPLE, EXAMPLE_PADS, index, ViaName);
    ExampleExpected(index);
  }

  /** The values the example rule should give for its protocol, bytes and interface. */
  lemma ExampleExpected(index: nat)
    requires WellFormed(EXAMPLE)
    ensures Expected(EXAMPLE, index, Proto) == Number(4)
    ensures Expected(EXAMPLE, index, ByteCount) == Number(5000)
    ensures Expected(EXAMPLE, index, ViaName) == Text(ETH0)
  {
  }
}
