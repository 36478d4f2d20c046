/**
 * The parser itself: the static line buffer `rule`, the routines that fill
 * and scan it in place, and the field dispatch that answers one query.
 */
module IpFwAcc {
  import opened Bits
  import opened Bytes
  import opened Numerals
  import opened Columns
  import opened LineSource
  import opened Fields

  datatype Option<T> = None | Some(value: T)

  /** The process-wide buffer one line of `/proc/net/ip_acct` is read into. */
  class RuleBuffer {
    const rule: array<byte>

    ghost predicate Valid()
    {
      rule.Length == IPFWRULELEN
    }

    /** A static buffer starts out zero-filled. */
    constructor ()
      ensures Valid() && fresh(rule)
      ensures rule[..] == seq(IPFWRULELEN, _ => NUL)
    {
      rule := new byte[IPFWRULELEN](_ => NUL);
    }

    /** One successful `fgets(rule, IPFWRULELEN, f)` that read the chunk `c`. */
    method Read(c: Chunk)
      requires Valid()
      modifies rule
      ensures rule[..] == Fgets(old(rule[..]), c)
    {
      var b := Fgets(rule[..], c);
      forall j | 0 <= j < IPFWRULELEN {
        rule[j] := b[j];
      }
    }

    /**
     * `readrule(number)`: reads the header and then line after line until
     * line `number` is in the buffer, or to the end of the source when
     * `number` is 0, and returns the number of the line read, the count of
     * lines for `number == 0`, or 0 when the source is unavailable or too
     * short.
     */
    method ReadRule(src: Source, number: nat) returns (r: nat)
      requires Valid() && number < UINT_MODULUS
      modifies rule
      ensures r == ReadRuleResult(src, number)
      ensures rule[..] == Loaded(old(rule[..]), src, number)
    {
      if src.Unavailable? {
        return 0;
      }
      var cs := src.chunks;
      ghost var buf := rule[..];
      if |cs| == 0 {
        assert cs[..0] == [];
        return 0;
      }
      Read(cs[0]);
      assert cs[..1] == [] + [cs[0]];
      LoadAllSnoc(buf, [], cs[0]);
      var i := 1;
      while i != number
        invariant 1 <= i <= |cs|
        invariant number > 0 ==> i <= number
        invariant rule[..] == LoadAll(buf, cs[..i])
        decreases if number == 0 then |cs| - i else number - i
      {
        if i == |cs| {
          assert cs[..i] == cs;
          return if number != 0 then 0 else i - 1;
        }
        Read(cs[i]);
        assert cs[..i + 1] == cs[..i] + [cs[i]];
        LoadAllSnoc(buf, cs[..i], cs[i]);
        i := i + 1;
      }
      if i == |cs| {
        assert cs[..i] == cs;
        return 0;
      }
      Read(cs[i]);
      assert cs[..i + 1] == cs[..i] + [cs[i]];
      LoadAllSnoc(buf, cs[..i], cs[i]);
      return i;
    }

    /** `while (rule[i] != ' ' && i < bound) i++;` */
    method ToSpace(from: nat, bound: nat) returns (i: nat)
      requires Valid() && from < IPFWRULELEN && bound < IPFWRULELEN
      ensures i == ScanToSpace(rule[..], from, bound)
    {
      i := from;
      while rule[i] != SPACE && i < bound
        invariant from <= i < IPFWRULELEN
        invariant ScanToSpace(rule[..], i, bound) == ScanToSpace(rule[..], from, bound)
        decreases bound - i
      {
        i := i + 1;
      }
    }

    /** `while (rule[i] == ' ' && i < bound) i++;` */
    method OverSpaces(from: nat, bound: nat) returns (i: nat)
      requires Valid() && from < IPFWRULELEN && bound < IPFWRULELEN
      ensures i == SkipSpaces(rule[..], from, bound)
    {
      i := from;
      while rule[i] == SPACE && i < bound
        invariant from <= i < IPFWRULELEN
        invariant SkipSpaces(rule[..], i, bound) == SkipSpaces(rule[..], from, bound)
        decreases bound - i
      {
        i := i + 1;
      }
    }

    /**
     * `atoip(pos)`: the 8 hex digits at `pos`, two at a time, the first pair
     * being the least significant byte.
     */
    method AtoIp(pos: nat) returns (v: nat)
      requires Valid() && pos + 8 <= IPFWRULELEN
      ensures v == DecodeIp(rule[pos..pos + 8])
    {
      ghost var f := rule[pos..pos + 8];
      ghost var k := 0;
      v := 0;
      var p := pos;
      var i := 0;
      while i < 32
        invariant 0 <= k <= 4 && i == 8 * k && p == pos + 2 * k
        invariant v == IpAccum(f, k)
      {
        var value := DigitPair(p);
        p := p + 2;
        assert rule[p - 2] == f[2 * k] && rule[p - 1] == f[2 * k + 1];
        IpAccumStep(f, k);
        v := BitOr(v, (value * Pow2(i)) % ULONG_MODULUS);
        i := i + 8;
        k := k + 1;
      }
    }

    /** One round of `atoip`: the two hex digits at `p`, the first shifted left by 4. */
    method DigitPair(p: nat) returns (value: nat)
      requires Valid() && p + 1 < IPFWRULELEN
      ensures value == PairValue(rule[p], rule[p + 1])
    {
      value := HexDigit(rule[p]) % ULONG_MODULUS;
      ULongMulAdd(HexDigit(rule[p]), 16, HexDigit(rule[p + 1]));
      value := (value * 16 + HexDigit(rule[p + 1])) % ULONG_MODULUS;
    }

    /** The position of the first column after the via address, as both scans find it. */
    method FindFlags() returns (i: nat)
      requires Valid()
      ensures i == FlagsPos(rule[..])
    {
      i := ToSpace(VIA_NAME_POS, COLUMN_SCAN_LIMIT);
      i := i + VIA_ADDR_STRIDE;
    }

    /** The column starting at `from` read as hex: the loop of `getflags`. */
    method HexColumn(from: nat) returns (v: nat)
      requires Valid() && from < IPFWRULELEN
      ensures v == HexValue(rule[from..ColumnEnd(rule[..], from)]) % ULONG_MODULUS
    {
      ghost var s: Buffer := rule[..];
      var i := from;
      v := 0;
      while rule[i] != SPACE && i < LAST_INDEX
        invariant from <= i <= ColumnEnd(s, from)
        invariant ScanToSpace(s, i, LAST_INDEX) == ColumnEnd(s, from)
        invariant v == HexValue(s[from..i]) % ULONG_MODULUS
        decreases LAST_INDEX - i
      {
        ULongMulAdd(HexValue(s[from..i]), 16, HexDigit(rule[i]));
        assert s[from..i + 1][..i - from] == s[from..i];
        v := (v * 16 + HexDigit(rule[i])) % ULONG_MODULUS;
        i := i + 1;
      }
    }

    /** The column starting at `from` read as decimal: the final loop of `getnumeric`. */
    method DecColumn(from: nat) returns (v: nat)
      requires Valid() && from < IPFWRULELEN
      ensures v == DecValue(rule[from..ColumnEnd(rule[..], from)]) % ULONG_MODULUS
    {
      ghost var s: Buffer := rule[..];
      var i := from;
      v := 0;
      while rule[i] != SPACE && i < LAST_INDEX
        invariant from <= i <= ColumnEnd(s, from)
        invariant ScanToSpace(s, i, LAST_INDEX) == ColumnEnd(s, from)
        invariant v == DecValue(s[from..i]) % ULONG_MODULUS
        decreases LAST_INDEX - i
      {
        ULongMulAdd(DecValue(s[from..i]), 10, DecDigit(rule[i]));
        assert s[from..i + 1][..i - from] == s[from..i];
        v := (v * 10 + rule[i] as int - DIGIT_0 as int) % ULONG_MODULUS;
        i := i + 1;
      }
    }

    /** The skip loop of `getnumeric`: `skip` times over a column and the spaces after it. */
    method Skip(from: nat, skip: int) returns (i: nat)
      requires Valid() && from < IPFWRULELEN
      ensures i == SkipColumns(rule[..], from, skip)
    {
      i := from;
      var left := skip;
      while left > 0
        invariant i < IPFWRULELEN
        invariant SkipColumns(rule[..], i, left) == SkipColumns(rule[..], from, skip)
        decreases left
      {
        left := left - 1;
        i := ToSpace(i, SKIP_SCAN_LIMIT);
        i := OverSpaces(i, LAST_INDEX);
      }
    }

    /** `getflags()`: the flags column read as hex. */
    method GetFlags() returns (flags: nat)
      requires Valid()
      ensures flags == FlagsValue(rule[..])
    {
      var f := FindFlags();
      flags := HexColumn(f);
    }

    /** `getnumeric(skip)`: the column `skip` columns after the flags read as decimal. */
    method GetNumeric(skip: int) returns (v: nat)
      requires Valid()
      ensures v == NumericValue(rule[..], skip)
    {
      var f := FindFlags();
      var n := Skip(f, skip);
      v := DecColumn(n);
    }

    /**
     * The via-name field: ends the via name with a NUL written over the
     * space after it (or over the last byte) and gives the bytes from
     * column 37 up to it.
     */
    method ReadViaName() returns (name: seq<byte>)
      requires Valid()
      modifies rule
      ensures name == ViaNameText(old(rule[..]))
      ensures rule[..] == old(rule[..])[ViaNameEnd(old(rule[..]), LAST_INDEX) := NUL]
    {
      var i := ToSpace(VIA_NAME_POS, LAST_INDEX);
      rule[i] := NUL;
      name := rule[VIA_NAME_POS..i];
    }

    /** The via-address field: `atoip` just past the via name. */
    method ReadViaAddr() returns (v: nat)
      requires Valid()
      ensures v == ViaAddrValue(rule[..])
    {
      var i := ToSpace(VIA_NAME_POS, ADDR_SCAN_LIMIT);
      v := AtoIp(i + 1);
    }

    /**
     * One query of the agent: load rule `index` (the last sub-identifier of
     * the object asked for, cut to an `unsigned int` for `readrule`) and, if
     * it was found, give `field` of it; None when `readrule` returns 0.
     */
    method Query(src: Source, index: nat, field: Field) returns (r: Option<Value>)
      requires Valid() && index < ULONG_MODULUS
      modifies rule
      ensures var number := index % UINT_MODULUS;
              var loaded := Loaded(old(rule[..]), src, number);
              if ReadRuleResult(src, number) == 0 then
                r == None && rule[..] == loaded
              else
                r == Some(FieldValue(loaded, index, field)) &&
                rule[..] == if field.ViaName? then loaded[ViaNameEnd(loaded, LAST_INDEX) := NUL] else loaded
    {
      var found := ReadRule(src, index % UINT_MODULUS);
      if found == 0 {
        return None;
      }
      var v := Answer(index, field);
      r := Some(v);
    }

    /** The switch on the field asked for, over the rule in the buffer. */
    method Answer(index: nat, field: Field) returns (v: Value)
      requires Valid()
      modifies rule
      ensures v == FieldValue(old(rule[..]), index, field)
      ensures rule[..] == if field.ViaName? then old(rule[..])[ViaNameEnd(old(rule[..]), LAST_INDEX) := NUL]
                          else old(rule[..])
    {
      if field.ViaName? {
        var t := ReadViaName();
        v := Text(t);
      } else {
        v := Lookup(index, field);
      }
    }

    /** Every field but the via name, which is the only one that writes to the buffer. */
    method Lookup(index: nat, field: Field) returns (v: Value)
      requires Valid() && !field.ViaName?
      ensures v == FieldValue(rule[..], index, field)
    {
      if IsFlagField(field) {
        var flags := GetFlags();
        v := Number(FlagCode(flags, field));
      } else if IsCounterField(field) {
        var n := GetNumeric(CounterSkip(field));
        v := Number(n);
      } else {
        match field
        case Index =>
          v := Number(index);
        case SrcAddr =>
          var a := AtoIp(SRC_ADDR_POS);
          v := Number(a);
        case SrcMask =>
          var a := AtoIp(SRC_MASK_POS);
          v := Number(a);
        case DstAddr =>
          var a := AtoIp(DST_ADDR_POS);
          v := Number(a);
        case DstMask =>
          var a := AtoIp(DST_MASK_POS);
          v := Number(a);
        case ViaAddr =>
          var a := ReadViaAddr();
          v := Number(a);
      }
    }
  }
}
