/**
 * What the parser of one `/proc/net/ip_acct` line computes, as functions of
 * the 200-byte buffer contents. A line looks like
 *
 *   SSSSSSSS/MMMMMMMM->DDDDDDDD/MMMMMMMM name AAAAAAAA FLAGS nsp ndp pkts bytes p1 .. p10
 *
 * with the four address words at fixed columns 0, 9, 19 and 28, the
 * variable-length via name at column 37, and every later column found by
 * scanning from the end of the via name. Every scan stops at a space or at
 * a fixed index bound, so nothing here indexes the buffer at 200 or beyond,
 * whatever the bytes are.
 */
module Columns {
  import opened Bits
  import opened Bytes
  import opened Numerals

  /** Column of the via name. */
  const VIA_NAME_POS: nat := 37
  /** From the space after the via name to the flags column (8 hex digits and a space). */
  const VIA_ADDR_STRIDE: nat := 10
  /** Bound of the via-name scans that lead to the flags and counter columns. */
  const COLUMN_SCAN_LIMIT: nat := IPFWRULELEN - 12
  /** Bound of the via-name scan that leads to the via address. */
  const ADDR_SCAN_LIMIT: nat := IPFWRULELEN - 9
  /** Bound of the scan over a skipped column. */
  const SKIP_SCAN_LIMIT: nat := IPFWRULELEN - 2
  /** Last index of the buffer: bound of the final column scans. */
  const LAST_INDEX: nat := IPFWRULELEN - 1

  // ---------------------------------------------------------------------
  // Cursor scans

  /**
   * `while (s[i] != ' ' && i < bound) i++;` — the first index at or after `i`
   * holding a space, or the bound if that comes first (and `i` itself when
   * `i` already is at or past the bound).
   */
  function ScanToSpace(s: seq<byte>, i: nat, bound: nat): (r: nat)
    requires i < |s| && bound < |s|
    ensures i <= r < |s| && (i <= bound ==> r <= bound)
    ensures forall j | i <= j < r :: s[j] != SPACE && j < bound
    ensures s[r] == SPACE || r >= bound
    decreases bound - i
  {
    if s[i] != SPACE && i < bound then ScanToSpace(s, i + 1, bound) else i
  }

  /**
   * `while (s[i] == ' ' && i < bound) i++;` — the first index at or after `i`
   * holding something other than a space, or the bound if that comes first.
   */
  function SkipSpaces(s: seq<byte>, i: nat, bound: nat): (r: nat)
    requires i < |s| && bound < |s|
    ensures i <= r < |s|
    ensures forall j | i <= j < r :: s[j] == SPACE && j < bound
    ensures s[r] != SPACE || r >= bound
    decreases bound - i
  {
    if s[i] == SPACE && i < bound then SkipSpaces(s, i + 1, bound) else i
  }

  /** The stopping point of a scan to a space is unique. */
  lemma {:induction false} ScanToSpaceIs(s: seq<byte>, i: nat, bound: nat, x: nat)
    requires i <= x < |s| && bound < |s|
    requires forall j | i <= j < x :: s[j] != SPACE && j < bound
    requires s[x] == SPACE || x >= bound
    ensures ScanToSpace(s, i, bound) == x
    decreases x - i
  {
    if i < x {
      assert s[i] != SPACE && i < bound;
      assert forall j | i + 1 <= j < x :: s[j] != SPACE && j < bound;
      ScanToSpaceIs(s, i + 1, bound, x);
    }
  }

  /** The stopping point of a scan over spaces is unique. */
  lemma {:induction false} SkipSpacesIs(s: seq<byte>, i: nat, bound: nat, x: nat)
    requires i <= x < |s| && bound < |s|
    requires forall j | i <= j < x :: s[j] == SPACE && j < bound
    requires s[x] != SPACE || x >= bound
    ensures SkipSpaces(s, i, bound) == x
    decreases x - i
  {
    if i < x {
      assert s[i] == SPACE && i < bound;
      assert forall j | i + 1 <= j < x :: s[j] == SPACE && j < bound;
      SkipSpacesIs(s, i + 1, bound, x);
    }
  }

  /** A column that ends in a space is passed over exactly, as long as it ends below the bound. */
  lemma ScanOverColumn(s: seq<byte>, p: nat, col: seq<byte>, bound: nat)
    requires At(s, p, col + [SPACE]) && NoSpace(col)
    requires p + |col| <= bound < |s|
    ensures ScanToSpace(s, p, bound) == p + |col|
  {
    forall j | p <= j < p + |col| ensures s[j] != SPACE && j < bound {
      AtIndex(s, p, col + [SPACE], j - p);
    }
    AtIndex(s, p, col + [SPACE], |col|);
    ScanToSpaceIs(s, p, bound, p + |col|);
  }

  // ---------------------------------------------------------------------
  // atoip: an address word of 8 hex digits

  /** `(d1 << 4) + d2` in `unsigned long`: the byte one digit pair stands for. */
  function PairValue(hi: byte, lo: byte): nat
  {
    (HexDigit(hi) * 16 + HexDigit(lo)) % ULONG_MODULUS
  }

  /** `ret_val` after the first `k` digit pairs of `f` were or-ed in at bit 8 * pair. */
  function IpAccum(f: seq<byte>, k: nat): (v: nat)
    requires |f| == 8 && k <= 4
    ensures v < ULONG_MODULUS
  {
    if k == 0 then 0
    else
      var prev := IpAccum(f, k - 1);
      var piece := (PairValue(f[2 * k - 2], f[2 * k - 1]) * Pow2(8 * (k - 1))) % ULONG_MODULUS;
      Pow2Values();
      BitOrBound(prev, piece, 64);
      BitOr(prev, piece)
  }

  /** The value `atoip` gives the 8 bytes `f` of an address word. */
  function DecodeIp(f: seq<byte>): (v: nat)
    requires |f| == 8
  {
    IpAccum(f, 4)
  }

  /** The byte the k-th digit pair of a hex word stands for, high digit first. */
  function HexPair(f: seq<byte>, k: nat): int
    requires |f| == 8 && k < 4
  {
    16 * HexDigit(f[2 * k]) + HexDigit(f[2 * k + 1])
  }

  /** The value of the first `k` digit pairs of `f`, pair j weighing 256^j. */
  function HexWord(f: seq<byte>, k: nat): int
    requires |f| == 8 && k <= 4
  {
    if k == 0 then 0 else HexWord(f, k - 1) + HexPair(f, k - 1) * Pow2(8 * (k - 1))
  }

  /** A byte shifted above an n-bit value neither overlaps it nor leaves an `unsigned long`. */
  lemma ShiftedByteFits(w: int, p: int, n: nat)
    requires 0 <= w < Pow2(n) && 0 <= p < 256 && n + 8 <= 64
    ensures 0 <= w + p * Pow2(n) < Pow2(n + 8)
    ensures 0 <= p * Pow2(n) < ULONG_MODULUS
  {
    var q := Pow2(n);
    Pow2Add(n, 8);
    assert Pow2(8) == 256 && Pow2(64) == ULONG_MODULUS by { Pow2Values(); }
    assert Pow2(n + 8) == q * 256;
    MulLe(p, 255, q);
    MulLe(0, p, q);
    Pow2Monotone(n + 8, 64);
  }

  /** Or-ing a byte in above an n-bit value adds it, without wrapping. */
  lemma IpStep(w: int, p: int, n: nat)
    requires 0 <= w < Pow2(n) && 0 <= p < 256 && n + 8 <= 64
    ensures BitOr(w, (p * Pow2(n)) % ULONG_MODULUS) == w + p * Pow2(n)
    ensures 0 <= w + p * Pow2(n) < Pow2(n + 8)
  {
    ShiftedByteFits(w, p, n);
    ULongFits(p * Pow2(n));
    BitOrDisjoint(w, p, n);
  }

  /** Digit pair `k` of 8 uppercase hex digits: `atoip` reads it as the byte it stands for. */
  lemma PairOfHex(f: seq<byte>, k: nat)
    requires |f| == 8 && AllHex(f) && k < 4
    ensures 0 <= HexPair(f, k) < 256 && PairValue(f[2 * k], f[2 * k + 1]) == HexPair(f, k)
  {
    assert IsHexDigit(f[2 * k]) && IsHexDigit(f[2 * k + 1]);
  }

  /** One step of `atoip`: digit pair `k` or-ed in at bit 8 * k. */
  lemma IpAccumStep(f: seq<byte>, k: nat)
    requires |f| == 8 && k < 4
    ensures IpAccum(f, k + 1) ==
            BitOr(IpAccum(f, k), (PairValue(f[2 * k], f[2 * k + 1]) * Pow2(8 * k)) % ULONG_MODULUS)
  {
    assert 2 * (k + 1) - 2 == 2 * k;
  }

  /** One more digit pair of a hex word, at its weight. */
  lemma HexWordStep(f: seq<byte>, k: nat)
    requires |f| == 8 && k < 4
    ensures HexWord(f, k + 1) == HexWord(f, k) + HexPair(f, k) * Pow2(8 * k)
  {
  }

  /** On uppercase hex digits no step of `atoip` wraps and every `|` adds. */
  lemma {:induction false} IpAccumOfHex(f: seq<byte>, k: nat)
    requires |f| == 8 && AllHex(f) && k <= 4
    ensures IpAccum(f, k) == HexWord(f, k)
    ensures 0 <= HexWord(f, k) < Pow2(8 * k)
  {
    if k > 0 {
      var m := k - 1;
      IpAccumOfHex(f, m);
      PairOfHex(f, m);
      IpStep(HexWord(f, m), HexPair(f, m), 8 * m);
      IpAccumStep(f, m);
      HexWordStep(f, m);
      assert 8 * m + 8 == 8 * k;
    }
  }

  /** A little-endian word of four bytes and its bytes. */
  lemma WordBytes(v: int, p0: int, p1: int, p2: int, p3: int)
    requires 0 <= p0 < 256 && 0 <= p1 < 256 && 0 <= p2 < 256 && 0 <= p3 < 256
    requires v == p0 + 0x100 * p1 + 0x1_0000 * p2 + 0x100_0000 * p3
    ensures 0 <= v < 0x1_0000_0000
    ensures v % 0x100 == p0 && v / 0x100 % 0x100 == p1
    ensures v / 0x1_0000 % 0x100 == p2 && v / 0x100_0000 == p3
  {
    var a, b := p1 + 0x100 * p2 + 0x1_0000 * p3, p2 + 0x100 * p3;
    ModUnique(v, a, p0, 0x100);
    ModUnique(a, b, p1, 0x100);
    ModUnique(v, b, p0 + 0x100 * p1, 0x1_0000);
    ModUnique(b, p3, p2, 0x100);
    ModUnique(v, p3, p0 + 0x100 * p1 + 0x1_0000 * p2, 0x100_0000);
  }

  /** All four digit pairs of a word, each at its weight. */
  lemma HexWordFour(f: seq<byte>)
    requires |f| == 8
    ensures HexWord(f, 4) == HexPair(f, 0) * Pow2(0) + HexPair(f, 1) * Pow2(8)
                             + HexPair(f, 2) * Pow2(16) + HexPair(f, 3) * Pow2(24)
  {
    assert HexWord(f, 1) == HexPair(f, 0) * Pow2(0);
    assert HexWord(f, 2) == HexWord(f, 1) + HexPair(f, 1) * Pow2(8);
    assert HexWord(f, 3) == HexWord(f, 2) + HexPair(f, 2) * Pow2(16);
  }

  /** Four bytes at weights 2^0, 2^8, 2^16 and 2^24. */
  lemma PairWeights(p0: int, p1: int, p2: int, p3: int, v: int)
    requires v == p0 * Pow2(0) + p1 * Pow2(8) + p2 * Pow2(16) + p3 * Pow2(24)
    ensures v == p0 + 0x100 * p1 + 0x1_0000 * p2 + 0x100_0000 * p3
  {
    Pow2Values();
  }

  /** On 8 uppercase hex digits, `atoip` sums the four digit pairs at their weights. */
  lemma DecodeIpSum(f: seq<byte>)
    requires |f| == 8 && AllHex(f)
    ensures DecodeIp(f) == HexPair(f, 0) + 0x100 * HexPair(f, 1)
                           + 0x1_0000 * HexPair(f, 2) + 0x100_0000 * HexPair(f, 3)
  {
    IpAccumOfHex(f, 4);
    HexWordFour(f);
    PairWeights(HexPair(f, 0), HexPair(f, 1), HexPair(f, 2), HexPair(f, 3), DecodeIp(f));
  }

  /**
   * On 8 uppercase hex digits, `atoip` gives the 32-bit value whose byte k
   * (counting from the least significant) is the k-th digit pair.
   */
  lemma DecodeIpOfHex(f: seq<byte>)
    requires |f| == 8 && AllHex(f)
    ensures DecodeIp(f) == HexPair(f, 0) + 0x100 * HexPair(f, 1)
                           + 0x1_0000 * HexPair(f, 2) + 0x100_0000 * HexPair(f, 3)
    ensures DecodeIp(f) < 0x1_0000_0000
    ensures DecodeIp(f) % 0x100 == HexPair(f, 0)
    ensures DecodeIp(f) / 0x100 % 0x100 == HexPair(f, 1)
    ensures DecodeIp(f) / 0x1_0000 % 0x100 == HexPair(f, 2)
    ensures DecodeIp(f) / 0x100_0000 == HexPair(f, 3)
  {
    DecodeIpSum(f);
    PairOfHex(f, 0);
    PairOfHex(f, 1);
    PairOfHex(f, 2);
    PairOfHex(f, 3);
    WordBytes(DecodeIp(f), HexPair(f, 0), HexPair(f, 1), HexPair(f, 2), HexPair(f, 3));
  }

  /** Two uppercase hex digits for a byte, high nibble first. */
  function HexByte(b: nat): (t: seq<byte>)
    requires b < 256
    ensures |t| == 2 && AllHex(t)
  {
    [HexChar(b / 16), HexChar(b % 16)]
  }

  /** A 32-bit value written as `atoip` expects it: low byte first, two digits per byte. */
  function EncodeIp(x: nat): (t: seq<byte>)
    requires x < 0x1_0000_0000
    ensures |t| == 8 && AllHex(t)
  {
    HexByte(x % 0x100) + HexByte(x / 0x100 % 0x100)
    + HexByte(x / 0x1_0000 % 0x100) + HexByte(x / 0x100_0000)
  }

  /** The two digits of a byte stand for that byte. */
  lemma HexByteValue(b: nat)
    requires b < 256
    ensures 16 * HexDigit(HexByte(b)[0]) + HexDigit(HexByte(b)[1]) == b
  {
  }

  /** Two uppercase hex digits are the printing of the byte they stand for. */
  lemma HexByteOfDigits(hi: byte, lo: byte)
    requires IsHexDigit(hi) && IsHexDigit(lo)
    ensures 0 <= 16 * HexDigit(hi) + HexDigit(lo) < 256
    ensures HexByte(16 * HexDigit(hi) + HexDigit(lo)) == [hi, lo]
  {
    HexCharOfDigit(hi);
    HexCharOfDigit(lo);
  }

  /** A 32-bit value is the sum of its four bytes, each at its weight. */
  lemma WordOfBytes(x: nat)
    requires x < 0x1_0000_0000
    ensures x == x % 0x100 + 0x100 * (x / 0x100 % 0x100)
                 + 0x1_0000 * (x / 0x1_0000 % 0x100) + 0x100_0000 * (x / 0x100_0000)
  {
  }

  /** Decoding an encoded address word gives the value back. */
  lemma DecodeEncodeIp(x: nat)
    requires x < 0x1_0000_0000
    ensures DecodeIp(EncodeIp(x)) == x
  {
    var b0, b1, b2, b3 := x % 0x100, x / 0x100 % 0x100, x / 0x1_0000 % 0x100, x / 0x100_0000;
    var f := EncodeIp(x);
    assert f == HexByte(b0) + HexByte(b1) + HexByte(b2) + HexByte(b3);
    assert HexPair(f, 0) == b0 by {
      assert f[0] == HexByte(b0)[0] && f[1] == HexByte(b0)[1];
      HexByteValue(b0);
    }
    assert HexPair(f, 1) == b1 by {
      assert f[2] == HexByte(b1)[0] && f[3] == HexByte(b1)[1];
      HexByteValue(b1);
    }
    assert HexPair(f, 2) == b2 by {
      assert f[4] == HexByte(b2)[0] && f[5] == HexByte(b2)[1];
      HexByteValue(b2);
    }
    assert HexPair(f, 3) == b3 by {
      assert f[6] == HexByte(b3)[0] && f[7] == HexByte(b3)[1];
      HexByteValue(b3);
    }
    DecodeIpOfHex(f);
    WordOfBytes(x);
  }

  /** Encoding a decoded uppercase address word gives the word back. */
  lemma EncodeDecodeIp(f: seq<byte>)
    requires |f| == 8 && AllHex(f)
    ensures DecodeIp(f) < 0x1_0000_0000 && EncodeIp(DecodeIp(f)) == f
  {
    DecodeIpOfHex(f);
    PairsOfWord(f);
    var v := DecodeIp(f);
    assert EncodeIp(v) == HexByte(HexPair(f, 0)) + HexByte(HexPair(f, 1))
                          + HexByte(HexPair(f, 2)) + HexByte(HexPair(f, 3));
  }

  /** A word of 8 uppercase hex digits is the printing of its four digit pairs. */
  lemma PairsOfWord(f: seq<byte>)
    requires |f| == 8 && AllHex(f)
    ensures 0 <= HexPair(f, 0) < 256 && 0 <= HexPair(f, 1) < 256
    ensures 0 <= HexPair(f, 2) < 256 && 0 <= HexPair(f, 3) < 256
    ensures HexByte(HexPair(f, 0)) + HexByte(HexPair(f, 1))
            + HexByte(HexPair(f, 2)) + HexByte(HexPair(f, 3)) == f
  {
    PairOfWord(f, 0);
    PairOfWord(f, 1);
    PairOfWord(f, 2);
    PairOfWord(f, 3);
    assert f == f[0..2] + f[2..4] + f[4..6] + f[6..8];
  }

  /** The k-th digit pair of 8 uppercase hex digits is the printing of the byte it stands for. */
  lemma PairOfWord(f: seq<byte>, k: nat)
    requires |f| == 8 && AllHex(f) && k < 4
    ensures 0 <= HexPair(f, k) < 256 && HexByte(HexPair(f, k)) == f[2 * k..2 * k + 2]
  {
    var hi, lo := f[2 * k], f[2 * k + 1];
    assert IsHexDigit(hi) && IsHexDigit(lo);
    HexByteOfDigits(hi, lo);
    assert f[2 * k..2 * k + 2] == [hi, lo];
  }

  // ---------------------------------------------------------------------
  // getflags and getnumeric

  /** Where the via-name scan bounded by `bound` stops. */
  function ViaNameEnd(s: Buffer, bound: nat): (e: nat)
    requires VIA_NAME_POS <= bound < IPFWRULELEN
    ensures VIA_NAME_POS <= e <= bound
  {
    ScanToSpace(s, VIA_NAME_POS, bound)
  }

  /** Where `getflags` and `getnumeric` expect the flags column to start. */
  function FlagsPos(s: Buffer): (f: nat)
    ensures f <= SKIP_SCAN_LIMIT
  {
    ViaNameEnd(s, COLUMN_SCAN_LIMIT) + VIA_ADDR_STRIDE
  }

  /** Where the last scan of `getflags` or `getnumeric` from `i` stops. */
  function ColumnEnd(s: Buffer, i: nat): (e: nat)
    requires i < IPFWRULELEN
    ensures i <= e <= if i < LAST_INDEX then LAST_INDEX else i
  {
    ScanToSpace(s, i, LAST_INDEX)
  }

  /** The value `getflags` returns: the flags column read as hex into an `unsigned long`. */
  function FlagsValue(s: Buffer): nat
  {
    var f := FlagsPos(s);
    HexValue(s[f..ColumnEnd(s, f)]) % ULONG_MODULUS
  }

  /** One repetition of the skip loop: over a column, then over the spaces after it. */
  function SkipStep(s: Buffer, i: nat): (r: nat)
    requires i < IPFWRULELEN
    ensures i <= r < IPFWRULELEN
  {
    SkipSpaces(s, ScanToSpace(s, i, SKIP_SCAN_LIMIT), LAST_INDEX)
  }

  /** `skip` repetitions of the skip loop from `i`. */
  function SkipColumns(s: Buffer, i: nat, skip: int): (r: nat)
    requires i < IPFWRULELEN
    ensures i <= r < IPFWRULELEN
    decreases skip
  {
    if skip <= 0 then i else SkipColumns(s, SkipStep(s, i), skip - 1)
  }

  /** The last repetition comes after the others. */
  lemma {:induction false} SkipColumnsSnoc(s: Buffer, i: nat, k: nat)
    requires i < IPFWRULELEN
    ensures SkipColumns(s, i, k + 1) == SkipStep(s, SkipColumns(s, i, k))
    decreases k
  {
    if k > 0 {
      SkipColumnsSnoc(s, SkipStep(s, i), k - 1);
    }
  }

  /** Where `getnumeric(skip)` expects its column to start. */
  function NumericPos(s: Buffer, skip: int): nat
  {
    SkipColumns(s, FlagsPos(s), skip)
  }

  /** The value `getnumeric(skip)` leaves in `ret_val`: its column read as decimal into an `unsigned long`. */
  function NumericValue(s: Buffer, skip: int): nat
  {
    var n := NumericPos(s, skip);
    DecValue(s[n..ColumnEnd(s, n)]) % ULONG_MODULUS
  }

  /** The value the via-address field gives: `atoip` just past the via name. */
  function ViaAddrValue(s: Buffer): nat
  {
    var e := ViaNameEnd(s, ADDR_SCAN_LIMIT);
    DecodeIp(s[e + 1..e + 9])
  }

  /** The text the via-name field gives: from column 37 up to the byte the NUL is written to. */
  function ViaNameText(s: Buffer): seq<byte>
  {
    s[VIA_NAME_POS..ViaNameEnd(s, LAST_INDEX)]
  }

  // ---------------------------------------------------------------------
  // Well-formed lines

  /** The via name `name` stands at column 37 and is followed by a space. */
  predicate ViaNameAt(s: Buffer, name: seq<byte>)
  {
    At(s, VIA_NAME_POS, name + [SPACE]) && NoSpace(name)
  }

  /** Columns, each followed by its run of one or more spaces. */
  function Layout(cols: seq<seq<byte>>, pads: seq<nat>): seq<byte>
    requires |cols| == |pads|
  {
    if cols == [] then [] else cols[0] + Spaces(pads[0]) + Layout(cols[1..], pads[1..])
  }

  /** Every column is non-empty and space-free, and every run of spaces is non-empty. */
  predicate Separated(cols: seq<seq<byte>>, pads: seq<nat>)
  {
    |cols| == |pads| &&
    (forall j | 0 <= j < |cols| :: |cols[j]| >= 1 && NoSpace(cols[j])) &&
    (forall j | 0 <= j < |pads| :: pads[j] >= 1)
  }

  /** The columns from the flags column on: laid out at `FlagsPos` and ending before the last byte. */
  predicate ColumnsAt(s: Buffer, name: seq<byte>, cols: seq<seq<byte>>, pads: seq<nat>)
  {
    var f := VIA_NAME_POS + |name| + VIA_ADDR_STRIDE;
    Separated(cols, pads) && At(s, f, Layout(cols, pads)) && f + |Layout(cols, pads)| <= LAST_INDEX
  }

  /** The via-name scans stop at the space after a well-formed via name. */
  lemma ViaNameEndAt(s: Buffer, name: seq<byte>, bound: nat)
    requires ViaNameAt(s, name) && VIA_NAME_POS + |name| <= bound < IPFWRULELEN
    ensures ViaNameEnd(s, bound) == VIA_NAME_POS + |name|
  {
    ScanOverColumn(s, VIA_NAME_POS, name, bound);
  }

  /** The via-name field of a well-formed line is exactly the via name. */
  lemma ViaNameTextAt(s: Buffer, name: seq<byte>)
    requires ViaNameAt(s, name) && VIA_NAME_POS + |name| <= LAST_INDEX
    ensures ViaNameText(s) == name
  {
    ViaNameEndAt(s, name, LAST_INDEX);
    AtConcat(s, VIA_NAME_POS, name, [SPACE]);
  }

  /**
   * With a well-formed via name ending before column 188 and a space-free
   * flags column followed by a space, `getflags` reads exactly that column:
   * its hex value modulo 2^64, which is its hex value when it is at most 16
   * uppercase digits.
   */
  lemma FlagsWellFormed(s: Buffer, name: seq<byte>, token: seq<byte>)
    requires ViaNameAt(s, name) && VIA_NAME_POS + |name| <= COLUMN_SCAN_LIMIT
    requires At(s, VIA_NAME_POS + |name| + VIA_ADDR_STRIDE, token + [SPACE]) && NoSpace(token)
    ensures FlagsValue(s) == HexValue(token) % ULONG_MODULUS
    ensures AllHex(token) && |token| <= 16 ==> FlagsValue(s) == HexValue(token)
  {
    var f := FlagsPos(s);
    assert f == VIA_NAME_POS + |name| + VIA_ADDR_STRIDE by {
      ViaNameEndAt(s, name, COLUMN_SCAN_LIMIT);
    }
    assert s[f..ColumnEnd(s, f)] == token by {
      ColumnAt(s, f, token);
    }
    if AllHex(token) && |token| <= 16 {
      HexBelowULong(token);
      ULongFits(HexValue(token));
    }
  }

  /** A space-terminated column is exactly what the final scan from its start reads. */
  lemma ColumnAt(s: Buffer, p: nat, token: seq<byte>)
    requires At(s, p, token + [SPACE]) && NoSpace(token)
    ensures ColumnEnd(s, p) == p + |token| && s[p..ColumnEnd(s, p)] == token
  {
    ScanOverColumn(s, p, token, LAST_INDEX);
    AtConcat(s, p, token, [SPACE]);
  }

  /** At most 16 uppercase hex digits fit an `unsigned long`. */
  lemma HexBelowULong(token: seq<byte>)
    requires AllHex(token) && |token| <= 16
    ensures 0 <= HexValue(token) < ULONG_MODULUS
  {
    HexValueBound(token);
    Pow2Monotone(4 * |token|, 64);
    assert Pow2(64) == ULONG_MODULUS by {
      Pow2Values();
    }
  }

  /** Text spelled at `p` made of a column, spaces and the rest splits into the three. */
  lemma SplitColumn(s: seq<byte>, p: nat, c: seq<byte>, w: seq<byte>, rest: seq<byte>)
    requires At(s, p, c + w + rest) && |w| >= 1 && w[0] == SPACE
    ensures At(s, p, c) && At(s, p + |c|, w) && At(s, p + |c| + |w|, rest)
    ensures At(s, p, c + [SPACE])
  {
    AtConcat(s, p, c + w, rest);
    AtConcat(s, p, c, w);
    AtIndex(s, p + |c|, w, 0);
    assert At(s, p + |c|, [SPACE]);
    AtConcat(s, p, c, [SPACE]);
  }

  /** Splits a layout into its first column, its spaces and the rest. */
  lemma LayoutAt(s: Buffer, p: nat, cols: seq<seq<byte>>, pads: seq<nat>)
    requires Separated(cols, pads) && |cols| >= 1 && At(s, p, Layout(cols, pads))
    ensures At(s, p, cols[0]) && At(s, p + |cols[0]|, Spaces(pads[0]))
    ensures At(s, p + |cols[0]| + pads[0], Layout(cols[1..], pads[1..]))
    ensures At(s, p, cols[0] + [SPACE])
  {
    var c, w, rest := cols[0], Spaces(pads[0]), Layout(cols[1..], pads[1..]);
    assert pads[0] >= 1;
    assert Layout(cols, pads) == c + w + rest;
    SplitColumn(s, p, c, w, rest);
  }

  /** Dropping the first column of a well-separated layout leaves a well-separated layout. */
  lemma SeparatedTail(cols: seq<seq<byte>>, pads: seq<nat>)
    requires Separated(cols, pads) && |cols| >= 1
    ensures Separated(cols[1..], pads[1..])
  {
    forall j | 0 <= j < |cols[1..]| ensures |cols[1..][j]| >= 1 && NoSpace(cols[1..][j]) {
      assert cols[1..][j] == cols[j + 1];
    }
    forall j | 0 <= j < |pads[1..]| ensures pads[1..][j] >= 1 {
      assert pads[1..][j] == pads[j + 1];
    }
  }

  /** Skipping a run of `n` spaces followed by a non-space stops after the run. */
  lemma SkipRun(s: Buffer, x: nat, n: nat)
    requires At(s, x, Spaces(n)) && x + n < LAST_INDEX && s[x + n] != SPACE
    ensures SkipSpaces(s, x, LAST_INDEX) == x + n
  {
    forall j | x <= j < x + n ensures s[j] == SPACE && j < LAST_INDEX {
      AtIndex(s, x, Spaces(n), j - x);
    }
    SkipSpacesIs(s, x, LAST_INDEX, x + n);
  }

  /** In a well-separated layout of two or more columns, the second column starts with a non-space. */
  lemma SecondColumnStarts(s: Buffer, p: nat, cols: seq<seq<byte>>, pads: seq<nat>)
    requires Separated(cols, pads) && At(s, p, Layout(cols, pads)) && |cols| >= 2
    ensures p + |cols[0]| + pads[0] < |s| && s[p + |cols[0]| + pads[0]] != SPACE
  {
    var tail, tpads := cols[1..], pads[1..];
    LayoutAt(s, p, cols, pads);
    assert |Layout(cols, pads)| == |cols[0]| + pads[0] + |Layout(tail, tpads)|;
    SeparatedTail(cols, pads);
    LayoutAt(s, p + |cols[0]| + pads[0], tail, tpads);
    AtIndex(s, p + |cols[0]| + pads[0], tail[0] + [SPACE], 0);
    assert NoSpace(tail[0]);
  }

  /** One repetition of the skip loop passes over the first column and the spaces after it. */
  lemma SkipFirstColumn(s: Buffer, p: nat, cols: seq<seq<byte>>, pads: seq<nat>)
    requires Separated(cols, pads) && At(s, p, Layout(cols, pads))
    requires p + |Layout(cols, pads)| <= LAST_INDEX
    requires |cols| >= 2
    ensures SkipStep(s, p) == p + |cols[0]| + pads[0]
  {
    var c, n := cols[0], pads[0];
    LayoutAt(s, p, cols, pads);
    assert |Layout(cols, pads)| == |c| + n + |Layout(cols[1..], pads[1..])|;
    assert NoSpace(c);
    ScanOverColumn(s, p, c, SKIP_SCAN_LIMIT);
    SecondColumnStarts(s, p, cols, pads);
    SkipRun(s, p + |c|, n);
  }

  /** Where column `k` of a layout starts, counted from the start of the layout. */
  function ColumnStart(cols: seq<seq<byte>>, pads: seq<nat>, k: nat): nat
    requires |cols| == |pads| && k < |cols|
  {
    if k == 0 then 0 else |cols[0]| + pads[0] + ColumnStart(cols[1..], pads[1..], k - 1)
  }

  /** Column `k + 1` starts after column `k` and the spaces after it. */
  lemma {:induction false} ColumnStartNext(cols: seq<seq<byte>>, pads: seq<nat>, k: nat)
    requires |cols| == |pads| && k + 1 < |cols|
    ensures ColumnStart(cols, pads, k + 1) == ColumnStart(cols, pads, k) + |cols[k]| + pads[k]
    decreases k
  {
    if k > 0 {
      ColumnStartNext(cols[1..], pads[1..], k - 1);
      assert cols[1..][k - 1] == cols[k] && pads[1..][k - 1] == pads[k];
    }
  }

  /** The layout from column `k` on sits where column `k` starts. */
  lemma {:induction false} LayoutSuffix(s: Buffer, p: nat, cols: seq<seq<byte>>, pads: seq<nat>, k: nat)
    requires Separated(cols, pads) && At(s, p, Layout(cols, pads)) && k < |cols|
    ensures Separated(cols[k..], pads[k..])
    ensures At(s, p + ColumnStart(cols, pads, k), Layout(cols[k..], pads[k..]))
    ensures ColumnStart(cols, pads, k) + |Layout(cols[k..], pads[k..])| == |Layout(cols, pads)|
    decreases k
  {
    if k > 0 {
      var tail, tpads := cols[1..], pads[1..];
      LayoutAt(s, p, cols, pads);
      assert |Layout(cols, pads)| == |cols[0]| + pads[0] + |Layout(tail, tpads)|;
      SeparatedTail(cols, pads);
      LayoutSuffix(s, p + |cols[0]| + pads[0], tail, tpads, k - 1);
      assert tail[k - 1..] == cols[k..] && tpads[k - 1..] == pads[k..];
    } else {
      assert cols[0..] == cols && pads[0..] == pads;
    }
  }

  /** One repetition of the skip loop from column `k` lands on column `k + 1`. */
  lemma ColumnStep(s: Buffer, p: nat, cols: seq<seq<byte>>, pads: seq<nat>, k: nat)
    requires Separated(cols, pads) && At(s, p, Layout(cols, pads))
    requires p + |Layout(cols, pads)| <= LAST_INDEX
    requires k + 1 < |cols|
    ensures p + ColumnStart(cols, pads, k) < p + ColumnStart(cols, pads, k + 1) < IPFWRULELEN
    ensures SkipStep(s, p + ColumnStart(cols, pads, k)) == p + ColumnStart(cols, pads, k + 1)
  {
    var x, sub, subp := p + ColumnStart(cols, pads, k), cols[k..], pads[k..];
    LayoutSuffix(s, p, cols, pads, k);
    assert |Layout(sub, subp)| == |sub[0]| + subp[0] + |Layout(sub[1..], subp[1..])|;
    assert |sub| >= 2;
    SkipFirstColumn(s, x, sub, subp);
    assert sub[0] == cols[k] && subp[0] == pads[k];
    ColumnStartNext(cols, pads, k);
  }

  /** Column `k` of a well-separated layout is followed by a space inside the layout. */
  lemma ColumnStartAt(s: Buffer, p: nat, cols: seq<seq<byte>>, pads: seq<nat>, k: nat)
    requires Separated(cols, pads) && At(s, p, Layout(cols, pads)) && k < |cols|
    ensures At(s, p + ColumnStart(cols, pads, k), cols[k] + [SPACE])
    ensures ColumnStart(cols, pads, k) + |cols[k]| < |Layout(cols, pads)|
  {
    var x, sub, subp := p + ColumnStart(cols, pads, k), cols[k..], pads[k..];
    LayoutSuffix(s, p, cols, pads, k);
    LayoutAt(s, x, sub, subp);
    assert |Layout(sub, subp)| == |sub[0]| + subp[0] + |Layout(sub[1..], subp[1..])|;
    assert sub[0] == cols[k] && subp[0] >= 1;
  }

  /** Skipping k columns from `pos[0]` lands on `pos[k]` if each repetition lands on the next position. */
  lemma {:induction false} SkipColumnsIterate(s: Buffer, pos: seq<nat>, k: nat)
    requires k < |pos| && forall j | 0 <= j < |pos| :: pos[j] < IPFWRULELEN
    requires forall j {:trigger SkipStep(s, pos[j])} | 0 <= j < k :: SkipStep(s, pos[j]) == pos[j + 1]
    ensures SkipColumns(s, pos[0], k) == pos[k]
    decreases k
  {
    if k > 0 {
      SkipColumnsSnoc(s, pos[0], k - 1);
      SkipColumnsIterate(s, pos, k - 1);
      assert SkipStep(s, pos[k - 1]) == pos[k];
    }
  }

  /**
   * Skipping k columns of a well-separated layout lands on column k, which is
   * followed by a space inside the layout, whatever the widths of the runs of
   * spaces.
   */
  lemma SkipColumnsLands(s: Buffer, p: nat, cols: seq<seq<byte>>, pads: seq<nat>, k: nat)
    requires Separated(cols, pads) && At(s, p, Layout(cols, pads))
    requires p + |Layout(cols, pads)| <= LAST_INDEX
    requires k < |cols|
    ensures At(s, SkipColumns(s, p, k), cols[k] + [SPACE])
    ensures SkipColumns(s, p, k) + |cols[k]| < p + |Layout(cols, pads)|
  {
    SkipColumnsStart(s, p, cols, pads, k);
    ColumnStartAt(s, p, cols, pads, k);
  }

  /** Skipping k columns of a well-separated layout lands where column k starts. */
  lemma SkipColumnsStart(s: Buffer, p: nat, cols: seq<seq<byte>>, pads: seq<nat>, k: nat)
    requires Separated(cols, pads) && At(s, p, Layout(cols, pads))
    requires p + |Layout(cols, pads)| <= LAST_INDEX
    requires k < |cols|
    ensures SkipColumns(s, p, k) == p + ColumnStart(cols, pads, k)
  {
    var pos := ColumnStarts(s, p, cols, pads, k);
    SkipColumnsIterate(s, pos, k);
  }

  /** The starts of columns 0 to k, each reached from the one before by one repetition of the skip loop. */
  lemma ColumnStarts(s: Buffer, p: nat, cols: seq<seq<byte>>, pads: seq<nat>, k: nat) returns (pos: seq<nat>)
    requires Separated(cols, pads) && At(s, p, Layout(cols, pads))
    requires p + |Layout(cols, pads)| <= LAST_INDEX
    requires k < |cols|
    ensures |pos| == k + 1 && pos[0] == p && pos[k] == p + ColumnStart(cols, pads, k)
    ensures forall j | 0 <= j < |pos| :: pos[j] < IPFWRULELEN
    ensures forall j {:trigger SkipStep(s, pos[j])} | 0 <= j < k :: SkipStep(s, pos[j]) == pos[j + 1]
  {
    pos := seq(k + 1, j requires 0 <= j < k + 1 => p + ColumnStart(cols, pads, j));
    forall j | 0 <= j < k + 1 ensures pos[j] < IPFWRULELEN {
      ColumnStartAt(s, p, cols, pads, j);
    }
    forall j | 0 <= j < k ensures SkipStep(s, pos[j]) == pos[j + 1] {
      ColumnStep(s, p, cols, pads, j);
    }
  }

  /** On a well-formed line, `getflags` reads the first column after the via address. */
  lemma FlagsOfLayout(s: Buffer, name: seq<byte>, cols: seq<seq<byte>>, pads: seq<nat>)
    requires ViaNameAt(s, name) && VIA_NAME_POS + |name| <= COLUMN_SCAN_LIMIT
    requires ColumnsAt(s, name, cols, pads) && |cols| >= 1
    ensures FlagsValue(s) == HexValue(cols[0]) % ULONG_MODULUS
  {
    LayoutAt(s, VIA_NAME_POS + |name| + VIA_ADDR_STRIDE, cols, pads);
    FlagsWellFormed(s, name, cols[0]);
  }

  /**
   * On a well-formed line, `getnumeric(skip)` reads column `skip` counted from
   * the flags column (column 0), as decimal modulo 2^64.
   */
  lemma NumericWellFormed(s: Buffer, name: seq<byte>, cols: seq<seq<byte>>, pads: seq<nat>, skip: nat)
    requires ViaNameAt(s, name) && VIA_NAME_POS + |name| <= COLUMN_SCAN_LIMIT
    requires ColumnsAt(s, name, cols, pads) && skip < |cols|
    ensures NumericValue(s, skip) == DecValue(cols[skip]) % ULONG_MODULUS
  {
    var f := VIA_NAME_POS + |name| + VIA_ADDR_STRIDE;
    ViaNameEndAt(s, name, COLUMN_SCAN_LIMIT);
    assert FlagsPos(s) == f;
    SkipColumnsLands(s, f, cols, pads, skip);
    ColumnAt(s, NumericPos(s, skip), cols[skip]);
  }

  /**
   * The counters `getnumeric` reads do not depend on the length of the via
   * name nor on how many spaces pad the columns.
   */
  lemma NumericIndependentOfLayout(s1: Buffer, name1: seq<byte>, pads1: seq<nat>,
                                   s2: Buffer, name2: seq<byte>, pads2: seq<nat>,
                                   cols: seq<seq<byte>>, skip: nat)
    requires ViaNameAt(s1, name1) && VIA_NAME_POS + |name1| <= COLUMN_SCAN_LIMIT
    requires ViaNameAt(s2, name2) && VIA_NAME_POS + |name2| <= COLUMN_SCAN_LIMIT
    requires ColumnsAt(s1, name1, cols, pads1) && ColumnsAt(s2, name2, cols, pads2)
    requires skip < |cols|
    ensures NumericValue(s1, skip) == NumericValue(s2, skip)
  {
    NumericWellFormed(s1, name1, cols, pads1, skip);
    NumericWellFormed(s2, name2, cols, pads2, skip);
  }
}
