/**
 * The backing text source `/proc/net/ip_acct`, as the parser sees it: either
 * it cannot be opened, or it is the sequence of pieces that successive
 * `fgets(rule, 200, f)` calls return, the first being the header line.
 */
module LineSource {
  import opened Bytes

  /** What one successful `fgets` into the 200-byte buffer reads: 1 to 199 bytes. */
  type Chunk = c: seq<byte> | 0 < |c| < IPFWRULELEN witness [NEWLINE]

  datatype Source = Unavailable | Available(chunks: seq<Chunk>)

  /**
   * The buffer after `fgets` read the chunk `c`: the chunk, its terminating
   * NUL, and the stale bytes of earlier reads after that.
   */
  function Fgets(buf: Buffer, c: Chunk): (r: Buffer)
  {
    c + [NUL] + buf[|c| + 1..]
  }

  /** The buffer after `fgets` read each of `cs` in turn. */
  function LoadAll(buf: Buffer, cs: seq<Chunk>): Buffer
    decreases |cs|
  {
    if cs == [] then buf else LoadAll(Fgets(buf, cs[0]), cs[1..])
  }

  /** Reading one more chunk is one more `fgets` on the buffer read so far. */
  lemma {:induction false} LoadAllSnoc(buf: Buffer, cs: seq<Chunk>, c: Chunk)
    ensures LoadAll(buf, cs + [c]) == Fgets(LoadAll(buf, cs), c)
    decreases |cs|
  {
    if cs == [] {
      assert [c][1..] == [];
    } else {
      assert (cs + [c])[1..] == cs[1..] + [c];
      LoadAllSnoc(Fgets(buf, cs[0]), cs[1..], c);
    }
  }

  /**
   * After reading some chunks, the buffer starts with the last chunk read and
   * a NUL, and every byte past the longest chunk read is the one that was
   * there before.
   */
  lemma {:induction false} LoadAllLast(buf: Buffer, cs: seq<Chunk>)
    requires |cs| > 0
    ensures var r, c := LoadAll(buf, cs), cs[|cs| - 1];
            r[..|c|] == c && r[|c|] == NUL
  {
    var init := cs[..|cs| - 1];
    assert cs == init + [cs[|cs| - 1]];
    LoadAllSnoc(buf, init, cs[|cs| - 1]);
  }

  /** Bytes beyond every chunk read keep their old value. */
  lemma {:induction false} LoadAllKeepsTail(buf: Buffer, cs: seq<Chunk>, j: nat)
    requires j < IPFWRULELEN
    requires forall k | 0 <= k < |cs| :: |cs[k]| < j
    ensures LoadAll(buf, cs)[j] == buf[j]
    decreases |cs|
  {
    if cs != [] {
      assert forall k | 0 <= k < |cs[1..]| :: |cs[1..][k]| < j by {
        forall k | 0 <= k < |cs[1..]| ensures |cs[1..][k]| < j {
          assert cs[1..][k] == cs[k + 1];
        }
      }
      LoadAllKeepsTail(Fgets(buf, cs[0]), cs[1..], j);
    }
  }

  /** How many `fgets` calls of `readrule(number)` succeed. */
  function ChunksRead(src: Source, number: nat): (n: nat)
    ensures src.Available? ==> n <= |src.chunks|
  {
    match src
    case Unavailable => 0
    case Available(cs) =>
      if number == 0 || |cs| <= number then |cs| else number + 1
  }

  /**
   * What `readrule(number)` returns: 0 when the source cannot be opened or
   * has no header; for `number == 0` the count of lines after the header;
   * otherwise `number` if line `number` exists after the header, else 0.
   */
  function ReadRuleResult(src: Source, number: nat): nat
  {
    match src
    case Unavailable => 0
    case Available(cs) =>
      if |cs| == 0 then 0
      else if number == 0 then |cs| - 1
      else if number < |cs| then number
      else 0
  }
  /**
   * `readrule` fails without a header; a positive `number` comes back exactly
   * when that many lines follow the header, and 0 asks for their count.
   */
  lemma ReadRuleResultCases(src: Source, number: nat)
    ensures var r := ReadRuleResult(src, number);
            (r != 0 ==> src.Available? && |src.chunks| >= 1) &&
            (number != 0 ==> (r == 0 || r == number)) &&
            (number != 0 ==> (r == number <==> src.Available? && number < |src.chunks|)) &&
            (number == 0 && src.Available? && |src.chunks| >= 1 ==> r == |src.chunks| - 1)
  {
  }

  /** The buffer after `readrule(number)`: every chunk it read, read in turn. */
  function Loaded(buf: Buffer, src: Source, number: nat): Buffer
  {
    match src
    case Unavailable => buf
    case Available(cs) => LoadAll(buf, cs[..ChunksRead(src, number)])
  }

  /**
   * When `readrule(number)` succeeds, the buffer holds the line it looked
   * for, NUL-terminated: line `number` after the header, or for `number == 0`
   * the last line of the source.
   */
  lemma ReadRuleLoads(buf: Buffer, src: Source, number: nat)
    requires ReadRuleResult(src, number) != 0
    ensures src.Available? && |src.chunks| >= 2
    ensures var cs := src.chunks;
            var line := cs[if number == 0 then |cs| - 1 else number];
            var r := Loaded(buf, src, number);
            r[..|line|] == line && r[|line|] == NUL
  {
    var cs := src.chunks;
    var n := ChunksRead(src, number);
    assert cs[..n][n - 1] == cs[if number == 0 then |cs| - 1 else number];
    LoadAllLast(buf, cs[..n]);
  }
}
