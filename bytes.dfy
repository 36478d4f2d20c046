/**
 * The characters of a `/proc/net/ip_acct` line and the fixed-size buffer one
 * line is read into.
 */
module Bytes {

  /** C's `unsigned char`. */
  newtype byte = x: int | 0 <= x < 256

  const NUL: byte := 0
  const NEWLINE: byte := 10
  const SPACE: byte := 32
  const DIGIT_0: byte := 48
  const DIGIT_9: byte := 57
  const LETTER_A: byte := 65
  const LETTER_F: byte := 70

  /** Size of the process-wide line buffer `rule`. */
  const IPFWRULELEN: nat := 200

  /** The contents of the line buffer. */
  type Buffer = s: seq<byte> | |s| == IPFWRULELEN witness seq(IPFWRULELEN, _ => NUL)

  /** The bytes of `s` from `p` on spell `t`. */
  predicate At(s: seq<byte>, p: nat, t: seq<byte>)
  {
    p + |t| <= |s| && s[p..p + |t|] == t
  }

  /** No byte of `t` is a space: `t` is (part of) one column. */
  predicate NoSpace(t: seq<byte>)
  {
    forall j | 0 <= j < |t| :: t[j] != SPACE
  }

  /** `n` spaces. */
  function Spaces(n: nat): (t: seq<byte>)
    ensures |t| == n && forall j | 0 <= j < n :: t[j] == SPACE
  {
    seq(n, _ => SPACE)
  }

  /** Text spelled at `p` splits into its two halves. */
  lemma AtConcat(s: seq<byte>, p: nat, a: seq<byte>, b: seq<byte>)
    ensures At(s, p, a + b) <==> At(s, p, a) && At(s, p + |a|, b)
  {
    if At(s, p, a) && At(s, p + |a|, b) {
      assert s[p..p + |a + b|] == s[p..p + |a|] + s[p + |a|..p + |a| + |b|];
    }
    if At(s, p, a + b) {
      assert s[p..p + |a|] == (a + b)[..|a|];
      assert s[p + |a|..p + |a| + |b|] == (a + b)[|a|..];
    }
  }

  /** Pointwise reading of `At`. */
  lemma AtIndex(s: seq<byte>, p: nat, t: seq<byte>, j: nat)
    requires At(s, p, t) && j < |t|
    ensures s[p + j] == t[j]
  {
    assert s[p..p + |t|][j] == t[j];
  }
}
