/**
 * The MULTI2 block cipher core used by ARIB STD-B25 conditional access:
 * the four 32-bit round functions, one cipher round, the key schedule and
 * the encrypt/decrypt round loops of src/descrambler/demulti2/demulti2.c.
 *
 * A 64-bit block is a pair of 32-bit words; `l` is the high word and `r`
 * the low word of the 64-bit value, on either host byte order.
 *
 * The four round functions have a Feistel shape: pi1 and pi3 keep `l` and
 * xor a function of `l` into `r`; pi2 and pi4 keep `r` and xor a keyed
 * function of `r` into `l`.  The rounds below are written over any choice
 * of those keyed mixing functions (`Mixers`), so that the fact that decrypt
 * undoes encrypt is proved from the shape alone; `Multi2` is the choice the
 * cipher makes, with the word arithmetic of the source.
 */
module Multi2Core {

  type Word = bv32

  datatype Block = Block(l: Word, r: Word)

  /** Number of cipher rounds (Init_param.round). */
  const Rounds: int := 4

  /** The fixed system key k_sys. */
  const SystemKey: seq<Word> :=
    [0x36310466, 0x4b17ea5c, 0x32df9cf5, 0xc4c36c1b,
     0xec993921, 0x689d4bb7, 0xb74e4084, 0x0d2e7d98]

  /** left_rotate_uint32, for the counts 0 < count < 32 the cipher uses. */
  function Rotl(val: Word, count: nat): Word
    requires 0 < count < 32
  {
    (val << count) | (val >> (32 - count))
  }

  /** At every count the cipher uses, the shift-or form is a 32-bit rotation. */
  lemma RotlIsRotation(val: Word)
    ensures Rotl(val, 1) == val.RotateLeft(1)
    ensures Rotl(val, 2) == val.RotateLeft(2)
    ensures Rotl(val, 4) == val.RotateLeft(4)
    ensures Rotl(val, 8) == val.RotateLeft(8)
    ensures Rotl(val, 16) == val.RotateLeft(16)
  {
  }

  /** The value core_pi2 xors into l: t2 of the source. */
  function Pi2Mix(r: Word, a: Word): Word
  {
    var t0 := r + a;
    var t1 := Rotl(t0, 1) + t0 - 1;
    Rotl(t1, 4) ^ t1
  }

  /** The value core_pi3 xors into r: t5 of the source. */
  function Pi3Mix(l: Word, a: Word, b: Word): Word
  {
    var t0 := l + a;
    var t1 := Rotl(t0, 2) + t0 + 1;
    var t2 := Rotl(t1, 8) ^ t1;
    var t3 := t2 + b;
    var t4 := Rotl(t3, 1) - t3;
    Rotl(t4, 16) ^ (t4 | l)
  }

  /** The value core_pi4 xors into l: t1 of the source. */
  function Pi4Mix(r: Word, a: Word): Word
  {
    var t0 := r + a;
    Rotl(t0, 2) + t0 + 1
  }

  /** The keyed mixing functions of pi2, pi3 and pi4. */
  datatype Mixers = Mixers(
    pi2: (Word, Word) -> Word,
    pi3: (Word, Word, Word) -> Word,
    pi4: (Word, Word) -> Word)

  /** MULTI2's mixing functions. */
  const Multi2: Mixers := Mixers(Pi2Mix, Pi3Mix, Pi4Mix)

  /** core_pi1: l is kept, and xoring it back into r recovers the old r. */
  function Pi1(b: Block): (c: Block)
    ensures c.l == b.l && c.r ^ c.l == b.r
  {
    Block(b.l, b.r ^ b.l)
  }

  /** core_pi2: r is kept, and xoring the keyed mix of r back into l recovers the old l. */
  function Pi2(m: Mixers, b: Block, a: Word): (c: Block)
    ensures c.r == b.r && c.l ^ m.pi2(c.r, a) == b.l
  {
    Block(b.l ^ m.pi2(b.r, a), b.r)
  }

  /** core_pi3: l is kept, and xoring the keyed mix of l back into r recovers the old r. */
  function Pi3(m: Mixers, b: Block, a: Word, c: Word): (d: Block)
    ensures d.l == b.l && d.r ^ m.pi3(d.l, a, c) == b.r
  {
    Block(b.l, b.r ^ m.pi3(b.l, a, c))
  }

  /** core_pi4: r is kept, and xoring the keyed mix of r back into l recovers the old l. */
  function Pi4(m: Mixers, b: Block, a: Word): (c: Block)
    ensures c.r == b.r && c.l ^ m.pi4(c.r, a) == b.l
  {
    Block(b.l ^ m.pi4(b.r, a), b.r)
  }

  // Each round function is its own inverse, for any key words.

  lemma Pi1Involution(b: Block)
    ensures Pi1(Pi1(b)) == b
  {
  }

  lemma Pi2Involution(m: Mixers, b: Block, a: Word)
    ensures Pi2(m, Pi2(m, b, a), a) == b
  {
  }

  lemma Pi3Involution(m: Mixers, b: Block, a: Word, c: Word)
    ensures Pi3(m, Pi3(m, b, a, c), a, c) == b
  {
  }

  lemma Pi4Involution(m: Mixers, b: Block, a: Word)
    ensures Pi4(m, Pi4(m, b, a), a) == b
  {
  }

  /** One encrypt round: pi1, pi2(w0), pi3(w1,w2), pi4(w3), pi1, pi2(w4), pi3(w5,w6), pi4(w7). */
  function EncRound(m: Mixers, b: Block, w: seq<Word>): Block
    requires |w| == 8
  {
    Pi4(m, Pi3(m, Pi2(m, Pi1(Pi4(m, Pi3(m, Pi2(m, Pi1(b), w[0]), w[1], w[2]), w[3])), w[4]), w[5], w[6]), w[7])
  }

  /** One decrypt round: the same primitives in the reverse order. */
  function DecRound(m: Mixers, b: Block, w: seq<Word>): Block
    requires |w| == 8
  {
    Pi1(Pi2(m, Pi3(m, Pi4(m, Pi1(Pi2(m, Pi3(m, Pi4(m, b, w[7]), w[5], w[6]), w[4])), w[3]), w[1], w[2]), w[0]))
  }

  /** The eight intermediate blocks of one encrypt round, one after each primitive. */
  function RoundTrace(m: Mixers, b: Block, w: seq<Word>): (t: seq<Block>)
    requires |w| == 8
    ensures |t| == 8 && t[7] == EncRound(m, b, w)
  {
    var b1 := Pi1(b);
    var b2 := Pi2(m, b1, w[0]);
    var b3 := Pi3(m, b2, w[1], w[2]);
    var b4 := Pi4(m, b3, w[3]);
    var b5 := Pi1(b4);
    var b6 := Pi2(m, b5, w[4]);
    var b7 := Pi3(m, b6, w[5], w[6]);
    var b8 := Pi4(m, b7, w[7]);
    [b1, b2, b3, b4, b5, b6, b7, b8]
  }

  lemma DecRoundUndoesEncRound(m: Mixers, b: Block, w: seq<Word>)
    requires |w| == 8
    ensures DecRound(m, EncRound(m, b, w), w) == b
  {
    var t := RoundTrace(m, b, w);
    Pi4Involution(m, t[6], w[7]);
    Pi3Involution(m, t[5], w[5], w[6]);
    Pi2Involution(m, t[4], w[4]);
    Pi1Involution(t[3]);
    Pi4Involution(m, t[2], w[3]);
    Pi3Involution(m, t[1], w[1], w[2]);
    Pi2Involution(m, t[0], w[0]);
    Pi1Involution(b);
  }

  lemma EncRoundUndoesDecRound(m: Mixers, c: Block, w: seq<Word>)
    requires |w| == 8
    ensures EncRound(m, DecRound(m, c, w), w) == c
  {
    var d1 := Pi4(m, c, w[7]);
    var d2 := Pi3(m, d1, w[5], w[6]);
    var d3 := Pi2(m, d2, w[4]);
    var d4 := Pi1(d3);
    var d5 := Pi4(m, d4, w[3]);
    var d6 := Pi3(m, d5, w[1], w[2]);
    var d7 := Pi2(m, d6, w[0]);
    Pi1Involution(d7);
    Pi2Involution(m, d6, w[0]);
    Pi3Involution(m, d5, w[1], w[2]);
    Pi4Involution(m, d4, w[3]);
    Pi1Involution(d3);
    Pi2Involution(m, d2, w[4]);
    Pi3Involution(m, d1, w[5], w[6]);
    Pi4Involution(m, c, w[7]);
  }

  /** `round` encrypt rounds (none when round <= 0, as the C loop does). */
  function Encrypt(m: Mixers, b: Block, w: seq<Word>, round: int): Block
    requires |w| == 8
    decreases round
  {
    if round <= 0 then b else EncRound(m, Encrypt(m, b, w, round - 1), w)
  }

  /** `round` decrypt rounds (none when round <= 0). */
  function Decrypt(m: Mixers, b: Block, w: seq<Word>, round: int): Block
    requires |w| == 8
    decreases round
  {
    if round <= 0 then b else DecRound(m, Decrypt(m, b, w, round - 1), w)
  }

  /** Decrypt also peels its first round off the front. */
  lemma {:induction false} DecryptPeel(m: Mixers, c: Block, w: seq<Word>, n: int)
    requires |w| == 8 && n >= 0
    ensures Decrypt(m, c, w, n + 1) == Decrypt(m, DecRound(m, c, w), w, n)
    decreases n
  {
    if n > 0 {
      DecryptPeel(m, c, w, n - 1);
    }
  }

  /** Decrypt undoes Encrypt for every block, 8-word schedule and round count. */
  lemma {:induction false} DecryptEncrypt(m: Mixers, b: Block, w: seq<Word>, n: int)
    requires |w| == 8
    ensures Decrypt(m, Encrypt(m, b, w, n), w, n) == b
    decreases n
  {
    if n > 0 {
      var e := Encrypt(m, b, w, n - 1);
      DecryptPeel(m, EncRound(m, e, w), w, n - 1);
      DecRoundUndoesEncRound(m, e, w);
      DecryptEncrypt(m, b, w, n - 1);
    }
  }

  /** Encrypt undoes Decrypt for every block, 8-word schedule and round count. */
  lemma {:induction false} EncryptDecrypt(m: Mixers, c: Block, w: seq<Word>, n: int)
    requires |w| == 8
    ensures Encrypt(m, Decrypt(m, c, w, n), w, n) == c
    decreases n
  {
    if n > 0 {
      DecryptPeel(m, c, w, n - 1);
      EncryptDecrypt(m, DecRound(m, c, w), w, n - 1);
      EncRoundUndoesDecRound(m, c, w);
    }
  }

  /**
   * core_schedule: a 9-step chain over the raw key seeded by the system key,
   * capturing alternately the l and r half after each step.  The first eight
   * steps are exactly one encrypt round under the system key.
   */
  function CoreSchedule(skey: seq<Word>, dkey: Block): (work: seq<Word>)
    requires |skey| == 8
    ensures |work| == 8
    ensures var t := RoundTrace(Multi2, dkey, skey);
      work == [t[1].l, t[2].r, t[3].l, t[4].r, t[5].l, t[6].r, t[7].l, Pi1(t[7]).r]
    ensures work[6] == EncRound(Multi2, dkey, skey).l
    ensures work[7] == EncRound(Multi2, dkey, skey).l ^ EncRound(Multi2, dkey, skey).r
  {
    var b1 := Pi1(dkey);
    var b2 := Pi2(Multi2, b1, skey[0]);
    var b3 := Pi3(Multi2, b2, skey[1], skey[2]);
    var b4 := Pi4(Multi2, b3, skey[3]);
    var b5 := Pi1(b4);
    var b6 := Pi2(Multi2, b5, skey[4]);
    var b7 := Pi3(Multi2, b6, skey[5], skey[6]);
    var b8 := Pi4(Multi2, b7, skey[7]);
    var b9 := Pi1(b8);
    [b2.l, b3.r, b4.l, b5.r, b6.l, b7.r, b8.l, b9.r]
  }

  /** core_encrypt: the round loop, updating dst through tmp. */
  method CoreEncrypt(m: Mixers, src: Block, w: seq<Word>, round: int) returns (dst: Block)
    requires |w| == 8
    ensures dst == Encrypt(m, src, w, round)
  {
    dst := src;
    var i := 0;
    while i < round
      invariant 0 <= i && (i <= round || i == 0)
      invariant dst == Encrypt(m, src, w, i)
    {
      var tmp := Pi1(dst);
      dst := Pi2(m, tmp, w[0]);
      tmp := Pi3(m, dst, w[1], w[2]);
      dst := Pi4(m, tmp, w[3]);
      tmp := Pi1(dst);
      dst := Pi2(m, tmp, w[4]);
      tmp := Pi3(m, dst, w[5], w[6]);
      dst := Pi4(m, tmp, w[7]);
      i := i + 1;
    }
  }

  /** core_decrypt: the inverse round loop. */
  method CoreDecrypt(m: Mixers, src: Block, w: seq<Word>, round: int) returns (dst: Block)
    requires |w| == 8
    ensures dst == Decrypt(m, src, w, round)
    ensures Encrypt(m, dst, w, round) == src
  {
    dst := src;
    var i := 0;
    while i < round
      invariant 0 <= i && (i <= round || i == 0)
      invariant dst == Decrypt(m, src, w, i)
    {
      var tmp := Pi4(m, dst, w[7]);
      dst := Pi3(m, tmp, w[5], w[6]);
      tmp := Pi2(m, dst, w[4]);
      dst := Pi1(tmp);
      tmp := Pi4(m, dst, w[3]);
      dst := Pi3(m, tmp, w[1], w[2]);
      tmp := Pi2(m, dst, w[0]);
      dst := Pi1(tmp);
      i := i + 1;
    }
    EncryptDecrypt(m, src, w, round);
  }
}
