/**
 * The byte-level side of the MULTI2 descrambler: the 64-bit view of a
 * block, big-endian buffer access, CBC descrambling with the keystream
 * tail, the per-parity key store and the per-packet entry point of
 * src/descrambler/demulti2/demulti2.c.
 */
module Multi2Codec {
  import opened Multi2Core
  import opened Bytes

  /** Linux errno EINVAL; the packet entry point returns its negation. */
  const EINVAL: int := 22

  /** Init_param.cbc_init: the CBC initial value of every packet. */
  const CbcInit: bv64 := 0xfe27199919690911

  /** An MPEG-2 transport stream packet, and its payload after the 4-byte header. */
  const PacketSize: int := 188
  const PayloadSize: int := 184

  // The union m2key_t: `whole` and `sub` share storage, and the field order
  // of CORE_DATA follows the host byte order, so on either order `l` is the
  // high and `r` the low 32 bits of `whole`.

  /** The `whole` view of a block. */
  function Whole(b: Block): bv64
  {
    ((b.l as bv64) << 32) | (b.r as bv64)
  }

  /** The `sub` view of a 64-bit value. */
  function Sub(x: bv64): Block
  {
    Block((x >> 32) as Word, (x & 0xFFFF_FFFF) as Word)
  }

  lemma SubWhole(b: Block)
    ensures Sub(Whole(b)) == b
  {
  }

  lemma WholeSub(x: bv64)
    ensures Whole(Sub(x)) == x
  {
  }

  /** The 64-bit value of 8 bytes, most significant first. */
  function Join(b0: Byte, b1: Byte, b2: Byte, b3: Byte, b4: Byte, b5: Byte, b6: Byte, b7: Byte): bv64
  {
    ((b0 as bv64) << 56) | ((b1 as bv64) << 48) | ((b2 as bv64) << 40) | ((b3 as bv64) << 32)
    | ((b4 as bv64) << 24) | ((b5 as bv64) << 16) | ((b6 as bv64) << 8) | (b7 as bv64)
  }

  /** Byte k of x in big-endian order: k = 0 is the most significant. */
  function At(x: bv64, k: bv64): Byte
    requires k < 8
  {
    ((x >> (56 - 8 * k)) & 0xFF) as Byte
  }

  /** BE64TOH on a buffer position: the 8 bytes at i, most significant first. */
  function Load64(s: seq<Byte>, i: nat): bv64
    requires i + 8 <= |s|
  {
    Join(s[i], s[i + 1], s[i + 2], s[i + 3], s[i + 4], s[i + 5], s[i + 6], s[i + 7])
  }

  /** HTOBE64: the 8 bytes of x, most significant first. */
  function Store64(x: bv64): (out: seq<Byte>)
    ensures |out| == 8
  {
    [At(x, 0), At(x, 1), At(x, 2), At(x, 3), At(x, 4), At(x, 5), At(x, 6), At(x, 7)]
  }

  /** Reading back what was stored gives the value, whatever follows it. */
  lemma LoadStore(x: bv64, rest: seq<Byte>)
    ensures Load64(Store64(x) + rest, 0) == x
  {
  }

  /** Storing what was read gives back the same 8 bytes. */
  lemma StoreLoad(s: seq<Byte>, i: nat)
    requires i + 8 <= |s|
    ensures Store64(Load64(s, i)) == s[i..i + 8]
  {
  }

  /** The word loaded at i is the word of the 8 bytes there, and they store back. */
  lemma LoadBlock(s: seq<Byte>, i: nat)
    requires i + 8 <= |s|
    ensures Store64(Load64(s, i)) == s[i..i + 8]
    ensures Load64(s[i..i + 8], 0) == Load64(s, i)
  {
    StoreLoad(s, i);
    LoadShift(s, i, 0);
    assert s[i..][0..8] == s[i..i + 8];
  }

  /** A load reads only the 8 bytes it names. */
  lemma LoadShift(s: seq<Byte>, j: nat, i: nat)
    requires j <= |s| && i + 8 <= |s| - j
    ensures Load64(s[j..], i) == Load64(s, j + i)
  {
    assert s[j..][i..i + 8] == s[j + i..j + i + 8];
  }

  function XorByte(a: Byte, b: Byte): Byte
  {
    a ^ b
  }

  /** Byte-wise xor of s with a key stream at least as long. */
  function XorBytes(s: seq<Byte>, k: seq<Byte>): (out: seq<Byte>)
    requires |s| <= |k|
    ensures |out| == |s|
  {
    seq(|s|, i requires 0 <= i < |s| => XorByte(s[i], k[i]))
  }

  lemma XorBytesTwice(s: seq<Byte>, k: seq<Byte>)
    requires |s| <= |k|
    ensures XorBytes(XorBytes(s, k), k) == s
  {
  }

  /** The 64-bit xor, byte by byte. */
  lemma JoinXor(a: bv64, b: bv64)
    ensures Join(At(a, 0) ^ At(b, 0), At(a, 1) ^ At(b, 1), At(a, 2) ^ At(b, 2), At(a, 3) ^ At(b, 3),
                 At(a, 4) ^ At(b, 4), At(a, 5) ^ At(b, 5), At(a, 6) ^ At(b, 6), At(a, 7) ^ At(b, 7)) == a ^ b
  {
  }

  lemma LoadXor(a: bv64, b: bv64)
    ensures Load64(XorBytes(Store64(a), Store64(b)), 0) == a ^ b
  {
    JoinXor(a, b);
  }

  /** Storing a 64-bit xor is xoring the stored bytes. */
  lemma StoreXor(a: bv64, b: bv64)
    ensures Store64(a ^ b) == XorBytes(Store64(a), Store64(b))
  {
    var r := XorBytes(Store64(a), Store64(b));
    LoadXor(a, b);
    StoreLoad(r, 0);
    assert r[0..8] == r;
  }

  /** An 8-byte block, as it sits in a buffer. */
  type Block8 = s: seq<Byte> | |s| == 8 witness [0, 0, 0, 0, 0, 0, 0, 0]

  /** A block cipher on 8-byte blocks, given by its two directions. */
  datatype BlockCipher = BlockCipher(encrypt: Block8 -> Block8, decrypt: Block8 -> Block8)

  ghost predicate Invertible(c: BlockCipher)
  {
    forall b: Block8 :: c.decrypt(c.encrypt(b)) == b && c.encrypt(c.decrypt(b)) == b
  }

  /**
   * core_encrypt and core_decrypt with work key w, on the 8 bytes of a block:
   * read big-endian into `whole`, run on `sub`, written back big-endian.
   */
  function CoreCipher(m: Mixers, w: seq<Word>, round: int): BlockCipher
    requires |w| == 8
  {
    BlockCipher(b => Store64(Whole(Encrypt(m, Sub(Load64(b, 0)), w, round))),
                b => Store64(Whole(Decrypt(m, Sub(Load64(b, 0)), w, round))))
  }

  /** Load64 undoes Store64 and the halves undo the `whole` view. */
  lemma CoreCipherStep(m: Mixers, w: seq<Word>, round: int, x: bv64)
    requires |w| == 8
    ensures Load64(Store64(Whole(Encrypt(m, Sub(x), w, round))), 0) == Whole(Encrypt(m, Sub(x), w, round))
    ensures Load64(Store64(Whole(Decrypt(m, Sub(x), w, round))), 0) == Whole(Decrypt(m, Sub(x), w, round))
    ensures Decrypt(m, Sub(Whole(Encrypt(m, Sub(x), w, round))), w, round) == Sub(x)
    ensures Encrypt(m, Sub(Whole(Decrypt(m, Sub(x), w, round))), w, round) == Sub(x)
  {
    LoadStore(Whole(Encrypt(m, Sub(x), w, round)), []);
    assert Store64(Whole(Encrypt(m, Sub(x), w, round))) + [] == Store64(Whole(Encrypt(m, Sub(x), w, round)));
    LoadStore(Whole(Decrypt(m, Sub(x), w, round)), []);
    assert Store64(Whole(Decrypt(m, Sub(x), w, round))) + [] == Store64(Whole(Decrypt(m, Sub(x), w, round)));
    SubWhole(Encrypt(m, Sub(x), w, round));
    DecryptEncrypt(m, Sub(x), w, round);
    SubWhole(Decrypt(m, Sub(x), w, round));
    EncryptDecrypt(m, Sub(x), w, round);
  }

  lemma CoreCipherInvertible(m: Mixers, w: seq<Word>, round: int)
    requires |w| == 8
    ensures Invertible(CoreCipher(m, w, round))
  {
    var c := CoreCipher(m, w, round);
    forall b: Block8
      ensures c.decrypt(c.encrypt(b)) == b && c.encrypt(c.decrypt(b)) == b
    {
      var x := Load64(b, 0);
      CoreCipherStep(m, w, round, x);
      WholeSub(x);
      StoreLoad(b, 0);
      assert b[0..8] == b;
    }
  }

  /**
   * What descramble writes for input bytes `s` and chaining block `cbc`:
   * every full 8-byte block becomes decrypt(block) xor cbc, with the block
   * itself the next chaining block; fewer than 8 remaining bytes are xored
   * with the leading bytes of encrypt(cbc).
   */
  function DescrambleSpec(c: BlockCipher, s: seq<Byte>, cbc: Block8): (out: seq<Byte>)
    ensures |out| == |s|
    decreases |s|
  {
    if |s| >= 8 then XorBytes(c.decrypt(s[..8]), cbc) + DescrambleSpec(c, s[8..], s[..8])
    else XorBytes(s, c.encrypt(cbc))
  }

  /**
   * The scrambler DescrambleSpec undoes: CBC encryption over the full
   * blocks, the same keystream over the tail.
   */
  function ScrambleSpec(c: BlockCipher, s: seq<Byte>, cbc: Block8): (out: seq<Byte>)
    ensures |out| == |s|
    decreases |s|
  {
    if |s| >= 8 then
      var e := c.encrypt(XorBytes(s[..8], cbc));
      e + ScrambleSpec(c, s[8..], e)
    else XorBytes(s, c.encrypt(cbc))
  }

  /** Descrambling recovers every scrambled buffer. */
  lemma {:induction false} DescrambleScramble(c: BlockCipher, s: seq<Byte>, cbc: Block8)
    requires Invertible(c)
    ensures DescrambleSpec(c, ScrambleSpec(c, s, cbc), cbc) == s
    decreases |s|
  {
    if |s| >= 8 {
      var p: Block8 := XorBytes(s[..8], cbc);
      var e := c.encrypt(p);
      var rest := ScrambleSpec(c, s[8..], e);
      var t: seq<Byte> := e + rest;
      assert ScrambleSpec(c, s, cbc) == t;
      assert t[..8] == e && t[8..] == rest;
      XorBytesTwice(s[..8], cbc);
      DescrambleScramble(c, s[8..], e);
      assert s == s[..8] + s[8..];
    } else {
      XorBytesTwice(s, c.encrypt(cbc));
    }
  }

  /** Scrambling the descrambled bytes gives back the input: descrambling loses nothing. */
  lemma {:induction false} ScrambleDescramble(c: BlockCipher, s: seq<Byte>, cbc: Block8)
    requires Invertible(c)
    ensures ScrambleSpec(c, DescrambleSpec(c, s, cbc), cbc) == s
    decreases |s|
  {
    if |s| >= 8 {
      var d := c.decrypt(s[..8]);
      var p: Block8 := XorBytes(d, cbc);
      var rest := DescrambleSpec(c, s[8..], s[..8]);
      var t: seq<Byte> := p + rest;
      assert DescrambleSpec(c, s, cbc) == t;
      assert t[..8] == p && t[8..] == rest;
      XorBytesTwice(d, cbc);
      ScrambleDescramble(c, s[8..], s[..8]);
      assert s == s[..8] + s[8..];
    } else {
      XorBytesTwice(s, c.encrypt(cbc));
    }
  }

  /** The chaining block of block k: the initial block, then the previous input block. */
  function Chain(s: seq<Byte>, init: Block8, k: nat): (cbc: Block8)
    requires 8 * k <= |s|
    ensures k > 0 ==> cbc == s[8 * (k - 1)..8 * k]
  {
    if k == 0 then init else s[8 * (k - 1)..8 * k]
  }

  /**
   * Block k of the output depends only on input blocks k and k-1:
   * out_k = decrypt(in_k) xor in_{k-1}, with the initial block for k = 0.
   */
  lemma {:induction false} DescrambleBlock(c: BlockCipher, s: seq<Byte>, init: Block8, k: nat)
    requires 8 * k + 8 <= |s|
    ensures DescrambleSpec(c, s, init)[8 * k..8 * k + 8] == XorBytes(c.decrypt(s[8 * k..8 * k + 8]), Chain(s, init, k))
    decreases k
  {
    var rest := DescrambleSpec(c, s[8..], s[..8]);
    assert DescrambleSpec(c, s, init) == XorBytes(c.decrypt(s[..8]), init) + rest;
    if k > 0 {
      DescrambleBlock(c, s[8..], s[..8], k - 1);
      assert s[8..][8 * (k - 1)..8 * (k - 1) + 8] == s[8 * k..8 * k + 8];
      assert Chain(s[8..], s[..8], k - 1) == Chain(s, init, k);
      assert DescrambleSpec(c, s, init)[8 * k..8 * k + 8] == rest[8 * (k - 1)..8 * (k - 1) + 8];
    }
  }

  /**
   * The |s| mod 8 trailing bytes are the input xored with the leading
   * bytes of encrypt(cbc), cbc being the last full input block (or the
   * initial block when there is none).
   */
  lemma {:induction false} DescrambleTail(c: BlockCipher, s: seq<Byte>, init: Block8)
    ensures var q := |s| / 8;
      DescrambleSpec(c, s, init)[8 * q..] == XorBytes(s[8 * q..], c.encrypt(Chain(s, init, q)))
    decreases |s|
  {
    if |s| >= 8 {
      var rest := DescrambleSpec(c, s[8..], s[..8]);
      var q := |s| / 8;
      assert DescrambleSpec(c, s, init) == XorBytes(c.decrypt(s[..8]), init) + rest;
      DescrambleTail(c, s[8..], s[..8]);
      assert |s[8..]| / 8 == q - 1;
      assert s[8..][8 * (q - 1)..] == s[8 * q..];
      assert Chain(s[8..], s[..8], q - 1) == Chain(s, init, q);
      assert DescrambleSpec(c, s, init)[8 * q..] == rest[8 * (q - 1)..];
    }
  }

  /** Copies `bytes` into buf at pos (HTOBE64 writes the 8 bytes of a block this way). */
  method WriteBytes<T>(buf: array<T>, pos: nat, bytes: seq<T>)
    requires pos + |bytes| <= buf.Length
    modifies buf
    ensures buf[..] == old(buf[..pos]) + bytes + old(buf[pos + |bytes|..])
  {
    ghost var mid := buf[..];
    var i := 0;
    while i < |bytes|
      invariant 0 <= i <= |bytes|
      invariant buf[..] == mid[..pos] + bytes[..i] + mid[pos + i..]
    {
      buf[pos + i] := bytes[i];
      i := i + 1;
    }
  }

  /** The 64-bit xor of the loop, on the stored bytes. */
  lemma DecryptBlockBytes(m: Mixers, w: seq<Word>, round: int, s: seq<Byte>, pos: nat, cbc: bv64)
    requires |w| == 8 && pos + 8 <= |s|
    ensures Store64(Whole(Decrypt(m, Sub(Load64(s, pos)), w, round)) ^ cbc)
         == XorBytes(CoreCipher(m, w, round).decrypt(s[pos..pos + 8]), Store64(cbc))
  {
    var b: Block8 := s[pos..pos + 8];
    LoadBlock(s, pos);
    var x := Whole(Decrypt(m, Sub(Load64(b, 0)), w, round));
    assert CoreCipher(m, w, round).decrypt(b) == Store64(x);
    StoreXor(x, cbc);
  }

  /**
   * One pass of descramble's block loop at pos: the 8 bytes there are
   * replaced by decrypt(block) xor cbc; the block read is returned as the
   * next chaining value.
   */
  method DecryptBlockAt(m: Mixers, buf: array<Byte>, pos: nat, w: seq<Word>, round: int, cbc: bv64) returns (src: bv64)
    requires |w| == 8 && pos + 8 <= buf.Length
    modifies buf
    ensures Store64(src) == old(buf[..])[pos..pos + 8]
    ensures buf[..] == old(buf[..])[..pos] + XorBytes(CoreCipher(m, w, round).decrypt(old(buf[..])[pos..pos + 8]), Store64(cbc)) + old(buf[..])[pos + 8..]
  {
    src := Load64(buf[..], pos);
    LoadBlock(buf[..], pos);
    var dec := CoreDecrypt(m, Sub(src), w, round);
    var dst := Whole(dec) ^ cbc;
    DecryptBlockBytes(m, w, round, buf[..], pos, cbc);
    WriteBytes(buf, pos, Store64(dst));
  }

  /** The keystream of the tail, on the stored bytes. */
  lemma EncryptBlockBytes(m: Mixers, w: seq<Word>, round: int, cbc: bv64)
    requires |w| == 8
    ensures Store64(Whole(Encrypt(m, Sub(cbc), w, round))) == CoreCipher(m, w, round).encrypt(Store64(cbc))
  {
    LoadStore(cbc, []);
    assert Store64(cbc) + [] == Store64(cbc);
  }

  /** The tail of descramble at pos: n < 8 bytes xored with the bytes of encrypt(cbc). */
  method XorTailAt(m: Mixers, buf: array<Byte>, pos: nat, n: nat, w: seq<Word>, round: int, cbc: bv64)
    requires |w| == 8 && n < 8 && pos + n <= buf.Length
    modifies buf
    ensures buf[..] == old(buf[..])[..pos] + XorBytes(old(buf[..])[pos..pos + n], CoreCipher(m, w, round).encrypt(Store64(cbc))) + old(buf[..])[pos + n..]
  {
    var t := CoreEncrypt(m, Sub(cbc), w, round);
    var tmp := Store64(Whole(t));
    EncryptBlockBytes(m, w, round, cbc);
    XorInPlace(buf, pos, n, tmp);
  }

  /** The xor loop of descramble's tail: buf[pos .. pos + n) ^= key[0 .. n). */
  method XorInPlace(buf: array<Byte>, pos: nat, n: nat, key: seq<Byte>)
    requires n <= |key| && pos + n <= buf.Length
    modifies buf
    ensures buf[..] == old(buf[..])[..pos] + XorBytes(old(buf[..])[pos..pos + n], key) + old(buf[..])[pos + n..]
  {
    ghost var mid := buf[..];
    var i := 0;
    while i < n
      invariant 0 <= i <= n
      invariant buf[..] == mid[..pos] + XorBytes(mid[pos..pos + i], key) + mid[pos + i..]
    {
      buf[pos + i] := buf[pos + i] ^ key[i];
      i := i + 1;
    }
  }

  /** The three parts of x + y around the n elements that follow x. */
  lemma AppendParts<T>(x: seq<T>, y: seq<T>, n: nat)
    requires n <= |y|
    ensures (x + y)[..|x|] == x
    ensures (x + y)[|x|..|x| + n] == y[..n]
    ensures (x + y)[|x| + n..] == y[n..]
  {
  }

  lemma Replace3<T>(e: seq<T>, a: seq<T>, b: seq<T>, c: seq<T>, a': seq<T>, b': seq<T>, c': seq<T>)
    requires e == a + b + c && a == a' && b == b' && c == c'
    ensures e == a' + b' + c'
  {
  }

  lemma Regroup<T>(a: seq<T>, b: seq<T>, c: seq<T>, d: seq<T>, e: seq<T>)
    requires e == a + b + c + d
    ensures e == a + (b + c) + d
  {
  }

  lemma ShiftDone<T>(done: seq<T>, blk: seq<T>, rest: seq<T>, s: seq<T>, whole: seq<T>)
    requires done + s == whole && s == blk + rest
    ensures (done + blk) + rest == whole
  {
  }

  /** One full block of DescrambleSpec. */
  lemma DescrambleUnfold(c: BlockCipher, s: seq<Byte>, cbc: Block8)
    requires |s| >= 8
    ensures DescrambleSpec(c, s, cbc) == XorBytes(c.decrypt(s[..8]), cbc) + DescrambleSpec(c, s[8..], s[..8])
  {
  }

  /**
   * How far descramble's block loop has got over before[start .. end):
   * the blocks before pos are descrambled into `out`, the rest is still as
   * it was, and cbc is the chaining value for the block at pos.
   */
  ghost predicate Progress(c: BlockCipher, before: seq<Byte>, start: nat, end: nat, init: bv64,
                           pos: nat, out: seq<Byte>, cbc: bv64, now: seq<Byte>)
  {
    && start <= pos <= end <= |before|
    && |out| == pos - start
    && now == before[..start] + out + before[pos..]
    && out + DescrambleSpec(c, before[pos..end], Store64(cbc)) == DescrambleSpec(c, before[start..end], Store64(init))
  }

  /** One pass of the block loop keeps Progress, 8 bytes further on. */
  lemma BlockProgress(c: BlockCipher, before: seq<Byte>, start: nat, end: nat, init: bv64, pos: nat,
                      out: seq<Byte>, cbc: bv64, prev: seq<Byte>, now: seq<Byte>, next: bv64)
    requires pos + 8 <= end
    requires Progress(c, before, start, end, init, pos, out, cbc, prev)
    requires Store64(next) == prev[pos..pos + 8]
    requires now == prev[..pos] + XorBytes(c.decrypt(prev[pos..pos + 8]), Store64(cbc)) + prev[pos + 8..]
    ensures Progress(c, before, start, end, init, pos + 8, out + XorBytes(c.decrypt(prev[pos..pos + 8]), Store64(cbc)), next, now)
  {
    var rest := before[pos..end];
    var x := before[..start] + out;
    var y := before[pos..];
    var key := Store64(cbc);
    var blk := XorBytes(c.decrypt(rest[..8]), key);
    var tail := DescrambleSpec(c, rest[8..], rest[..8]);
    DescrambleUnfold(c, rest, key);
    AppendParts(x, y, 8);
    assert prev[..pos] == x;
    assert prev[pos..pos + 8] == rest[..8];
    assert prev[pos + 8..] == before[pos + 8..];
    assert rest[8..] == before[pos + 8..end];
    Replace3(now, prev[..pos], XorBytes(c.decrypt(prev[pos..pos + 8]), key), prev[pos + 8..], x, blk, y[8..]);
    Regroup(before[..start], out, blk, before[pos + 8..], now);
    assert DescrambleSpec(c, before[pos + 8..end], Store64(next)) == tail;
    ShiftDone(out, blk, tail, DescrambleSpec(c, rest, key), DescrambleSpec(c, before[start..end], Store64(init)));
  }

  /** One pass of the block loop: the block at pos is decrypted and chained. */
  method BlockStep(m: Mixers, buf: array<Byte>, w: seq<Word>, round: int, ghost before: seq<Byte>,
                   ghost start: nat, ghost end: nat, ghost init: bv64, pos: nat, ghost out: seq<Byte>, cbc: bv64)
    returns (pos': nat, next: bv64, ghost out': seq<Byte>)
    requires |w| == 8 && pos + 8 <= end
    requires Progress(CoreCipher(m, w, round), before, start, end, init, pos, out, cbc, buf[..])
    modifies buf
    ensures pos' == pos + 8
    ensures Progress(CoreCipher(m, w, round), before, start, end, init, pos', out', next, buf[..])
  {
    ghost var prev := buf[..];
    next := DecryptBlockAt(m, buf, pos, w, round, cbc);
    out' := out + XorBytes(CoreCipher(m, w, round).decrypt(prev[pos..pos + 8]), Store64(cbc));
    BlockProgress(CoreCipher(m, w, round), before, start, end, init, pos, out, cbc, prev, buf[..], next);
    pos' := pos + 8;
  }

  /** Xoring the fewer than 8 bytes left with encrypt(cbc) completes the descrambling. */
  lemma TailProgress(c: BlockCipher, before: seq<Byte>, start: nat, end: nat, init: bv64, pos: nat, rem: nat,
                     out: seq<Byte>, cbc: bv64, prev: seq<Byte>, now: seq<Byte>)
    requires pos + rem == end && rem < 8
    requires Progress(c, before, start, end, init, pos, out, cbc, prev)
    requires rem > 0 ==> now == prev[..pos] + XorBytes(prev[pos..pos + rem], c.encrypt(Store64(cbc))) + prev[pos + rem..]
    requires rem == 0 ==> now == prev
    ensures now == before[..start] + DescrambleSpec(c, before[start..end], Store64(init)) + before[end..]
  {
    var rest := before[pos..end];
    var x := before[..start] + out;
    var y := before[pos..];
    var key := c.encrypt(Store64(cbc));
    var tail := DescrambleSpec(c, rest, Store64(cbc));
    assert tail == XorBytes(rest, key);
    AppendParts(x, y, rem);
    assert prev[..pos] == x;
    assert prev[pos..end] == rest;
    assert prev[end..] == before[end..];
    if rem > 0 {
      assert prev[pos..pos + rem] == rest;
      assert XorBytes(prev[pos..pos + rem], key) == tail;
      assert prev[pos + rem..] == y[rem..];
      Replace3(now, prev[..pos], XorBytes(prev[pos..pos + rem], key), prev[pos + rem..], x, tail, y[rem..]);
    } else {
      assert tail == [];
      assert now == x + tail + y[rem..];
    }
    Regroup(before[..start], out, tail, before[end..], now);
  }

  /** The tail after the block loop: what is left (fewer than 8 bytes) is xored with encrypt(cbc). */
  method TailStep(m: Mixers, buf: array<Byte>, w: seq<Word>, round: int, ghost before: seq<Byte>,
                  ghost start: nat, ghost end: nat, ghost init: bv64, pos: nat, rem: nat, ghost out: seq<Byte>, cbc: bv64)
    requires |w| == 8 && pos + rem == end && rem < 8
    requires Progress(CoreCipher(m, w, round), before, start, end, init, pos, out, cbc, buf[..])
    modifies buf
    ensures buf[..] == before[..start] + DescrambleSpec(CoreCipher(m, w, round), before[start..end], Store64(init)) + before[end..]
  {
    ghost var prev := buf[..];
    if rem > 0 {
      XorTailAt(m, buf, pos, rem, w, round, cbc);
    }
    TailProgress(CoreCipher(m, w, round), before, start, end, init, pos, rem, out, cbc, prev, buf[..]);
  }

  /** Progress holds before the first block: nothing written yet. */
  lemma ProgressInit(c: BlockCipher, before: seq<Byte>, start: nat, end: nat, init: bv64)
    requires start <= end <= |before|
    ensures Progress(c, before, start, end, init, start, [], init, before)
  {
    assert before == before[..start] + [] + before[start..];
    assert [] + DescrambleSpec(c, before[start..end], Store64(init)) == DescrambleSpec(c, before[start..end], Store64(init));
  }

  /** descramble's block loop: whole blocks from pos on, until fewer than 8 bytes are left. */
  method BlockLoop(m: Mixers, buf: array<Byte>, w: seq<Word>, round: int, ghost before: seq<Byte>,
                   ghost start: nat, ghost end: nat, init: bv64, pos0: nat, len: nat)
    returns (pos: nat, rem: nat, cbc: bv64, ghost out: seq<Byte>)
    requires |w| == 8 && pos0 + len == end
    requires Progress(CoreCipher(m, w, round), before, start, end, init, pos0, [], init, buf[..])
    modifies buf
    ensures pos + rem == end && rem < 8
    ensures Progress(CoreCipher(m, w, round), before, start, end, init, pos, out, cbc, buf[..])
  {
    out := [];
    cbc := init;
    pos := pos0;
    rem := len;
    while rem >= 8
      invariant pos + rem == end
      invariant Progress(CoreCipher(m, w, round), before, start, end, init, pos, out, cbc, buf[..])
      decreases rem
    {
      rem := rem - 8;
      pos, cbc, out := BlockStep(m, buf, w, round, before, start, end, init, pos, out, cbc);
    }
  }

  /** The block loop over len bytes from start, followed by the tail. */
  method DescrambleSpan(m: Mixers, buf: array<Byte>, start: nat, len: nat, w: seq<Word>, round: int, init: bv64)
    requires |w| == 8
    requires start + len <= buf.Length
    modifies buf
    ensures buf[..] == old(buf[..])[..start] + DescrambleSpec(CoreCipher(m, w, round), old(buf[..])[start..start + len], Store64(init)) + old(buf[..])[start + len..]
  {
    ghost var before := buf[..];
    ProgressInit(CoreCipher(m, w, round), before, start, start + len, init);
    var pos, rem, cbc, out := BlockLoop(m, buf, w, round, before, start, start + len, init, start, len);
    TailStep(m, buf, w, round, before, start, start + len, init, pos, rem, out, cbc);
  }

  /**
   * descramble, in place (ibuf == obuf, the only way the packet entry point
   * calls it): buf[start .. start + len) is replaced by its descrambling and
   * nothing else is written; len <= 0 writes nothing.
   */
  method Descramble(m: Mixers, buf: array<Byte>, start: nat, len: int, w: seq<Word>, round: int, init: bv64)
    requires |w| == 8
    requires len <= 0 || start + len <= buf.Length
    modifies buf
    ensures len <= 0 ==> buf[..] == old(buf[..])
    ensures len > 0 ==> buf[..] == old(buf[..])[..start] + DescrambleSpec(CoreCipher(m, w, round), old(buf[..])[start..start + len], Store64(init)) + old(buf[..])[start + len..]
  {
    if len > 0 {
      DescrambleSpan(m, buf, start, len, w, round, init);
    }
  }

  /** The decryption keys of one packet parity: index 0 is even, 1 is odd. */
  ghost predicate WellFormedWork(wrk: seq<seq<Word>>)
  {
    |wrk| == 2 && |wrk[0]| == 8 && |wrk[1]| == 8
  }

  /** The two-bit transport_scrambling_control of a packet. */
  function Control(packet: seq<Byte>): (control: nat)
    requires |packet| == PacketSize
    ensures control < 4
  {
    ControlBits(packet[3])
  }

  /** The top two bits of a flags byte, as a number. */
  function ControlBits(flags: Byte): (control: nat)
    ensures control < 4
  {
    (flags >> 6) as nat
  }

  /** Bytes between the header and the payload: the adaptation field with its length byte, if present. */
  function AdaptationLength(packet: seq<Byte>): (n: int)
    requires |packet| == PacketSize
    ensures 0 <= n <= 256
    ensures n > 0 <==> packet[3] & 0x20 != 0
  {
    if packet[3] & 0x20 != 0 then packet[4] as int + 1 else 0
  }

  /** What multi2_decrypt_packet returns and leaves in the packet. */
  datatype PacketResult = PacketResult(status: int, packet: seq<Byte>)

  /** The packet with the bytes from start on descrambled; a start at or past the end leaves it alone. */
  function DescramblePayload(c: BlockCipher, packet: seq<Byte>, start: nat, iv: Block8): (r: seq<Byte>)
    ensures |r| == |packet|
  {
    if start < |packet| then packet[..start] + DescrambleSpec(c, packet[start..], iv) else packet
  }

  /** The packet with the bytes from start on scrambled; the counterpart of DescramblePayload. */
  function ScramblePayload(c: BlockCipher, packet: seq<Byte>, start: nat, iv: Block8): (r: seq<Byte>)
    ensures |r| == |packet|
  {
    if start < |packet| then packet[..start] + ScrambleSpec(c, packet[start..], iv) else packet
  }

  /** DescramblePayload keeps the bytes before start and descrambles the rest. */
  lemma DescramblePayloadParts(c: BlockCipher, packet: seq<Byte>, start: nat, iv: Block8)
    requires start <= |packet|
    ensures var r := DescramblePayload(c, packet, start, iv);
      && r[..start] == packet[..start]
      && r[start..] == DescrambleSpec(c, packet[start..], iv)
  {
    var r := DescramblePayload(c, packet, start, iv);
    if start < |packet| {
      AppendParts(packet[..start], DescrambleSpec(c, packet[start..], iv), |packet| - start);
    } else {
      assert packet[start..] == [];
    }
  }

  /** ScramblePayload keeps the bytes before start and scrambles the rest. */
  lemma ScramblePayloadParts(c: BlockCipher, packet: seq<Byte>, start: nat, iv: Block8)
    requires start <= |packet|
    ensures var r := ScramblePayload(c, packet, start, iv);
      && r[..start] == packet[..start]
      && r[start..] == ScrambleSpec(c, packet[start..], iv)
  {
    if start < |packet| {
      AppendParts(packet[..start], ScrambleSpec(c, packet[start..], iv), |packet| - start);
    } else {
      assert packet[start..] == [];
    }
  }

  /** Writing a header byte before start commutes with DescramblePayload. */
  lemma DescramblePayloadHeader(c: BlockCipher, packet: seq<Byte>, start: nat, iv: Block8, i: nat, v: Byte)
    requires i < start && i < |packet|
    ensures DescramblePayload(c, packet[i := v], start, iv) == DescramblePayload(c, packet, start, iv)[i := v]
  {
    if start < |packet| {
      assert packet[i := v][..start] == packet[..start][i := v];
      assert packet[i := v][start..] == packet[start..];
    }
  }

  /** Descrambling a scrambled payload gives the packet back. */
  lemma {:induction false} PayloadRoundTrip(c: BlockCipher, packet: seq<Byte>, start: nat, iv: Block8)
    requires Invertible(c)
    ensures DescramblePayload(c, ScramblePayload(c, packet, start, iv), start, iv) == packet
  {
    if start < |packet| {
      var head := packet[..start];
      var tail := ScrambleSpec(c, packet[start..], iv);
      var sp := ScramblePayload(c, packet, start, iv);
      assert sp[..start] == head && sp[start..] == tail by {
        AppendParts(head, tail, |packet| - start);
      }
      assert DescrambleSpec(c, tail, iv) == packet[start..] by {
        DescrambleScramble(c, packet[start..], iv);
      }
      assert DescramblePayload(c, sp, start, iv) == head + packet[start..];
      assert head + packet[start..] == packet;
    }
  }

  /** Writing byte i of a body whose first n bytes are those of packet. */
  lemma HeaderWrite<T>(body: seq<T>, packet: seq<T>, n: nat, i: nat, v: T)
    requires |body| == |packet| && i < n <= |packet| && body[..n] == packet[..n]
    ensures var r := body[i := v];
      && r[..i] == packet[..i] && r[i] == v && r[i + 1..n] == packet[i + 1..n] && r[n..] == body[n..]
  {
    var r := body[i := v];
    assert r[..i] == body[..n][..i];
    assert r[i + 1..n] == body[..n][i + 1..n];
  }

  /** The block ciphers of the two parities, [0] even and [1] odd, from the scheduled work keys. */
  function PacketKeys(m: Mixers, wrk: seq<seq<Word>>): (keys: seq<BlockCipher>)
    requires WellFormedWork(wrk)
    ensures |keys| == 2
    ensures keys[0] == CoreCipher(m, wrk[0], Rounds) && keys[1] == CoreCipher(m, wrk[1], Rounds)
  {
    [CoreCipher(m, wrk[0], Rounds), CoreCipher(m, wrk[1], Rounds)]
  }

  /** Both parities' ciphers are invertible. */
  lemma PacketKeysInvertible(m: Mixers, wrk: seq<seq<Word>>)
    requires WellFormedWork(wrk)
    ensures Invertible(PacketKeys(m, wrk)[0]) && Invertible(PacketKeys(m, wrk)[1])
  {
    CoreCipherInvertible(m, wrk[0], Rounds);
    CoreCipherInvertible(m, wrk[1], Rounds);
  }

  /**
   * The effect of multi2_decrypt_packet on a 188-byte packet, given the
   * ciphers of the two parities and the CBC initial value.
   */
  function DecryptPacketSpec(keys: seq<BlockCipher>, iv: Block8, packet: seq<Byte>): (res: PacketResult)
    requires |packet| == PacketSize && |keys| == 2
    ensures |res.packet| == PacketSize
  {
    var control := Control(packet);
    if control == 0 then PacketResult(0, packet)
    else if control == 1 then PacketResult(-EINVAL, packet)
    else
      var body := DescramblePayload(keys[control - 2], packet, 4 + AdaptationLength(packet), iv);
      PacketResult(0, body[3 := packet[3] & 0x3f])
  }

  /**
   * The scrambler that pairs with the packet entry point: the payload after
   * any adaptation field is scrambled with the key of `parity` (0 even,
   * 1 odd) and the scrambling-control bits are set to 2 + parity.
   */
  function ScramblePacket(keys: seq<BlockCipher>, iv: Block8, packet: seq<Byte>, parity: nat): (out: seq<Byte>)
    requires |packet| == PacketSize && |keys| == 2 && parity < 2
    ensures |out| == PacketSize
  {
    var body := ScramblePayload(keys[parity], packet, 4 + AdaptationLength(packet), iv);
    body[3 := (packet[3] & 0x3f) | (if parity == 0 then 0x80 else 0xc0)]
  }

  /** Control 0 (not scrambled): returns 0, packet unchanged. */
  lemma ClearPacketUnchanged(keys: seq<BlockCipher>, iv: Block8, packet: seq<Byte>)
    requires |packet| == PacketSize && |keys| == 2
    requires Control(packet) == 0
    ensures DecryptPacketSpec(keys, iv, packet) == PacketResult(0, packet)
  {
  }

  /** Control 1 (reserved): returns -EINVAL, packet unchanged. */
  lemma ReservedControlRejected(keys: seq<BlockCipher>, iv: Block8, packet: seq<Byte>)
    requires |packet| == PacketSize && |keys| == 2
    requires Control(packet) == 1
    ensures DecryptPacketSpec(keys, iv, packet) == PacketResult(-EINVAL, packet)
  {
  }

  /** Clearing the top two bits of the flags byte leaves control 0. */
  lemma ClearedControl(flags: Byte)
    ensures ControlBits(flags & 0x3f) == 0
  {
  }

  /**
   * Control 2 or 3: returns 0; the header bytes other than the cleared
   * control bits and the adaptation field are kept; exactly the bytes
   * [4 + off, 188) are descrambled, with the even key for 2 and the odd key
   * for 3; the result says the packet is no longer scrambled.
   */
  lemma ScrambledPacketDecrypted(keys: seq<BlockCipher>, iv: Block8, packet: seq<Byte>)
    requires |packet| == PacketSize && |keys| == 2
    requires Control(packet) >= 2
    ensures var res := DecryptPacketSpec(keys, iv, packet);
      var start := 4 + AdaptationLength(packet);
      && res.status == 0
      && res.packet[..3] == packet[..3]
      && res.packet[3] == packet[3] & 0x3f
      && Control(res.packet) == 0
      && (start < PacketSize ==>
            res.packet[4..start] == packet[4..start]
            && res.packet[start..] == DescrambleSpec(keys[Control(packet) - 2], packet[start..], iv))
      && (start >= PacketSize ==> res.packet[4..] == packet[4..])
  {
    var start := 4 + AdaptationLength(packet);
    var c := keys[Control(packet) - 2];
    var body := DescramblePayload(c, packet, start, iv);
    if start < PacketSize {
      DescramblePayloadParts(c, packet, start, iv);
      HeaderWrite(body, packet, start, 3, packet[3] & 0x3f);
    } else {
      HeaderWrite(body, packet, |packet|, 3, packet[3] & 0x3f);
    }
    ClearedControl(packet[3]);
  }

  /** Setting the control bits keeps the adaptation flag, and reads back as 2 + parity. */
  lemma SetControl(flags: Byte, parity: nat)
    requires parity < 2
    ensures var h: Byte := (flags & 0x3f) | (if parity == 0 then 0x80 else 0xc0);
      && ControlBits(h) == 2 + parity
      && h & 0x20 == flags & 0x20
      && h & 0x3f == flags & 0x3f
  {
  }

  /** ScramblePacket sets control 2 + parity and keeps the adaptation field length and the other flags. */
  lemma ScrambledPacketHeader(keys: seq<BlockCipher>, iv: Block8, packet: seq<Byte>, parity: nat)
    requires |packet| == PacketSize && |keys| == 2 && parity < 2
    requires Control(packet) == 0
    ensures var sp := ScramblePacket(keys, iv, packet, parity);
      && Control(sp) == 2 + parity
      && AdaptationLength(sp) == AdaptationLength(packet)
      && sp[3] & 0x3f == packet[3]
  {
    var c := keys[parity];
    var start := 4 + AdaptationLength(packet);
    var body := ScramblePayload(c, packet, start, iv);
    if start < PacketSize {
      ScramblePayloadParts(c, packet, start, iv);
    }
    ScrambledHeader(body, packet, parity);
  }

  /** Descrambling the payload of ScramblePacket restores every byte but the flags byte. */
  lemma ScrambledPayloadRestored(keys: seq<BlockCipher>, iv: Block8, packet: seq<Byte>, parity: nat)
    requires |packet| == PacketSize && |keys| == 2 && parity < 2
    requires Invertible(keys[parity])
    ensures var sp := ScramblePacket(keys, iv, packet, parity);
      DescramblePayload(keys[parity], sp, 4 + AdaptationLength(packet), iv)[3 := packet[3]] == packet
  {
    var c := keys[parity];
    var start := 4 + AdaptationLength(packet);
    var body := ScramblePayload(c, packet, start, iv);
    var h: Byte := (packet[3] & 0x3f) | (if parity == 0 then 0x80 else 0xc0);
    DescramblePayloadHeader(c, body, start, iv, 3, h);
    PayloadRoundTrip(c, packet, start, iv);
    assert packet[3 := h][3 := packet[3]] == packet;
  }

  /** Decrypting the scrambling of a clear packet gives it back, with status 0. */
  lemma DecryptScrambledPacket(keys: seq<BlockCipher>, iv: Block8, packet: seq<Byte>, parity: nat)
    requires |packet| == PacketSize && |keys| == 2 && parity < 2
    requires Control(packet) == 0 && Invertible(keys[parity])
    ensures DecryptPacketSpec(keys, iv, ScramblePacket(keys, iv, packet, parity)) == PacketResult(0, packet)
  {
    ScrambledPacketHeader(keys, iv, packet, parity);
    ScrambledPayloadRestored(keys, iv, packet, parity);
  }

  /**
   * The header of a scrambled packet: control 2 + parity and the same
   * adaptation field length, given that the bytes before the payload are kept.
   */
  lemma ScrambledHeader(body: seq<Byte>, packet: seq<Byte>, parity: nat)
    requires |body| == PacketSize && |packet| == PacketSize && parity < 2 && Control(packet) == 0
    requires var start := 4 + AdaptationLength(packet);
      if start < PacketSize then body[..start] == packet[..start] else body == packet
    ensures var sp := body[3 := (packet[3] & 0x3f) | (if parity == 0 then 0x80 else 0xc0)];
      && Control(sp) == 2 + parity
      && AdaptationLength(sp) == AdaptationLength(packet)
      && sp[3] & 0x3f == packet[3]
  {
    var start := 4 + AdaptationLength(packet);
    SetControl(packet[3], parity);
    if start < PacketSize {
      assert body[3] == body[..start][3];
      if packet[3] & 0x20 != 0 {
        assert body[4] == body[..start][4];
      }
    }
    assert packet[3] & 0x3f == packet[3];
  }

  /**
   * The steps of multi2_decrypt_packet for control 2 or 3: descramble the
   * span [p, p + len) in place, then clear the control bits.
   */
  lemma DescrambledPacketIs(keys: seq<BlockCipher>, iv: Block8, original: seq<Byte>, p: nat, len: int,
                            body: seq<Byte>, final: seq<Byte>)
    requires |original| == PacketSize && |keys| == 2 && Control(original) >= 2
    requires p == 4 + AdaptationLength(original) && p + len == PacketSize
    requires len <= 0 ==> body == original
    requires len > 0 ==> body == original[..p] + DescrambleSpec(keys[Control(original) - 2], original[p..p + len], iv) + original[p + len..]
    requires |body| == PacketSize && final == body[3 := body[3] & 0x3f]
    ensures PacketResult(0, final) == DecryptPacketSpec(keys, iv, original)
  {
    var c := keys[Control(original) - 2];
    SpliceIsPayload(c, original, p, len, iv, body);
    if p < PacketSize {
      DescramblePayloadParts(c, original, p, iv);
      assert body[3] == body[..p][3];
    }
  }

  /** What descramble leaves in the buffer, when its span runs to the end, is DescramblePayload. */
  lemma SpliceIsPayload(c: BlockCipher, before: seq<Byte>, start: nat, len: int, iv: Block8, after: seq<Byte>)
    requires start + len == |before|
    requires len <= 0 ==> after == before
    requires len > 0 ==> after == before[..start] + DescrambleSpec(c, before[start..start + len], iv) + before[start + len..]
    ensures after == DescramblePayload(c, before, start, iv)
  {
    if len > 0 {
      assert before[start..start + len] == before[start..];
      assert before[start + len..] == [];
    }
  }

  /** struct demulti2_key_info: the scramble keys and work keys of both parities. */
  class KeyInfo {
    /** k_scr: the raw keys as loaded, [0] even, [1] odd. */
    var scrambleKeys: seq<bv64>
    /** wrk: the scheduled work keys, [0] even, [1] odd. */
    var work: seq<seq<Word>>

    ghost predicate Valid()
      reads this
    {
      |scrambleKeys| == 2 && WellFormedWork(work)
    }

    /** multi2_get_key_struct; the store starts zeroed here. */
    constructor ()
      ensures Valid()
      ensures scrambleKeys == [0, 0] && work == [seq(8, _ => 0), seq(8, _ => 0)]
    {
      scrambleKeys := [0, 0];
      work := [seq(8, _ => 0), seq(8, _ => 0)];
    }

    /**
     * key_schedule: the 8 key bytes are read big-endian into k_scr[parity] and
     * scheduled into wrk[parity]; the other parity is untouched.
     */
    method KeySchedule(data: seq<Byte>, parity: nat)
      requires Valid() && parity < 2 && 8 <= |data|
      modifies this
      ensures Valid()
      ensures scrambleKeys == old(scrambleKeys)[parity := Load64(data, 0)]
      ensures work == old(work)[parity := CoreSchedule(SystemKey, Sub(Load64(data, 0)))]
    {
      var k := Load64(data, 0);
      scrambleKeys := scrambleKeys[parity := k];
      work := work[parity := CoreSchedule(SystemKey, Sub(k))];
    }

    /** multi2_odd_key_set: only the odd parity changes. */
    method OddKeySet(odd: seq<Byte>)
      requires Valid() && 8 <= |odd|
      modifies this
      ensures Valid()
      ensures scrambleKeys == [old(scrambleKeys)[0], Load64(odd, 0)]
      ensures work == [old(work)[0], CoreSchedule(SystemKey, Sub(Load64(odd, 0)))]
    {
      KeySchedule(odd, 1);
    }

    /** multi2_even_key_set: only the even parity changes. */
    method EvenKeySet(even: seq<Byte>)
      requires Valid() && 8 <= |even|
      modifies this
      ensures Valid()
      ensures scrambleKeys == [Load64(even, 0), old(scrambleKeys)[1]]
      ensures work == [CoreSchedule(SystemKey, Sub(Load64(even, 0))), old(work)[1]]
    {
      KeySchedule(even, 0);
    }

    /**
     * The payload span of multi2_decrypt_packet: it starts after the header
     * and, when flag 0x20 is set, after the adaptation field and its length
     * byte; it runs to the end of the packet (len <= 0 when nothing is left).
     */
    static method PayloadBounds(packet: array<Byte>) returns (p: nat, len: int)
      requires packet.Length == PacketSize
      ensures p == 4 + AdaptationLength(packet[..]) && p + len == PacketSize
    {
      p := 4;
      len := PayloadSize;
      if packet[3] & 0x20 != 0 {
        len := len - (packet[p] as int + 1);
        p := p + packet[p] as int + 1;
      }
    }

    /** multi2_decrypt_packet: descrambles a 188-byte packet in place. */
    method DecryptPacket(packet: array<Byte>) returns (r: int)
      requires Valid() && packet.Length == PacketSize
      modifies packet
      ensures PacketResult(r, packet[..]) == DecryptPacketSpec(PacketKeys(Multi2, work), Store64(CbcInit), old(packet[..]))
    {
      hide Store64, CoreCipher, DescrambleSpec, DescramblePayload;
      ghost var original := packet[..];
      var caFlags := (packet[3] >> 6) as int;
      if caFlags == 0 {
        return 0;
      } else if caFlags == 1 {
        return -EINVAL;
      }
      hide DecryptPacketSpec, DescrambleSpec, DescramblePayload;
      var p, len := PayloadBounds(packet);
      ghost var keys := PacketKeys(Multi2, work);
      assert Control(original) == caFlags;
      assert keys[Control(original) - 2] == CoreCipher(Multi2, work[caFlags - 2], Rounds);
      assert p == 4 + AdaptationLength(original) && p + len == PacketSize;
      Descramble(Multi2, packet, p, len, work[caFlags - 2], Rounds, CbcInit);
      ghost var body := packet[..];
      packet[3] := packet[3] & 0x3f;
      assert packet[..] == body[3 := body[3] & 0x3f];
      r := 0;
      DescrambledPacketIs(keys, Store64(CbcInit), original, p, len, body, packet[..]);
    }
  }
}
