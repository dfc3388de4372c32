/**
 SHA-256 as util/sha256.c computes it, one chunk at a time from however many
 writes, against the definition in FIPS 180-4: padding (section 5.1.1), the
 message schedule of 64 words and the compression function (section 6.2.2).
 */
module Sha256 {
  import opened Words

  const CHUNK: nat := 64   // SHA256_CHUNK_SIZE

  /** sha256_k. */
  function RoundConstant(t: nat): (k: word)
    requires t < 64
  {
    match t
    case 0 => 0x428a2f98
    case 1 => 0x71374491
    case 2 => 0xb5c0fbcf
    case 3 => 0xe9b5dba5
    case 4 => 0x3956c25b
    case 5 => 0x59f111f1
    case 6 => 0x923f82a4
    case 7 => 0xab1c5ed5
    case 8 => 0xd807aa98
    case 9 => 0x12835b01
    case 10 => 0x243185be
    case 11 => 0x550c7dc3
    case 12 => 0x72be5d74
    case 13 => 0x80deb1fe
    case 14 => 0x9bdc06a7
    case 15 => 0xc19bf174
    case 16 => 0xe49b69c1
    case 17 => 0xefbe4786
    case 18 => 0x0fc19dc6
    case 19 => 0x240ca1cc
    case 20 => 0x2de92c6f
    case 21 => 0x4a7484aa
    case 22 => 0x5cb0a9dc
    case 23 => 0x76f988da
    case 24 => 0x983e5152
    case 25 => 0xa831c66d
    case 26 => 0xb00327c8
    case 27 => 0xbf597fc7
    case 28 => 0xc6e00bf3
    case 29 => 0xd5a79147
    case 30 => 0x06ca6351
    case 31 => 0x14292967
    case 32 => 0x27b70a85
    case 33 => 0x2e1b2138
    case 34 => 0x4d2c6dfc
    case 35 => 0x53380d13
    case 36 => 0x650a7354
    case 37 => 0x766a0abb
    case 38 => 0x81c2c92e
    case 39 => 0x92722c85
    case 40 => 0xa2bfe8a1
    case 41 => 0xa81a664b
    case 42 => 0xc24b8b70
    case 43 => 0xc76c51a3
    case 44 => 0xd192e819
    case 45 => 0xd6990624
    case 46 => 0xf40e3585
    case 47 => 0x106aa070
    case 48 => 0x19a4c116
    case 49 => 0x1e376c08
    case 50 => 0x2748774c
    case 51 => 0x34b0bcb5
    case 52 => 0x391c0cb3
    case 53 => 0x4ed8aa4a
    case 54 => 0x5b9cca4f
    case 55 => 0x682e6ff3
    case 56 => 0x748f82ee
    case 57 => 0x78a5636f
    case 58 => 0x84c87814
    case 59 => 0x8cc70208
    case 60 => 0x90befffa
    case 61 => 0xa4506ceb
    case 62 => 0xbef9a3f7
    case _ => 0xc67178f2
  }

  function K(): (ks: seq<word>)
    ensures |ks| == 64 && forall t | 0 <= t < 64 :: ks[t] == RoundConstant(t)
  {
    seq(64, t requires 0 <= t < 64 => RoundConstant(t))
  }

  const LENGTH_SIZE: nat := 8   // bytes for the length of the message

  const IV: seq<word> := [
    0x6a09e667, 0xbb67ae85, 0x3c6ef372, 0xa54ff53a, 0x510e527f, 0x9b05688c, 0x1f83d9ab, 0x5be0cd19
  ]

  /* ---------- FIPS 180-4 ---------- */

  function Sigma0(x: word): (y: word) { Xor(Xor(Rotr(x, 2), Rotr(x, 13)), Rotr(x, 22)) }
  function Sigma1(x: word): (y: word) { Xor(Xor(Rotr(x, 6), Rotr(x, 11)), Rotr(x, 25)) }
  function Lower0(x: word): (y: word) { Xor(Xor(Rotr(x, 7), Rotr(x, 18)), Shr(x, 3)) }
  function Lower1(x: word): (y: word) { Xor(Xor(Rotr(x, 17), Rotr(x, 19)), Shr(x, 10)) }
  function Ch(x: word, y: word, z: word): (r: word) { Xor(And(x, y), And(Not(x), z)) }
  function Maj(x: word, y: word, z: word): (r: word) { Xor(Xor(And(x, y), And(x, z)), And(y, z)) }

  /** Bit by bit, Ch chooses between y and z, and Maj takes the majority. */
  lemma ChBit(x: word, y: word, z: word, i: nat)
    requires i < WIDTH
    ensures Bit(Ch(x, y, z), i) == if Bit(x, i) == 1 then Bit(y, i) else Bit(z, i)
  {
    hide Xor, And, Not, Bit;
    AndBit(x, y, i);
    AndBit(Not(x), z, i);
    NotBit(x, i);
    XorBit(And(x, y), And(Not(x), z), i);
  }

  lemma MajBit(x: word, y: word, z: word, i: nat)
    requires i < WIDTH
    ensures Bit(Maj(x, y, z), i) == if Bit(x, i) + Bit(y, i) + Bit(z, i) >= 2 then 1 else 0
  {
    hide Xor, And, Bit;
    AndBit(x, y, i);
    AndBit(x, z, i);
    AndBit(y, z, i);
    XorBit(And(x, y), And(x, z), i);
    XorBit(Xor(And(x, y), And(x, z)), And(y, z), i);
  }

  /** The exclusive-or of three words, bit by bit. */
  lemma XorThree(x: word, y: word, z: word, i: nat)
    requires i < WIDTH
    ensures Bit(Xor(Xor(x, y), z), i) == (Bit(x, i) + Bit(y, i) + Bit(z, i)) % 2
  {
    hide Xor, Bit;
    XorBit(x, y, i);
    XorBit(Xor(x, y), z, i);
  }

  /** The sigma functions, bit by bit, with the amounts of section 4.1.2 of FIPS 180-4. */
  lemma Sigma0Bit(x: word, i: nat)
    requires i < WIDTH
    ensures Bit(Sigma0(x), i) == (Bit(x, (i + 2) % 32) + Bit(x, (i + 13) % 32) + Bit(x, (i + 22) % 32)) % 2
  {
    hide Xor, Rotr, Bit;
    RotrBit(x, 2, i);
    RotrBit(x, 13, i);
    RotrBit(x, 22, i);
    XorThree(Rotr(x, 2), Rotr(x, 13), Rotr(x, 22), i);
  }

  lemma Sigma1Bit(x: word, i: nat)
    requires i < WIDTH
    ensures Bit(Sigma1(x), i) == (Bit(x, (i + 6) % 32) + Bit(x, (i + 11) % 32) + Bit(x, (i + 25) % 32)) % 2
  {
    hide Xor, Rotr, Bit;
    RotrBit(x, 6, i);
    RotrBit(x, 11, i);
    RotrBit(x, 25, i);
    XorThree(Rotr(x, 6), Rotr(x, 11), Rotr(x, 25), i);
  }

  lemma Lower0Bit(x: word, i: nat)
    requires i < WIDTH
    ensures Bit(Lower0(x), i) == (Bit(x, (i + 7) % 32) + Bit(x, (i + 18) % 32) + if i + 3 < 32 then Bit(x, i + 3) else 0) % 2
  {
    hide Xor, Rotr, Shr, Bit;
    RotrBit(x, 7, i);
    RotrBit(x, 18, i);
    ShrBit(x, 3, i);
    XorThree(Rotr(x, 7), Rotr(x, 18), Shr(x, 3), i);
  }

  lemma Lower1Bit(x: word, i: nat)
    requires i < WIDTH
    ensures Bit(Lower1(x), i) == (Bit(x, (i + 17) % 32) + Bit(x, (i + 19) % 32) + if i + 10 < 32 then Bit(x, i + 10) else 0) % 2
  {
    hide Xor, Rotr, Shr, Bit;
    RotrBit(x, 17, i);
    RotrBit(x, 19, i);
    ShrBit(x, 10, i);
    XorThree(Rotr(x, 17), Rotr(x, 19), Shr(x, 10), i);
  }

  /** Word t of a message block. */
  function WordAt(block: seq<byte>, t: nat): (w: word)
    requires |block| == CHUNK && t < 16
  {
    var b0: int, b1: int, b2: int, b3: int := block[4 * t], block[4 * t + 1], block[4 * t + 2], block[4 * t + 3];
    b0 * 0x100_0000 + b1 * 0x1_0000 + b2 * 0x100 + b3
  }

  /** The message schedule. */
  function W(block: seq<byte>, t: nat): (w: word)
    requires |block| == CHUNK
  {
    if t < 16 then WordAt(block, t)
    else Add(Add(Add(Lower1(W(block, t - 2)), W(block, t - 7)), Lower0(W(block, t - 15))), W(block, t - 16))
  }

  /** One round of the compression function on the working variables a to h. */
  function Round(s: seq<word>, k: word, w: word): (s': seq<word>)
    requires |s| == 8
    ensures |s'| == 8
  {
    var t1 := Add(Add(Add(Add(s[7], Sigma1(s[4])), Ch(s[4], s[5], s[6])), k), w);
    var t2 := Add(Sigma0(s[0]), Maj(s[0], s[1], s[2]));
    [Add(t1, t2), s[0], s[1], s[2], Add(s[3], t1), s[4], s[5], s[6]]
  }

  /** Sums modulo the word size may be reduced once, at the end. */
  lemma AddMod(x: word, y: word, n: int)
    requires y as int == n % 0x1_0000_0000
    ensures Add(x, y) as int == (x as int + n) % 0x1_0000_0000 && Add(y, x) as int == (x as int + n) % 0x1_0000_0000
  {
  }

  /** One word of the schedule, by step 1 of section 6.2.2 of FIPS 180-4. */
  lemma ScheduleIs(block: seq<byte>, t: nat)
    requires |block| == CHUNK
    ensures t < 16 ==> W(block, t) == WordAt(block, t)
    ensures t >= 16 ==>
      W(block, t) as int ==
      (Lower1(W(block, t - 2)) as int + W(block, t - 7) as int + Lower0(W(block, t - 15)) as int + W(block, t - 16) as int) % 0x1_0000_0000
  {
    hide Lower0, Lower1, WordAt, Add;
    if t >= 16 {
      var a, b, c, d := Lower1(W(block, t - 2)), W(block, t - 7), Lower0(W(block, t - 15)), W(block, t - 16);
      AddMod(c, Add(a, b), a as int + b as int);
      AddMod(d, Add(Add(a, b), c), a as int + b as int + c as int);
    }
  }

  /** A round, by step 3 of that section, with s the variables a to h. */
  lemma RoundIs(s: seq<word>, k: word, w: word)
    requires |s| == 8
    ensures var t1 := s[7] as int + Sigma1(s[4]) as int + Ch(s[4], s[5], s[6]) as int + k as int + w as int;
      var t2 := Sigma0(s[0]) as int + Maj(s[0], s[1], s[2]) as int;
      var s' := Round(s, k, w);
      && s'[0] as int == (t1 + t2) % 0x1_0000_0000 && s'[4] as int == (s[3] as int + t1) % 0x1_0000_0000
      && s'[1] == s[0] && s'[2] == s[1] && s'[3] == s[2] && s'[5] == s[4] && s'[6] == s[5] && s'[7] == s[6]
  {
    hide Sigma0, Sigma1, Ch, Maj, Add;
    var x, y := Sigma1(s[4]), Ch(s[4], s[5], s[6]);
    var a1 := Add(s[7], x);
    var a2 := Add(a1, y);
    var a3 := Add(a2, k);
    var n := s[7] as int + x as int;
    AddMod(y, a1, n);
    AddMod(k, a2, n + y as int);
    AddMod(w, a3, n + y as int + k as int);
    var t1 := Add(a3, w);
    AddMod(s[3], t1, n + y as int + k as int + w as int);
    AddTwo(t1, Add(Sigma0(s[0]), Maj(s[0], s[1], s[2])), n + y as int + k as int + w as int,
           Sigma0(s[0]) as int + Maj(s[0], s[1], s[2]) as int);
  }

  lemma AddTwo(x: word, y: word, m: int, n: int)
    requires x as int == m % 0x1_0000_0000 && y as int == n % 0x1_0000_0000
    ensures Add(x, y) as int == (m + n) % 0x1_0000_0000
  {
  }

  /** A round for each of the constants. */
  function Rounds(s: seq<word>, block: seq<byte>, ks: seq<word>): (s': seq<word>)
    requires |s| == 8 && |block| == CHUNK
    ensures |s'| == 8
  {
    if ks == [] then s
    else
      var t := |ks| - 1;
      Round(Rounds(s, block, ks[..t]), ks[t], W(block, t))
  }

  function Compress(s: seq<word>, block: seq<byte>): (s': seq<word>)
    requires |s| == 8 && |block| == CHUNK
    ensures |s'| == 8
  {
    Sums(s, Rounds(s, block, K()))
  }

  function Sums(s: seq<word>, r: seq<word>): (s': seq<word>)
    requires |s| == |r|
    ensures |s'| == |s|
  {
    seq(|s|, i requires 0 <= i < |s| => Add(s[i], r[i]))
  }

  /** The hash value after a whole number of blocks. */
  function HashOf(m: seq<byte>): (s: seq<word>)
    ensures |s| == 8
    decreases |m|
  {
    if |m| < CHUNK then IV else Compress(HashOf(m[..|m| - CHUNK]), m[|m| - CHUNK..])
  }

  function Zeros(n: nat): (s: seq<byte>)
    ensures |s| == n
  {
    seq(n, _ => 0)
  }

  /** The last n bytes of x, most significant first. */
  function BigEndian(x: nat, n: nat): (s: seq<byte>)
    ensures |s| == n
    decreases n
  {
    if n == 0 then [] else BigEndian(x / 256, n - 1) + [x % 256]
  }

  /** How many zero bytes there must be: the least number that leaves eight bytes in the last block. */
  function ZeroCount(n: nat): (z: nat)
    ensures z < CHUNK && (n + 1 + z) % CHUNK == CHUNK - LENGTH_SIZE
  {
    var used := n % CHUNK;
    if used < 56 then 55 - used else 119 - used
  }

  /** One bit, zeros up to eight bytes before the end of a block, and the length in bits. */
  function Pad(m: seq<byte>): (p: seq<byte>)
  {
    m + [0x80] + Zeros(ZeroCount(|m|)) + BigEndian(8 * |m|, LENGTH_SIZE)
  }

  function WordBytes(w: word): (s: seq<byte>)
  {
    [w / 0x100_0000, w / 0x1_0000 % 256, w / 0x100 % 256, w % 256]
  }

  function Bytes(s: seq<word>): (b: seq<byte>)
    ensures |b| == 4 * |s|
  {
    if s == [] then [] else Bytes(s[..|s| - 1]) + WordBytes(s[|s| - 1])
  }

  /** The number that bytes are, the first being the most significant. */
  function Number(s: seq<byte>): (x: nat)
  {
    if s == [] then 0 else 256 * Number(s[..|s| - 1]) + s[|s| - 1]
  }

  /** Words are read from a block, and written to the digest, most significant byte first. */
  lemma WordAtIs(block: seq<byte>, t: nat)
    requires |block| == CHUNK && t < 16
    ensures WordAt(block, t) == Number(block[4 * t..4 * t + 4])
  {
    var s := block[4 * t..4 * t + 4];
    assert s == [s[0], s[1], s[2], s[3]];
    NumberFour(s[0], s[1], s[2], s[3]);
  }

  lemma NumberFour(a: byte, b: byte, c: byte, d: byte)
    ensures Number([a, b, c, d]) == ((a as int * 256 + b) * 256 + c) * 256 + d
  {
    assert [a] + [b] == [a, b] && [a, b] + [c] == [a, b, c] && [a, b, c] + [d] == [a, b, c, d];
    NumberOne(a);
    NumberNext([a], b);
    NumberNext([a, b], c);
    NumberNext([a, b, c], d);
  }

  lemma NumberOne(b: byte)
    ensures Number([b]) == b
  {
    assert [b][..0] == [];
  }

  lemma NumberNext(s: seq<byte>, b: byte)
    ensures Number(s + [b]) == 256 * Number(s) + b
  {
    assert (s + [b])[..|s|] == s;
  }

  lemma WordBytesIs(w: word)
    ensures Number(WordBytes(w)) == w && |WordBytes(w)| == 4
  {
    var s := WordBytes(w);
    NumberFour(s[0], s[1], s[2], s[3]);
  }

  /** The digest is the hash value, word by word. */
  lemma {:induction false} BytesIs(s: seq<word>, i: nat)
    requires i < |s|
    ensures Number(Bytes(s)[4 * i..4 * i + 4]) == s[i]
    decreases |s|
  {
    hide Number, WordBytes;
    var last := |s| - 1;
    WordBytesIs(s[last]);
    if i < last {
      BytesIs(s[..last], i);
      assert Bytes(s)[4 * i..4 * i + 4] == Bytes(s[..last])[4 * i..4 * i + 4];
    } else {
      assert Bytes(s)[4 * i..4 * i + 4] == WordBytes(s[i]);
    }
  }

  /** So is the length at the end of the padding. */
  lemma {:induction false} BigEndianIs(x: nat, n: nat)
    requires x < Pow2(8 * n)
    ensures Number(BigEndian(x, n)) == x
    decreases n
  {
    if n > 0 {
      assert Pow2(8 * n) == 256 * Pow2(8 * (n - 1)) by {
        Pow2Product(8, 8 * (n - 1));
      }
      BigEndianIs(x / 256, n - 1);
      NumberNext(BigEndian(x / 256, n - 1), x % 256);
    }
  }

  function Digest(m: seq<byte>): (d: seq<byte>)
    ensures |d| == 32
  {
    Bytes(HashOf(Pad(m)))
  }

  /* ---------- the ring of sixteen words ---------- */

  /** The ring holds the last sixteen words of the schedule before t. */
  ghost predicate Ring(w: seq<word>, block: seq<byte>, t: nat)
    requires |block| == CHUNK
  {
    |w| == 16 && forall u: nat | t - 16 <= u < t :: w[u % 16] == W(block, u)
  }

  lemma RingStep(w: seq<word>, block: seq<byte>, t: nat)
    requires |block| == CHUNK && Ring(w, block, t)
    ensures Ring(w[t % 16 := W(block, t)], block, t + 1)
  {
    hide W;
    var w' := w[t % 16 := W(block, t)];
    forall u: nat | t - 15 <= u < t ensures w'[u % 16] == W(block, u) {
      assert u % 16 != t % 16;
    }
  }

  lemma RingWord(w: seq<word>, block: seq<byte>, t: nat)
    requires |block| == CHUNK && Ring(w, block, t) && t >= 16
    ensures Add(w[t % 16], Add(Add(Lower0(w[(t + 1) % 16]), w[(t + 9) % 16]), Lower1(w[(t + 14) % 16]))) == W(block, t)
  {
    hide Lower0, Lower1, Add, WordAt;
    assert (t - 15) % 16 == (t + 1) % 16 && (t - 7) % 16 == (t + 9) % 16 && (t - 2) % 16 == (t + 14) % 16 && (t - 16) % 16 == t % 16;
    Reorder(W(block, t - 16), Lower0(W(block, t - 15)), W(block, t - 7), Lower1(W(block, t - 2)));
  }

  lemma Reorder(a: word, b: word, c: word, d: word)
    ensures Add(a, Add(Add(b, c), d)) == Add(Add(Add(d, c), b), a)
  {
  }

  lemma RoundsNone(s: seq<word>, block: seq<byte>, ks: seq<word>, w: seq<word>)
    requires |s| == 8 && |block| == CHUNK && |w| == 16
    ensures Rounds(s, block, ks[..0]) == s && Ring(w, block, 0)
  {
  }

  lemma RoundsNext(s: seq<word>, block: seq<byte>, ks: seq<word>, t: nat)
    requires |s| == 8 && |block| == CHUNK && t < |ks|
    ensures Rounds(s, block, ks[..t + 1]) == Round(Rounds(s, block, ks[..t]), ks[t], W(block, t))
  {
    hide Round, W;
    assert ks[..t + 1][..t] == ks[..t];
  }

  lemma ScheduleStart(block: seq<byte>, t: nat)
    requires |block| == CHUNK && t < 16
    ensures W(block, t) == WordAt(block, t)
  {
  }

  /** sha256_consume_chunk. */
  method ConsumeChunk(h: array<word>, block: seq<byte>)
    requires h.Length == 8 && |block| == CHUNK
    modifies h
    ensures h[..] == Compress(old(h[..]), block)
  {
    hide Rounds, Add, RoundConstant;
    ghost var s := h[..];
    var ah := new word[8];
    for i := 0 to 8
      invariant h[..] == s && ah[..i] == s[..i]
    {
      ah[i] := h[i];
    }
    assert ah[..] == ah[..8] == s[..8] == s;
    AllRounds(ah, block, K());
    for i := 0 to 8
      invariant ah[..] == Rounds(s, block, K())
      invariant forall k | 0 <= k < 8 :: h[k] == if k < i then Add(s[k], ah[k]) else s[k]
    {
      h[i] := Add(h[i], ah[i]);
    }
    assert h[..] == Sums(s, ah[..]);
  }

  /** The four passes over the ring. */
  method AllRounds(ah: array<word>, block: seq<byte>, ks: seq<word>)
    requires ah.Length == 8 && |block| == CHUNK && |ks| == 64
    modifies ah
    ensures ah[..] == Rounds(old(ah[..]), block, ks)
  {
    hide W, Rounds, Round, Ring;
    ghost var s := ah[..];
    var w := new word[16];
    RoundsNone(s, block, ks, w[..]);
    for i := 0 to 4
      invariant Ring(w[..], block, 16 * i) && ah[..] == Rounds(s, block, ks[..16 * i])
    {
      for j := 0 to 16
        invariant Ring(w[..], block, 16 * i + j) && ah[..] == Rounds(s, block, ks[..16 * i + j])
      {
        ExtendRing(w, block, i, j);
        OneRound(ah, ks[16 * i + j], w[j]);
        RoundsNext(s, block, ks, 16 * i + j);
      }
    }
    assert ks[..64] == ks;
  }

  lemma RingIndex(i: nat, j: nat, k: nat)
    ensures (16 * i + j + k) % 16 == (j + k) % 16
  {
  }

  /** The next word of the schedule takes the place of the one sixteen before it. */
  method ExtendRing(w: array<word>, block: seq<byte>, i: nat, j: nat)
    requires w.Length == 16 && |block| == CHUNK && j < 16 && Ring(w[..], block, 16 * i + j)
    modifies w
    ensures Ring(w[..], block, 16 * i + j + 1) && w[j] == W(block, 16 * i + j)
  {
    hide W, Lower0, Lower1, WordAt, Ring, Add;
    ghost var t := 16 * i + j;
    ghost var w0 := w[..];
    RingIndex(i, j, 0);
    RingIndex(i, j, 1);
    RingIndex(i, j, 9);
    RingIndex(i, j, 14);
    if i == 0 {
      w[j] := WordAt(block, j);
      ScheduleStart(block, j);
    } else {
      RingWord(w0, block, t);
      var s0, s1 := Lower0(w[(j + 1) % 16]), Lower1(w[(j + 14) % 16]);
      w[j] := Add(w[j], Add(Add(s0, w[(j + 9) % 16]), s1));
    }
    RingStep(w0, block, t);
    assert w[..] == w0[j := W(block, t)];
  }

  method OneRound(ah: array<word>, k: word, w: word)
    requires ah.Length == 8
    modifies ah
    ensures ah[..] == Round(old(ah[..]), k, w)
  {
    hide Add, Sigma0, Sigma1, Ch, Maj;
    var t1 := Add(Add(Add(Add(ah[7], Sigma1(ah[4])), Ch(ah[4], ah[5], ah[6])), k), w);
    var t2 := Add(Sigma0(ah[0]), Maj(ah[0], ah[1], ah[2]));
    ah[7] := ah[6];
    ah[6] := ah[5];
    ah[5] := ah[4];
    ah[4] := Add(ah[3], t1);
    ah[3] := ah[2];
    ah[2] := ah[1];
    ah[1] := ah[0];
    ah[0] := Add(t1, t2);
  }

  /* ---------- streaming ---------- */

  /** Where the last whole block of a message ends. */
  function Whole(m: seq<byte>): (n: nat)
    ensures n <= |m| < n + CHUNK && n % CHUNK == 0
  {
    |m| / CHUNK * CHUNK
  }

  /** struct sha256_ctx. `msg` is everything written so far. */
  class Context {
    var chunk: array<byte>
    var rem: nat           // room left in the chunk; the write pointer is CHUNK - rem
    var len: nat
    var h: array<word>
    ghost var msg: seq<byte>

    ghost predicate Valid()
      reads this, chunk, h
    {
      Holds(msg) && len == |msg|
    }

    /** The hash value of the whole blocks of m, and the rest of m in the chunk. */
    ghost predicate Holds(m: seq<byte>)
      reads `chunk, `rem, `h, chunk, h
    {
      && chunk.Length == CHUNK && h.Length == 8 && chunk as object != h as object
      && rem == CHUNK - (|m| - Whole(m))
      && h[..] == HashOf(m[..Whole(m)])
      && chunk[..CHUNK - rem] == m[Whole(m)..]
    }

    lemma RoomLeft(m: seq<byte>)
      requires Holds(m)
      ensures 0 < rem <= CHUNK
    {
    }

    /** sha256_init. */
    constructor ()
      ensures Valid() && msg == [] && fresh(chunk) && fresh(h)
    {
      chunk := new byte[CHUNK];
      rem, len := CHUNK, 0;
      h := new word[8](i requires 0 <= i < 8 => IV[i]);
      msg := [];
      new;
      assert h[..] == IV;
    }

    /** sha256_write: whole chunks straight from the caller, the rest through the buffer. */
    method Write(data: seq<byte>)
      requires Valid()
      modifies this, chunk, h
      ensures Valid() && msg == old(msg) + data
      ensures chunk == old(chunk) && h == old(h)
    {
      hide HashOf, Compress, Whole, Holds;
      len := len + |data|;
      var pos := 0;
      assert msg + data[..0] == msg;
      while pos < |data|
        invariant pos <= |data| && chunk == old(chunk) && h == old(h)
        invariant Holds(old(msg) + data[..pos]) && len == |old(msg)| + |data|
      {
        ghost var m := old(msg) + data[..pos];
        RoomLeft(m);
        var n := if rem == CHUNK && |data| - pos >= CHUNK then CHUNK else if |data| - pos < rem then |data| - pos else rem;
        Take(m, data[pos..pos + n]);
        pos := pos + n;
        assert m + data[pos - n..pos] == old(msg) + data[..pos];
      }
      msg := old(msg) + data;
      assert data[..pos] == data;
    }

    /** One round of the loop. */
    method Take(ghost m: seq<byte>, part: seq<byte>)
      requires Holds(m) && 0 < |part| <= rem
      modifies `rem, chunk, h
      ensures Holds(m + part)
    {
      hide HashOf, Compress;
      Extended(m, part);
      ghost var s := h[..];
      if rem == CHUNK && |part| == CHUNK {
        assert m[Whole(m)..] + part == part;
        ConsumeChunk(h, part);
        assert h[..] == Compress(s, part);
      } else {
        CopyBytes(chunk, CHUNK - rem, part);
        assert h[..] == s;
        rem := rem - |part|;
        if rem == 0 {
          var block := chunk[..];
          assert block == chunk[..CHUNK] == m[Whole(m)..] + part;
          ConsumeChunk(h, block);
          assert h[..] == Compress(s, block);
          rem := CHUNK;
        }
      }
    }

    /** sha256_close: pad, and give the digest of everything written. */
    method Close() returns (digest: seq<byte>)
      requires Valid()
      modifies this, chunk, h
      ensures digest == Digest(old(msg))
    {
      hide HashOf, Compress, Pad, Bytes, BigEndian, Zeros;
      ghost var m, rest := msg, msg[Whole(msg)..];
      ghost var s := h[..];
      PadBlocks(m);
      CopyBytes(chunk, CHUNK - rem, [0x80]);
      var pos, room := CHUNK - rem + 1, rem - 1;
      assert h[..] == s;
      ghost var start := rest + [0x80];
      if room < LENGTH_SIZE {
        PutZeros(chunk, pos, room);
        var block := chunk[..];
        assert block == chunk[..pos + room] == rest + [0x80] + Zeros(room);
        assert h[..] == s;
        ConsumeChunk(h, block);
        assert h[..] == Compress(s, block);
        pos, room, start := 0, CHUNK, [];
      }
      room := room - LENGTH_SIZE;
      ghost var s1 := h[..];
      PutZeros(chunk, pos, room);
      pos := pos + room;
      PutLength(chunk, pos, len);
      var block := chunk[..];
      assert block == chunk[..pos + LENGTH_SIZE] == start + Zeros(room) + BigEndian(8 * |m|, LENGTH_SIZE);
      assert h[..] == s1;
      ConsumeChunk(h, block);
      assert h[..] == Compress(s1, block);
      digest := WordsToBytes(h);
    }
  }

  /** memcpy into a buffer. */
  method CopyBytes(buffer: array<byte>, at: nat, part: seq<byte>)
    requires at + |part| <= buffer.Length
    modifies buffer
    ensures buffer[..at + |part|] == old(buffer[..at]) + part
  {
    for i := 0 to |part|
      invariant buffer[..at + i] == old(buffer[..at]) + part[..i]
    {
      buffer[at + i] := part[i];
      assert buffer[..at + i + 1] == buffer[..at + i] + [part[i]];
    }
    assert part[..|part|] == part;
  }

  /** memset of a part of a buffer to zero. */
  method PutZeros(buffer: array<byte>, at: nat, count: nat)
    requires at + count <= buffer.Length
    modifies buffer
    ensures buffer[..at + count] == old(buffer[..at]) + Zeros(count)
  {
    for i := 0 to count
      invariant buffer[..at + i] == old(buffer[..at]) + Zeros(i)
    {
      buffer[at + i] := 0;
      assert buffer[..at + i + 1] == buffer[..at + i] + [0];
    }
  }

  /** The length in bits, from the last byte to the first, without computing it. */
  method PutLength(buffer: array<byte>, at: nat, len: nat)
    requires at + LENGTH_SIZE <= buffer.Length
    modifies buffer
    ensures buffer[..at + LENGTH_SIZE] == old(buffer[..at]) + BigEndian(8 * len, LENGTH_SIZE)
  {
    hide BigEndian;
    var i: nat, n: nat := LENGTH_SIZE - 1, len / 32;
    buffer[at + i] := 8 * len % 256;
    LastByte(8 * len, LENGTH_SIZE);
    assert buffer[at + i..at + LENGTH_SIZE] == [8 * len % 256];
    while i > 0
      invariant i < LENGTH_SIZE && buffer[..at] == old(buffer[..at])
      invariant BigEndian(8 * len, LENGTH_SIZE) == BigEndian(n, i) + buffer[at + i..at + LENGTH_SIZE]
    {
      LastByte(n, i);
      ghost var tail := buffer[at + i..at + LENGTH_SIZE];
      i := i - 1;
      buffer[at + i] := n % 256;
      assert buffer[at + i..at + LENGTH_SIZE] == [n % 256] + tail;
      assert BigEndian(n, i + 1) + tail == BigEndian(n / 256, i) + ([n % 256] + tail);
      n := n / 256;
    }
    assert buffer[..at + LENGTH_SIZE] == buffer[..at] + buffer[at..at + LENGTH_SIZE];
  }

  lemma LastByte(x: nat, n: nat)
    requires n > 0
    ensures BigEndian(x, n) == BigEndian(x / 256, n - 1) + [x % 256]
  {
  }

  method WordsToBytes(h: array<word>) returns (digest: seq<byte>)
    ensures digest == Bytes(h[..])
  {
    digest := [];
    for i := 0 to h.Length
      invariant digest == Bytes(h[..i])
    {
      digest := digest + [h[i] / 0x100_0000, h[i] / 0x1_0000 % 256, h[i] / 0x100 % 256, h[i] % 256];
      assert h[..i + 1][..i] == h[..i];
    }
    assert h[..h.Length] == h[..];
  }

  /** The padded message: its whole blocks, then one block more or two. */
  lemma PadBlocks(m: seq<byte>)
    ensures var n := Whole(m);
      var rest, used, length := m[n..], |m| - n, BigEndian(8 * |m|, LENGTH_SIZE);
      if used < 56 then
        var block := rest + [0x80] + Zeros(55 - used) + length;
        |block| == CHUNK && HashOf(Pad(m)) == Compress(HashOf(m[..n]), block)
      else
        var block, block' := rest + [0x80] + Zeros(63 - used), [] + Zeros(56) + length;
        |block| == |block'| == CHUNK && HashOf(Pad(m)) == Compress(Compress(HashOf(m[..n]), block), block')
  {
    hide Compress, HashOf, BigEndian, Zeros;
    var n := Whole(m);
    var rest, used, length := m[n..], |m| - n, BigEndian(8 * |m|, LENGTH_SIZE);
    assert used == |m| % CHUNK;
    if used < 56 {
      var block := rest + [0x80] + Zeros(55 - used) + length;
      assert Pad(m) == m[..n] + block;
      HashAppend(m[..n], block);
    } else {
      var block, block' := rest + [0x80] + Zeros(63 - used), [] + Zeros(56) + length;
      ZerosSplit(63 - used, 56);
      assert Pad(m) == m[..n] + block + block';
      HashAppend(m[..n], block);
      HashAppend(m[..n] + block, block');
    }
  }

  lemma HashAppend(m: seq<byte>, block: seq<byte>)
    requires |block| == CHUNK
    ensures HashOf(m + block) == Compress(HashOf(m), block)
  {
    hide Compress;
    var m' := m + block;
    assert m'[..|m'| - CHUNK] == m && m'[|m'| - CHUNK..] == block;
  }

  lemma ZerosSplit(a: nat, b: nat)
    ensures Zeros(a + b) == Zeros(a) + Zeros(b)
  {
  }

  /** How the whole blocks and the rest of a message change when a part is added. */
  lemma Extended(m: seq<byte>, part: seq<byte>)
    requires |m| - Whole(m) + |part| <= CHUNK
    ensures var m', rest := m + part, m[Whole(m)..] + part;
      if |rest| == CHUNK then
        && Whole(m') == |m'|
        && HashOf(m'[..Whole(m')]) == Compress(HashOf(m[..Whole(m)]), rest)
      else
        && Whole(m') == Whole(m) && m'[Whole(m)..] == rest
        && HashOf(m'[..Whole(m')]) == HashOf(m[..Whole(m)])
  {
    hide Compress;
    var m', n := m + part, Whole(m);
    var rest := m[n..] + part;
    assert m' == m[..n] + rest;
    if |rest| == CHUNK {
      assert Whole(m') == |m'| == n + CHUNK;
      assert m'[..Whole(m')] == m';
      assert m'[..|m'| - CHUNK] == m[..n] && m'[|m'| - CHUNK..] == rest;
    } else {
      assert Whole(m') == n;
      assert m'[..n] == m[..n];
    }
  }

  /** The message made of several parts. */
  function Concat(parts: seq<seq<byte>>): (m: seq<byte>)
  {
    if parts == [] then [] else Concat(parts[..|parts| - 1]) + parts[|parts| - 1]
  }

  /** However a message is divided among calls of sha256_write, its digest comes out. */
  method HashParts(parts: seq<seq<byte>>) returns (digest: seq<byte>)
    ensures digest == Digest(Concat(parts))
  {
    hide Digest, HashOf, Whole, Context.Holds, Context.Valid;
    var ctx := new Context();
    for i := 0 to |parts|
      invariant ctx.Valid() && fresh(ctx) && fresh(ctx.chunk) && fresh(ctx.h)
      invariant ctx.msg == Concat(parts[..i])
    {
      ctx.Write(parts[i]);
      assert parts[..i + 1][..i] == parts[..i];
    }
    assert parts[..|parts|] == parts;
    digest := ctx.Close();
  }

  /** sha256_data. */
  method HashData(data: seq<byte>) returns (digest: seq<byte>)
    ensures digest == Digest(data)
  {
    hide Digest, HashOf, Whole, Context.Holds, Context.Valid;
    var ctx := new Context();
    ctx.Write(data);
    assert [] + data == data;
    digest := ctx.Close();
  }
}
