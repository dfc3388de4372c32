/**
 The constants of SHA-256 (util/sha256.c) are what sections 4.2.2 and 5.3.3 of FIPS
 180-4 say they are: the first 32 bits of the fractional parts of the cube roots of
 the first 64 primes, and of the square roots of the first eight.
 */
module ShaConstants {
  import opened Words
  import opened Sha256

  /** The prime numbers, from the first on. */
  function Prime(t: nat): (p: nat)
    requires t < 64
  {
    match t
    case 0 => 2
    case 1 => 3
    case 2 => 5
    case 3 => 7
    case 4 => 11
    case 5 => 13
    case 6 => 17
    case 7 => 19
    case 8 => 23
    case 9 => 29
    case 10 => 31
    case 11 => 37
    case 12 => 41
    case 13 => 43
    case 14 => 47
    case 15 => 53
    case 16 => 59
    case 17 => 61
    case 18 => 67
    case 19 => 71
    case 20 => 73
    case 21 => 79
    case 22 => 83
    case 23 => 89
    case 24 => 97
    case 25 => 101
    case 26 => 103
    case 27 => 107
    case 28 => 109
    case 29 => 113
    case 30 => 127
    case 31 => 131
    case 32 => 137
    case 33 => 139
    case 34 => 149
    case 35 => 151
    case 36 => 157
    case 37 => 163
    case 38 => 167
    case 39 => 173
    case 40 => 179
    case 41 => 181
    case 42 => 191
    case 43 => 193
    case 44 => 197
    case 45 => 199
    case 46 => 211
    case 47 => 223
    case 48 => 227
    case 49 => 229
    case 50 => 233
    case 51 => 239
    case 52 => 241
    case 53 => 251
    case 54 => 257
    case 55 => 263
    case 56 => 269
    case 57 => 271
    case 58 => 277
    case 59 => 281
    case 60 => 283
    case 61 => 293
    case 62 => 307
    case _ => 311
  }

  /** c, followed by k as its first 32 fractional bits, is the cube root of p to that precision. */
  predicate CubeRoot(c: nat, k: word, p: nat)
  {
    var x := c * 0x1_0000_0000 + k;
    x * x * x <= p * 0x1_0000_0000_0000_0000_0000_0000 < (x + 1) * (x + 1) * (x + 1)
  }

  predicate SquareRoot(c: nat, k: word, p: nat)
  {
    var x := c * 0x1_0000_0000 + k;
    x * x <= p * 0x1_0000_0000_0000_0000 < (x + 1) * (x + 1)
  }

  /** k holds the first 32 bits of the fractional part of the cube root of p. */
  ghost predicate CubeFraction(k: word, p: nat)
  {
    exists c: nat :: CubeRoot(c, k, p)
  }

  ghost predicate SquareFraction(k: word, p: nat)
  {
    exists c: nat :: SquareRoot(c, k, p)
  }

  lemma CubeRoots0(t: nat)
    requires 0 <= t < 16
    ensures CubeFraction(RoundConstant(t), Prime(t))
  {
    match t
    case 0 => assert CubeRoot(1, 0x428a2f98, 2);
    case 1 => assert CubeRoot(1, 0x71374491, 3);
    case 2 => assert CubeRoot(1, 0xb5c0fbcf, 5);
    case 3 => assert CubeRoot(1, 0xe9b5dba5, 7);
    case 4 => assert CubeRoot(2, 0x3956c25b, 11);
    case 5 => assert CubeRoot(2, 0x59f111f1, 13);
    case 6 => assert CubeRoot(2, 0x923f82a4, 17);
    case 7 => assert CubeRoot(2, 0xab1c5ed5, 19);
    case 8 => assert CubeRoot(2, 0xd807aa98, 23);
    case 9 => assert CubeRoot(3, 0x12835b01, 29);
    case 10 => assert CubeRoot(3, 0x243185be, 31);
    case 11 => assert CubeRoot(3, 0x550c7dc3, 37);
    case 12 => assert CubeRoot(3, 0x72be5d74, 41);
    case 13 => assert CubeRoot(3, 0x80deb1fe, 43);
    case 14 => assert CubeRoot(3, 0x9bdc06a7, 47);
    case _ => assert CubeRoot(3, 0xc19bf174, 53);
  }

  lemma CubeRoots16(t: nat)
    requires 16 <= t < 32
    ensures CubeFraction(RoundConstant(t), Prime(t))
  {
    match t
    case 16 => assert CubeRoot(3, 0xe49b69c1, 59);
    case 17 => assert CubeRoot(3, 0xefbe4786, 61);
    case 18 => assert CubeRoot(4, 0x0fc19dc6, 67);
    case 19 => assert CubeRoot(4, 0x240ca1cc, 71);
    case 20 => assert CubeRoot(4, 0x2de92c6f, 73);
    case 21 => assert CubeRoot(4, 0x4a7484aa, 79);
    case 22 => assert CubeRoot(4, 0x5cb0a9dc, 83);
    case 23 => assert CubeRoot(4, 0x76f988da, 89);
    case 24 => assert CubeRoot(4, 0x983e5152, 97);
    case 25 => assert CubeRoot(4, 0xa831c66d, 101);
    case 26 => assert CubeRoot(4, 0xb00327c8, 103);
    case 27 => assert CubeRoot(4, 0xbf597fc7, 107);
    case 28 => assert CubeRoot(4, 0xc6e00bf3, 109);
    case 29 => assert CubeRoot(4, 0xd5a79147, 113);
    case 30 => assert CubeRoot(5, 0x06ca6351, 127);
    case _ => assert CubeRoot(5, 0x14292967, 131);
  }

  lemma CubeRoots32(t: nat)
    requires 32 <= t < 48
    ensures CubeFraction(RoundConstant(t), Prime(t))
  {
    match t
    case 32 => assert CubeRoot(5, 0x27b70a85, 137);
    case 33 => assert CubeRoot(5, 0x2e1b2138, 139);
    case 34 => assert CubeRoot(5, 0x4d2c6dfc, 149);
    case 35 => assert CubeRoot(5, 0x53380d13, 151);
    case 36 => assert CubeRoot(5, 0x650a7354, 157);
    case 37 => assert CubeRoot(5, 0x766a0abb, 163);
    case 38 => assert CubeRoot(5, 0x81c2c92e, 167);
    case 39 => assert CubeRoot(5, 0x92722c85, 173);
    case 40 => assert CubeRoot(5, 0xa2bfe8a1, 179);
    case 41 => assert CubeRoot(5, 0xa81a664b, 181);
    case 42 => assert CubeRoot(5, 0xc24b8b70, 191);
    case 43 => assert CubeRoot(5, 0xc76c51a3, 193);
    case 44 => assert CubeRoot(5, 0xd192e819, 197);
    case 45 => assert CubeRoot(5, 0xd6990624, 199);
    case 46 => assert CubeRoot(5, 0xf40e3585, 211);
    case _ => assert CubeRoot(6, 0x106aa070, 223);
  }

  lemma CubeRoots48(t: nat)
    requires 48 <= t < 64
    ensures CubeFraction(RoundConstant(t), Prime(t))
  {
    match t
    case 48 => assert CubeRoot(6, 0x19a4c116, 227);
    case 49 => assert CubeRoot(6, 0x1e376c08, 229);
    case 50 => assert CubeRoot(6, 0x2748774c, 233);
    case 51 => assert CubeRoot(6, 0x34b0bcb5, 239);
    case 52 => assert CubeRoot(6, 0x391c0cb3, 241);
    case 53 => assert CubeRoot(6, 0x4ed8aa4a, 251);
    case 54 => assert CubeRoot(6, 0x5b9cca4f, 257);
    case 55 => assert CubeRoot(6, 0x682e6ff3, 263);
    case 56 => assert CubeRoot(6, 0x748f82ee, 269);
    case 57 => assert CubeRoot(6, 0x78a5636f, 271);
    case 58 => assert CubeRoot(6, 0x84c87814, 277);
    case 59 => assert CubeRoot(6, 0x8cc70208, 281);
    case 60 => assert CubeRoot(6, 0x90befffa, 283);
    case 61 => assert CubeRoot(6, 0xa4506ceb, 293);
    case 62 => assert CubeRoot(6, 0xbef9a3f7, 307);
    case _ => assert CubeRoot(6, 0xc67178f2, 311);
  }

  /** The round constants. */
  lemma RoundConstants(t: nat)
    requires t < 64
    ensures |K()| == 64 && CubeFraction(K()[t], Prime(t))
  {
    hide CubeFraction, Prime, RoundConstant;
    if t < 16 {
      CubeRoots0(t);
    } else if t < 32 {
      CubeRoots16(t);
    } else if t < 48 {
      CubeRoots32(t);
    } else {
      CubeRoots48(t);
    }
  }

  /** The initial hash value. */
  lemma InitialValue(t: nat)
    requires t < 8
    ensures |IV| == 8 && SquareFraction(IV[t], Prime(t))
  {
    match t
    case 0 => assert IV[0] == 0x6a09e667 && SquareRoot(1, 0x6a09e667, 2);
    case 1 => assert IV[1] == 0xbb67ae85 && SquareRoot(1, 0xbb67ae85, 3);
    case 2 => assert IV[2] == 0x3c6ef372 && SquareRoot(2, 0x3c6ef372, 5);
    case 3 => assert IV[3] == 0xa54ff53a && SquareRoot(2, 0xa54ff53a, 7);
    case 4 => assert IV[4] == 0x510e527f && SquareRoot(3, 0x510e527f, 11);
    case 5 => assert IV[5] == 0x9b05688c && SquareRoot(3, 0x9b05688c, 13);
    case 6 => assert IV[6] == 0x1f83d9ab && SquareRoot(4, 0x1f83d9ab, 17);
    case _ => assert IV[7] == 0x5be0cd19 && SquareRoot(4, 0x5be0cd19, 19);
  }

  /* ---------- they are the primes ---------- */

  predicate IsPrime(n: nat)
  {
    n >= 2 && forall d | 2 <= d < n :: n % d != 0
  }

  /** Not a multiple of a smaller number up to 17. */
  predicate Sieved(n: nat)
  {
    && n >= 2
    && (n <= 2 || n % 2 != 0) && (n <= 3 || n % 3 != 0) && (n <= 4 || n % 4 != 0) && (n <= 5 || n % 5 != 0)
    && (n <= 6 || n % 6 != 0) && (n <= 7 || n % 7 != 0) && (n <= 8 || n % 8 != 0) && (n <= 9 || n % 9 != 0)
    && (n <= 10 || n % 10 != 0) && (n <= 11 || n % 11 != 0) && (n <= 12 || n % 12 != 0) && (n <= 13 || n % 13 != 0)
    && (n <= 14 || n % 14 != 0) && (n <= 15 || n % 15 != 0) && (n <= 16 || n % 16 != 0) && (n <= 17 || n % 17 != 0)
  }

  lemma SieveCatches(n: nat, d: nat)
    requires 2 <= d <= 17 && d < n && n % d == 0
    ensures !Sieved(n)
  {
    match d
    case 2 =>
    case 3 =>
    case 4 =>
    case 5 =>
    case 6 =>
    case 7 =>
    case 8 =>
    case 9 =>
    case 10 =>
    case 11 =>
    case 12 =>
    case 13 =>
    case 14 =>
    case 15 =>
    case 16 =>
    case 17 =>
  }

  /** Below 324 the sieve leaves exactly the primes: a number that is not prime has a divisor up to 17. */
  lemma SievedIsPrime(n: nat)
    requires n < 324
    ensures Sieved(n) <==> IsPrime(n)
  {
    if Sieved(n) {
      forall d | 2 <= d < n ensures n % d != 0 {
        if n % d == 0 {
          SmallDivisor(n, d, n / d);
        }
      }
    } else if n >= 2 {
      var d := SieveWitness(n);
    }
  }

  lemma SieveWitness(n: nat) returns (d: nat)
    requires n >= 2 && !Sieved(n)
    ensures 2 <= d < n && n % d == 0
  {
    if n > 2 && n % 2 == 0 {
      d := 2;
    } else if n > 3 && n % 3 == 0 {
      d := 3;
    } else if n > 4 && n % 4 == 0 {
      d := 4;
    } else if n > 5 && n % 5 == 0 {
      d := 5;
    } else if n > 6 && n % 6 == 0 {
      d := 6;
    } else if n > 7 && n % 7 == 0 {
      d := 7;
    } else if n > 8 && n % 8 == 0 {
      d := 8;
    } else if n > 9 && n % 9 == 0 {
      d := 9;
    } else if n > 10 && n % 10 == 0 {
      d := 10;
    } else if n > 11 && n % 11 == 0 {
      d := 11;
    } else if n > 12 && n % 12 == 0 {
      d := 12;
    } else if n > 13 && n % 13 == 0 {
      d := 13;
    } else if n > 14 && n % 14 == 0 {
      d := 14;
    } else if n > 15 && n % 15 == 0 {
      d := 15;
    } else if n > 16 && n % 16 == 0 {
      d := 16;
    } else {
      d := 17;
    }
  }

  lemma SmallDivisor(n: nat, d: nat, q: nat)
    requires n < 324 && 2 <= d < n && n == d * q && n % d == 0
    ensures !Sieved(n)
  {
    if d <= 17 {
      SieveCatches(n, d);
    } else {
      Cofactor(n, d, q);
      SieveCatches(n, q);
    }
  }

  lemma Cofactor(n: nat, d: nat, q: nat)
    requires n < 324 && 18 <= d < n && n == d * q
    ensures 2 <= q <= 17 && q < n && n % q == 0
  {
    Products(d, q);
    Multiple(q, d);
  }

  lemma Products(d: nat, q: nat)
    requires d >= 18
    ensures q >= 18 ==> d * q >= 324
    ensures q <= 1 ==> d * q <= d
  {
    if q >= 18 {
      assert d * q >= 18 * q;
    }
  }

  lemma Multiple(q: nat, d: nat)
    requires 2 <= q <= 17
    ensures (d * q) % q == 0
  {
    match q
    case 2 => assert (d * 2) % 2 == 0;
    case 3 => assert (d * 3) % 3 == 0;
    case 4 => assert (d * 4) % 4 == 0;
    case 5 => assert (d * 5) % 5 == 0;
    case 6 => assert (d * 6) % 6 == 0;
    case 7 => assert (d * 7) % 7 == 0;
    case 8 => assert (d * 8) % 8 == 0;
    case 9 => assert (d * 9) % 9 == 0;
    case 10 => assert (d * 10) % 10 == 0;
    case 11 => assert (d * 11) % 11 == 0;
    case 12 => assert (d * 12) % 12 == 0;
    case 13 => assert (d * 13) % 13 == 0;
    case 14 => assert (d * 14) % 14 == 0;
    case 15 => assert (d * 15) % 15 == 0;
    case 16 => assert (d * 16) % 16 == 0;
    case 17 => assert (d * 17) % 17 == 0;
  }

  /** Prime(t) is a prime, and there is none between it and the next; the first is 2. */
  lemma PrimesInOrder(t: nat)
    requires t < 64
    ensures IsPrime(Prime(t)) && Prime(0) == 2
    ensures t < 63 ==> Prime(t) < Prime(t + 1) && forall n | Prime(t) < n < Prime(t + 1) :: !IsPrime(n)
  {
    PrimeSieved(t);
    SievedIsPrime(Prime(t));
    if t < 63 {
      forall n | Prime(t) < n < Prime(t + 1) ensures !IsPrime(n) {
        GapSieved(t, n);
        SievedIsPrime(n);
      }
    }
  }

  lemma PrimesSieved0(t: nat)
    requires 0 <= t < 16
    ensures Sieved(Prime(t)) && Prime(t) < 324 && Prime(0) == 2
  {
    match t
    case 0 => assert Sieved(2);
    case 1 => assert Sieved(3);
    case 2 => assert Sieved(5);
    case 3 => assert Sieved(7);
    case 4 => assert Sieved(11);
    case 5 => assert Sieved(13);
    case 6 => assert Sieved(17);
    case 7 => assert Sieved(19);
    case 8 => assert Sieved(23);
    case 9 => assert Sieved(29);
    case 10 => assert Sieved(31);
    case 11 => assert Sieved(37);
    case 12 => assert Sieved(41);
    case 13 => assert Sieved(43);
    case 14 => assert Sieved(47);
    case _ => assert Sieved(53);
  }

  lemma PrimesSieved16(t: nat)
    requires 16 <= t < 32
    ensures Sieved(Prime(t)) && Prime(t) < 324 && Prime(0) == 2
  {
    match t
    case 16 => assert Sieved(59);
    case 17 => assert Sieved(61);
    case 18 => assert Sieved(67);
    case 19 => assert Sieved(71);
    case 20 => assert Sieved(73);
    case 21 => assert Sieved(79);
    case 22 => assert Sieved(83);
    case 23 => assert Sieved(89);
    case 24 => assert Sieved(97);
    case 25 => assert Sieved(101);
    case 26 => assert Sieved(103);
    case 27 => assert Sieved(107);
    case 28 => assert Sieved(109);
    case 29 => assert Sieved(113);
    case 30 => assert Sieved(127);
    case _ => assert Sieved(131);
  }

  lemma PrimesSieved32(t: nat)
    requires 32 <= t < 48
    ensures Sieved(Prime(t)) && Prime(t) < 324 && Prime(0) == 2
  {
    match t
    case 32 => assert Sieved(137);
    case 33 => assert Sieved(139);
    case 34 => assert Sieved(149);
    case 35 => assert Sieved(151);
    case 36 => assert Sieved(157);
    case 37 => assert Sieved(163);
    case 38 => assert Sieved(167);
    case 39 => assert Sieved(173);
    case 40 => assert Sieved(179);
    case 41 => assert Sieved(181);
    case 42 => assert Sieved(191);
    case 43 => assert Sieved(193);
    case 44 => assert Sieved(197);
    case 45 => assert Sieved(199);
    case 46 => assert Sieved(211);
    case _ => assert Sieved(223);
  }

  lemma PrimesSieved48(t: nat)
    requires 48 <= t < 64
    ensures Sieved(Prime(t)) && Prime(t) < 324 && Prime(0) == 2
  {
    match t
    case 48 => assert Sieved(227);
    case 49 => assert Sieved(229);
    case 50 => assert Sieved(233);
    case 51 => assert Sieved(239);
    case 52 => assert Sieved(241);
    case 53 => assert Sieved(251);
    case 54 => assert Sieved(257);
    case 55 => assert Sieved(263);
    case 56 => assert Sieved(269);
    case 57 => assert Sieved(271);
    case 58 => assert Sieved(277);
    case 59 => assert Sieved(281);
    case 60 => assert Sieved(283);
    case 61 => assert Sieved(293);
    case 62 => assert Sieved(307);
    case _ => assert Sieved(311);
  }

  lemma GapsSieved0(t: nat, n: nat)
    requires 0 <= t < 16 && Prime(t) < n < Prime(t + 1)
    ensures !Sieved(n) && Prime(t + 1) < 324
  {
    match t
    case 0 =>
    case 1 => assert n == 4;
    case 2 => assert n == 6;
    case 3 => assert n == 8 || n == 9 || n == 10;
    case 4 => assert n == 12;
    case 5 => assert n == 14 || n == 15 || n == 16;
    case 6 => assert n == 18;
    case 7 => assert n == 20 || n == 21 || n == 22;
    case 8 => assert n == 24 || n == 25 || n == 26 || n == 27 || n == 28;
    case 9 => assert n == 30;
    case 10 => assert n == 32 || n == 33 || n == 34 || n == 35 || n == 36;
    case 11 => assert n == 38 || n == 39 || n == 40;
    case 12 => assert n == 42;
    case 13 => assert n == 44 || n == 45 || n == 46;
    case 14 => assert n == 48 || n == 49 || n == 50 || n == 51 || n == 52;
    case _ => assert n == 54 || n == 55 || n == 56 || n == 57 || n == 58;
  }

  lemma GapsSieved16(t: nat, n: nat)
    requires 16 <= t < 32 && Prime(t) < n < Prime(t + 1)
    ensures !Sieved(n) && Prime(t + 1) < 324
  {
    match t
    case 16 => assert n == 60;
    case 17 => assert n == 62 || n == 63 || n == 64 || n == 65 || n == 66;
    case 18 => assert n == 68 || n == 69 || n == 70;
    case 19 => assert n == 72;
    case 20 => assert n == 74 || n == 75 || n == 76 || n == 77 || n == 78;
    case 21 => assert n == 80 || n == 81 || n == 82;
    case 22 => assert n == 84 || n == 85 || n == 86 || n == 87 || n == 88;
    case 23 => assert n == 90 || n == 91 || n == 92 || n == 93 || n == 94 || n == 95 || n == 96;
    case 24 => assert n == 98 || n == 99 || n == 100;
    case 25 => assert n == 102;
    case 26 => assert n == 104 || n == 105 || n == 106;
    case 27 => assert n == 108;
    case 28 => assert n == 110 || n == 111 || n == 112;
    case 29 => assert n == 114 || n == 115 || n == 116 || n == 117 || n == 118 || n == 119 || n == 120 || n == 121 || n == 122 || n == 123 || n == 124 || n == 125 || n == 126;
    case 30 => assert n == 128 || n == 129 || n == 130;
    case _ => assert n == 132 || n == 133 || n == 134 || n == 135 || n == 136;
  }

  lemma GapsSieved32(t: nat, n: nat)
    requires 32 <= t < 48 && Prime(t) < n < Prime(t + 1)
    ensures !Sieved(n) && Prime(t + 1) < 324
  {
    match t
    case 32 => assert n == 138;
    case 33 => assert n == 140 || n == 141 || n == 142 || n == 143 || n == 144 || n == 145 || n == 146 || n == 147 || n == 148;
    case 34 => assert n == 150;
    case 35 => assert n == 152 || n == 153 || n == 154 || n == 155 || n == 156;
    case 36 => assert n == 158 || n == 159 || n == 160 || n == 161 || n == 162;
    case 37 => assert n == 164 || n == 165 || n == 166;
    case 38 => assert n == 168 || n == 169 || n == 170 || n == 171 || n == 172;
    case 39 => assert n == 174 || n == 175 || n == 176 || n == 177 || n == 178;
    case 40 => assert n == 180;
    case 41 => assert n == 182 || n == 183 || n == 184 || n == 185 || n == 186 || n == 187 || n == 188 || n == 189 || n == 190;
    case 42 => assert n == 192;
    case 43 => assert n == 194 || n == 195 || n == 196;
    case 44 => assert n == 198;
    case 45 => assert n == 200 || n == 201 || n == 202 || n == 203 || n == 204 || n == 205 || n == 206 || n == 207 || n == 208 || n == 209 || n == 210;
    case 46 => assert n == 212 || n == 213 || n == 214 || n == 215 || n == 216 || n == 217 || n == 218 || n == 219 || n == 220 || n == 221 || n == 222;
    case _ => assert n == 224 || n == 225 || n == 226;
  }

  lemma GapsSieved48(t: nat, n: nat)
    requires 48 <= t < 63 && Prime(t) < n < Prime(t + 1)
    ensures !Sieved(n) && Prime(t + 1) < 324
  {
    match t
    case 48 => assert n == 228;
    case 49 => assert n == 230 || n == 231 || n == 232;
    case 50 => assert n == 234 || n == 235 || n == 236 || n == 237 || n == 238;
    case 51 => assert n == 240;
    case 52 => assert n == 242 || n == 243 || n == 244 || n == 245 || n == 246 || n == 247 || n == 248 || n == 249 || n == 250;
    case 53 => assert n == 252 || n == 253 || n == 254 || n == 255 || n == 256;
    case 54 => assert n == 258 || n == 259 || n == 260 || n == 261 || n == 262;
    case 55 => assert n == 264 || n == 265 || n == 266 || n == 267 || n == 268;
    case 56 => assert n == 270;
    case 57 => assert n == 272 || n == 273 || n == 274 || n == 275 || n == 276;
    case 58 => assert n == 278 || n == 279 || n == 280;
    case 59 => assert n == 282;
    case 60 => assert n == 284 || n == 285 || n == 286 || n == 287 || n == 288 || n == 289 || n == 290 || n == 291 || n == 292;
    case 61 => assert n == 294 || n == 295 || n == 296 || n == 297 || n == 298 || n == 299 || n == 300 || n == 301 || n == 302 || n == 303 || n == 304 || n == 305 || n == 306;
    case _ => assert n == 308 || n == 309 || n == 310;
  }

  lemma PrimeSieved(t: nat)
    requires t < 64
    ensures Sieved(Prime(t)) && Prime(t) < 324 && Prime(0) == 2
  {
    hide Prime, Sieved;
    if t < 16 {
      PrimesSieved0(t);
    } else if t < 32 {
      PrimesSieved16(t);
    } else if t < 48 {
      PrimesSieved32(t);
    } else {
      PrimesSieved48(t);
    }
    PrimesSieved0(0);
  }

  lemma GapSieved(t: nat, n: nat)
    requires t < 63 && Prime(t) < n < Prime(t + 1)
    ensures !Sieved(n) && n < 324
  {
    hide Prime, Sieved;
    if t < 16 {
      GapsSieved0(t, n);
    } else if t < 32 {
      GapsSieved16(t, n);
    } else if t < 48 {
      GapsSieved32(t, n);
    } else {
      GapsSieved48(t, n);
    }
  }
}
