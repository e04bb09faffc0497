/** Random secrets and fixed-length random numbers: util/util.go RandomString, lib/tcert/util.go GenNumber. */
module Random {
  import opened Common

  // ----- RandomString -----

  type Int63 = x: int | 0 <= x < 0x8000_0000_0000_0000
  type Source = nat -> Int63

  const PER_DRAW: nat := 10 // six-bit chunks that fit in 63 bits
  const LETTERS: nat := 52

  function Letter(i: nat): (b: byte)
    requires i < LETTERS
  {
    if i < 26 then 97 + i else 65 + (i - 26)
  }

  const ALPHABET: string := LOWER + UPPER

  /** Letter number `i` is the `i`-th of the 52 written out, so no two numbers give the same letter. */
  lemma LettersInOrder(i: nat, j: nat)
    requires i < LETTERS && j < LETTERS
    ensures |ALPHABET| == LETTERS && Letter(i) == ALPHABET[i] as int
    ensures Letter(i) == Letter(j) ==> i == j
  {
    UpperInOrder(0);
    LowerInOrder(0);
    if i < 26 {
      LowerInOrder(i);
    } else {
      UpperInOrder(i - 26);
    }
  }

  predicate IsLetter(b: byte) { 97 <= b <= 122 || 65 <= b <= 90 }

  /** `x` without its lowest `k` six-bit chunks. */
  function Shifted(x: nat, k: nat): (r: nat) {
    if k == 0 then x else Shifted(x, k - 1) / 64
  }

  /** Chunk number `j` of the stream: ten per draw, low bits first. */
  function Chunk(source: Source, j: nat): (c: nat) { Shifted(source(j / PER_DRAW), j % PER_DRAW) % 64 }

  lemma {:induction false} BitsBelow(z: nat, q: nat, n: nat, b: nat)
    requires b < n
    ensures Bit(z + Pow2(n) * q, b) == Bit(z, b)
  {
    var w := Pow2(n - 1) * q;
    assert Pow2(n) * q == 2 * w;
    assert (z + 2 * w) % 2 == z % 2 && (z + 2 * w) / 2 == z / 2 + w;
    if b > 0 {
      BitsBelow(z / 2, q, n - 1, b - 1);
    }
  }

  lemma {:induction false} BitsAbove(x: nat, k: nat, b: nat)
    ensures Bit(Shifted(x, k), b) == Bit(x, 6 * k + b)
  {
    if k > 0 {
      var y := Shifted(x, k - 1);
      BitsAbove(x, k - 1, b + 6);
      SixBits(y, b);
    }
  }

  lemma SixBits(y: nat, b: nat)
    ensures Bit(y, b + 6) == Bit(y / 64, b)
  {
    assert Bit(y, b + 6) == Bit(y / 2, b + 5) == Bit(y / 2 / 2, b + 4);
    assert Bit(y / 4, b + 4) == Bit(y / 4 / 2, b + 3) == Bit(y / 4 / 2 / 2, b + 2);
    assert Bit(y / 16, b + 2) == Bit(y / 16 / 2, b + 1) == Bit(y / 16 / 2 / 2, b);
    assert y / 2 / 2 == y / 4 && y / 4 / 2 / 2 == y / 16 && y / 16 / 2 / 2 == y / 64;
  }

  /** The stream bit by bit: six bits of a draw make a chunk, ten chunks a draw, low bits first. */
  lemma ChunkIsSixBits(source: Source, j: nat, b: nat)
    requires b < 6
    ensures Chunk(source, j) < 64 && Bit(Chunk(source, j), b) == Bit(source(j / 10), 6 * (j % 10) + b)
  {
    hide Bit, Shifted;
    var y := Shifted(source(j / 10), j % 10);
    BitsAbove(source(j / 10), j % 10, b);
    assert Pow2(6) == 64;
    assert y == y % 64 + Pow2(6) * (y / 64);
    BitsBelow(y % 64, y / 64, 6, b);
  }

  /** The letters that the first `j` chunks stand for; chunks from 52 on stand for none. */
  function Letters(source: Source, j: nat): (s: Bytes) {
    if j == 0 then []
    else if Chunk(source, j - 1) < LETTERS then Letters(source, j - 1) + [Letter(Chunk(source, j - 1))]
    else Letters(source, j - 1)
  }

  lemma {:induction false} LettersAreLetters(source: Source, j: nat)
    ensures forall i :: 0 <= i < |Letters(source, j)| ==> IsLetter(Letters(source, j)[i])
  {
    if j > 0 {
      LettersAreLetters(source, j - 1);
    }
  }

  lemma ChunkOfDraw(source: Source, d: nat, k: nat)
    requires k < PER_DRAW
    ensures Chunk(source, PER_DRAW * d + k) == Shifted(source(d), k) % 64
  {
    assert (PER_DRAW * d + k) / PER_DRAW == d && (PER_DRAW * d + k) % PER_DRAW == k;
  }

  lemma {:induction false} LettersGrow(source: Source, j: nat, k: nat)
    requires j <= k
    ensures Letters(source, j) <= Letters(source, k)
    decreases k
  {
    if j < k {
      hide Letters;
      LettersGrow(source, j, k - 1);
      LettersStep(source, k - 1);
    }
  }

  /**
   * For any stream whose first `enough` chunks hold `n` letters the loop ends; read backwards, the
   * result is the first `n` letters of the stream. `chunks` is the number of chunks looked at, just
   * enough for the last letter, and `draws` the number of values taken from the source.
   */
  method RandomString(n: nat, source: Source, ghost enough: nat) returns (s: Bytes, draws: nat, ghost chunks: nat)
    requires |Letters(source, enough)| >= n
    ensures |s| == n
    ensures forall j :: 0 <= j < n ==> s[j] == Letters(source, enough)[n - 1 - j] && IsLetter(s[j])
    ensures chunks <= enough && |Letters(source, chunks)| == n
    ensures n > 0 ==> chunks > 0 && |Letters(source, chunks - 1)| == n - 1
    ensures 10 * (draws - 1) <= chunks <= 10 * draws
    ensures n > 0 ==> 10 * (draws - 1) < chunks
  {
    hide Letters, Shifted, Chunk;
    assert Letters(source, 0) == [] by { LettersStep(source, 0); }
    var b := new byte[n];
    var i, cache, remain := n - 1, source(0), PER_DRAW;
    draws, chunks := 1, 0;
    assert cache == Shifted(source(0), 0) by { ShiftedStep(source(0), 0); }
    while i >= 0
      invariant -1 <= i < n && 0 <= remain <= PER_DRAW && draws >= 1
      invariant chunks == PER_DRAW * (draws - 1) + (PER_DRAW - remain) <= enough
      invariant cache == Shifted(source(draws - 1), PER_DRAW - remain)
      invariant |Letters(source, chunks)| == n - 1 - i
      invariant forall j :: i < j < n ==> b[j] == Letters(source, chunks)[n - 1 - j]
      invariant i < 0 && n > 0 ==> remain < PER_DRAW && |Letters(source, chunks - 1)| == n - 1
      decreases enough - chunks
    {
      if remain == 0 {
        cache, remain := source(draws), PER_DRAW;
        draws := draws + 1;
        ShiftedStep(cache, 0);
      }
      ChunkOfDraw(source, draws - 1, PER_DRAW - remain);
      ShiftedStep(source(draws - 1), PER_DRAW - remain);
      LettersStep(source, chunks);
      var idx := cache % 64;
      if idx < LETTERS {
        b[i] := Letter(idx);
        i := i - 1;
      }
      cache := cache / 64;
      remain := remain - 1;
      chunks := chunks + 1;
    }
    s := b[..];
    LettersGrow(source, chunks, enough);
    LettersAreLetters(source, chunks);
  }

  lemma ShiftedStep(x: nat, k: nat)
    ensures Shifted(x, 0) == x && Shifted(x, k + 1) == Shifted(x, k) / 64
  {
  }

  lemma LettersStep(source: Source, j: nat)
    ensures Letters(source, 0) == []
    ensures Letters(source, j + 1) ==
            if Chunk(source, j) < LETTERS then Letters(source, j) + [Letter(Chunk(source, j))] else Letters(source, j)
  {
  }

  // ----- GenNumber -----

  /** big.Int.Exp of ten: one for exponents up to zero. */
  function Exp10(n: int): (p: nat)
    ensures p >= 1
  {
    if n <= 0 then 1 else 10 * Exp10(n - 1)
  }

  /** `draw` is what rand.Int returns, below the upper bound. */
  function GenNumber(numlen: int, draw: nat): (r: nat)
    requires draw < Exp10(numlen)
  {
    var lowerBound, upperBound := Exp10(numlen - 1), Exp10(numlen);
    var valMod := (draw + lowerBound) % upperBound;
    if valMod < lowerBound then valMod + lowerBound else valMod
  }

  /** Which draws give which numbers: each of the right length, the lowest ninth by two draws, the rest by one. */
  lemma GenNumberDraws(numlen: int, draw: nat, value: nat)
    requires numlen >= 1 && draw < Exp10(numlen)
    ensures var low := Exp10(numlen - 1);
            && low <= GenNumber(numlen, draw) < Exp10(numlen)
            && (low <= value < Exp10(numlen) ==>
                  (GenNumber(numlen, draw) == value <==>
                   draw == value - low || (value < 2 * low && draw == value + 8 * low)))
  {
    ModTenfold(Exp10(numlen - 1), draw);
  }

  /** A number has `n` digits exactly when it lies between two neighbouring powers of ten. */
  lemma {:induction false} DigitsLength(n: nat, v: nat)
    requires n >= 1 && v >= 1
    ensures |Digits(v)| == n <==> Exp10(n - 1) <= v < Exp10(n)
    decreases v
  {
    if v >= 10 {
      if n == 1 {
        assert |Digits(v / 10)| >= 1 && Exp10(1) == 10;
      } else {
        DigitsLength(n - 1, v / 10);
        assert Exp10(n) == 10 * Exp10(n - 1) && Exp10(n - 1) == 10 * Exp10(n - 2);
      }
    } else if n > 1 {
      assert Exp10(n - 1) == 10 * Exp10(n - 2);
    }
  }

  /** Written in decimal, the numbers generated have exactly the length asked for, and every such number is. */
  lemma GenNumberLength(numlen: int, draw: nat, value: nat)
    requires numlen >= 1 && draw < Exp10(numlen)
    ensures |Digits(GenNumber(numlen, draw))| == numlen
    ensures value >= 1 && |Digits(value)| == numlen ==>
              exists d :: 0 <= d < Exp10(numlen) && GenNumber(numlen, d) == value
  {
    hide GenNumber, Digits;
    GenNumberDraws(numlen, draw, value);
    DigitsLength(numlen, GenNumber(numlen, draw));
    if value >= 1 && |Digits(value)| == numlen {
      DigitsLength(numlen, value);
      var d := value - Exp10(numlen - 1);
      GenNumberDraws(numlen, d, value);
    }
  }

  lemma ModTenfold(low: nat, draw: nat)
    requires draw < 10 * low
    ensures (draw + low) % (10 * low) == if draw < 9 * low then draw + low else draw - 9 * low
  {
    if draw < 9 * low {
      ModSmall(10 * low, draw + low, 0);
    } else {
      ModSmall(10 * low, draw - 9 * low, 1);
    }
  }

  lemma ModSmall(n: nat, x: nat, q: nat)
    requires x < n && q <= 1
    ensures (q * n + x) % n == x
  {
    assert (q * n + x) / n == q;
  }
}
