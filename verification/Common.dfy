/** Results, bytes, and the string operations that the certificate library and the server share. */
module Common {

  datatype Option<+T> = None | Some(value: T)

  /** What a Go call can do: return a value, return an error, or panic. */
  datatype Outcome<+T> = Ok(value: T) | Err(reason: string) | Panic

  type byte = x: int | 0 <= x < 256
  type Bytes = seq<byte>

  /** The bytes of a string of one-byte characters. */
  function Ascii(s: string): (b: Bytes)
    requires forall i :: 0 <= i < |s| ==> s[i] as int < 256
  {
    seq(|s|, i requires 0 <= i < |s| => s[i] as int)
  }

  // The letters and digits in order, written out and by code.

  const UPPER: string := "ABCDEFGHIJKLMNOPQRSTUVWXYZ"
  const LOWER: string := "abcdefghijklmnopqrstuvwxyz"
  const DIGITS: string := "0123456789"

  lemma UpperInOrder(i: nat)
    requires i < 26
    ensures |UPPER| == 26 && UPPER[i] as int == 65 + i
  {
  }

  lemma LowerInOrder(i: nat)
    requires i < 26
    ensures |LOWER| == 26 && LOWER[i] as int == 97 + i
  {
  }

  lemma DigitsInOrder(i: nat)
    requires i < 10
    ensures |DIGITS| == 10 && DIGITS[i] as int == 48 + i
  {
  }

  // ----- Bitwise exclusive or on bytes -----

  function Pow2(n: nat): (p: nat)
    ensures p >= 1
  {
    if n == 0 then 1 else 2 * Pow2(n - 1)
  }

  /** Exclusive or of the low `n` bits of `x` and `y`. */
  function XorBits(x: nat, y: nat, n: nat): (z: nat)
    ensures z < Pow2(n)
  {
    if n == 0 then 0 else (if x % 2 == y % 2 then 0 else 1) + 2 * XorBits(x / 2, y / 2, n - 1)
  }

  lemma {:induction false} XorBitsCancels(x: nat, y: nat, n: nat)
    requires x < Pow2(n)
    ensures XorBits(XorBits(x, y, n), y, n) == x
  {
    if n > 0 {
      var bit, w := if x % 2 == y % 2 then 0 else 1, XorBits(x / 2, y / 2, n - 1);
      var z := bit + 2 * w;
      assert z / 2 == w && z % 2 == bit;
      XorBitsCancels(x / 2, y / 2, n - 1);
    }
  }

  function Xor(x: byte, y: byte): (z: byte) {
    assert Pow2(8) == 256 by { assert Pow2(4) == 16; }
    XorBits(x, y, 8)
  }

  lemma XorCancels(x: byte, y: byte)
    ensures Xor(Xor(x, y), y) == x
  {
    assert Pow2(8) == 256 by { assert Pow2(4) == 16; }
    XorBitsCancels(x, y, 8);
  }

  /** Bit number `k` of `x`. */
  function Bit(x: nat, k: nat): (b: nat)
    ensures b <= 1
  {
    if k == 0 then x % 2 else Bit(x / 2, k - 1)
  }

  lemma {:induction false} XorBitsBitwise(x: nat, y: nat, n: nat, k: nat)
    requires k < n
    ensures Bit(XorBits(x, y, n), k) == 1 <==> Bit(x, k) != Bit(y, k)
  {
    var bit, w := if x % 2 == y % 2 then 0 else 1, XorBits(x / 2, y / 2, n - 1);
    var z := bit + 2 * w;
    assert z / 2 == w && z % 2 == bit;
    if k > 0 {
      XorBitsBitwise(x / 2, y / 2, n - 1, k - 1);
    }
  }

  /** A bit of the exclusive or is set exactly where the bits of the operands differ. */
  lemma XorIsBitwise(x: byte, y: byte, k: nat)
    requires k < 8
    ensures Bit(Xor(x, y), k) == 1 <==> Bit(x, k) != Bit(y, k)
  {
    XorBitsBitwise(x, y, 8, k);
  }

  // ----- Numbers as bytes, big-endian -----

  /** big.Int.Bytes: big-endian, no leading zero. */
  function BigEndian(n: nat): (r: Bytes) {
    if n == 0 then [] else BigEndian(n / 256) + [n % 256]
  }

  /** big.Int.SetBytes. */
  function FromBigEndian(b: Bytes): (n: nat) {
    if b == [] then 0 else 256 * FromBigEndian(b[..|b| - 1]) + b[|b| - 1]
  }

  function Pow256(n: nat): (p: nat) { if n == 0 then 1 else 256 * Pow256(n - 1) }

  /** The number that bytes denote by position, the first byte counting most. */
  function Positional(b: Bytes): (n: nat) {
    if b == [] then 0 else b[0] * Pow256(|b| - 1) + Positional(b[1..])
  }

  lemma {:induction false} PositionalAppend(b: Bytes, last: byte)
    ensures Positional(b + [last]) == 256 * Positional(b) + last
  {
    if b == [] {
      assert ([] + [last])[1..] == [];
    } else {
      PositionalAppend(b[1..], last);
      assert (b + [last])[1..] == b[1..] + [last];
      assert b[0] * (256 * Pow256(|b| - 1)) == 256 * (b[0] * Pow256(|b| - 1));
    }
  }

  lemma {:induction false} FromBigEndianIsPositional(b: Bytes)
    ensures FromBigEndian(b) == Positional(b)
  {
    if b != [] {
      FromBigEndianIsPositional(b[..|b| - 1]);
      PositionalAppend(b[..|b| - 1], b[|b| - 1]);
      assert b == b[..|b| - 1] + [b[|b| - 1]];
    }
  }

  /** The bytes of a number denote it, and have no leading zero. */
  lemma {:induction false} BigEndianRoundTrip(n: nat)
    ensures FromBigEndian(BigEndian(n)) == n
    ensures BigEndian(n) != [] ==> BigEndian(n)[0] != 0
  {
    if n > 0 {
      BigEndianRoundTrip(n / 256);
      var b := BigEndian(n);
      assert b[..|b| - 1] == BigEndian(n / 256);
    }
  }

  /** Bytes without a leading zero are the bytes of the number they denote. */
  lemma {:induction false} BigEndianOfBytes(b: Bytes)
    requires b != [] ==> b[0] != 0
    ensures BigEndian(FromBigEndian(b)) == b
    ensures b != [] ==> FromBigEndian(b) > 0
  {
    if b != [] {
      var init, last := b[..|b| - 1], b[|b| - 1];
      BigEndianOfBytes(init);
      var v := FromBigEndian(init);
      assert (256 * v + last) / 256 == v && (256 * v + last) % 256 == last;
      assert b == init + [last];
    }
  }

  lemma BigEndianInjective(m: nat, n: nat)
    requires BigEndian(m) == BigEndian(n)
    ensures m == n
  {
    BigEndianRoundTrip(m);
    BigEndianRoundTrip(n);
  }

  // ----- strings.Split and strings.Join with a one-symbol separator -----

  /** Puts `x` in front of the first part. */
  function Prepend<T>(x: T, parts: seq<seq<T>>): (r: seq<seq<T>>)
    requires |parts| >= 1
    ensures |r| == |parts|
  {
    [[x] + parts[0]] + parts[1..]
  }

  function Split<T(==)>(s: seq<T>, sep: T): (parts: seq<seq<T>>)
    ensures |parts| >= 1
  {
    if s == [] then [[]]
    else
      var rest := Split(s[1..], sep);
      if s[0] == sep then [[]] + rest else Prepend(s[0], rest)
  }

  function Join<T>(parts: seq<seq<T>>, sep: T): (s: seq<T>) {
    if |parts| == 0 then []
    else if |parts| == 1 then parts[0]
    else parts[0] + [sep] + Join(parts[1..], sep)
  }

  /** No component contains the separator. */
  predicate SepFree<T(==)>(parts: seq<seq<T>>, sep: T) {
    forall i :: 0 <= i < |parts| ==> sep !in parts[i]
  }

  lemma {:induction false} SplitIsSepFree<T>(s: seq<T>, sep: T)
    ensures SepFree(Split(s, sep), sep)
  {
    if s != [] {
      SplitIsSepFree(s[1..], sep);
    }
  }

  lemma {:induction false} JoinOfSplit<T>(s: seq<T>, sep: T)
    ensures Join(Split(s, sep), sep) == s
  {
    if s != [] {
      var rest := Split(s[1..], sep);
      JoinOfSplit(s[1..], sep);
      if s[0] == sep {
        assert Split(s, sep)[1..] == rest;
      } else {
        assert Prepend(s[0], rest)[1..] == rest[1..];
        assert Join(Prepend(s[0], rest), sep) == [s[0]] + Join(rest, sep);
      }
    }
  }

  lemma {:induction false} SplitSepFree<T>(a: seq<T>, sep: T)
    requires sep !in a
    ensures Split(a, sep) == [a]
  {
    if a != [] {
      SplitSepFree(a[1..], sep);
      assert a == [a[0]] + a[1..];
    }
  }

  lemma {:induction false} SplitConcat<T>(a: seq<T>, b: seq<T>, sep: T)
    ensures Split(a + [sep] + b, sep) == Split(a, sep) + Split(b, sep)
  {
    var s := a + [sep] + b;
    if a == [] {
      assert s[1..] == b;
    } else {
      SplitConcat(a[1..], b, sep);
      assert s[0] == a[0] && s[1..] == a[1..] + [sep] + b;
      ExtendConcat(a[0], Split(a[1..], sep), Split(b, sep), sep);
    }
  }

  /** Splitting off one more symbol in front only touches the front parts. */
  lemma ExtendConcat<T>(x: T, parts: seq<seq<T>>, more: seq<seq<T>>, sep: T)
    requires |parts| >= 1
    ensures (if x == sep then [[]] + (parts + more) else Prepend(x, parts + more))
         == (if x == sep then [[]] + parts else Prepend(x, parts)) + more
  {
  }

  lemma {:induction false} SplitOfJoin<T>(parts: seq<seq<T>>, sep: T)
    requires |parts| >= 1 && SepFree(parts, sep)
    ensures Split(Join(parts, sep), sep) == parts
  {
    SplitSepFree(parts[0], sep);
    if |parts| > 1 {
      SplitOfJoin(parts[1..], sep);
      SplitConcat(parts[0], Join(parts[1..], sep), sep);
      assert parts == [parts[0]] + parts[1..];
    } else {
      assert parts == [parts[0]];
    }
  }

  /** Joining loses nothing on non-empty separator-free paths. */
  lemma JoinInjective<T>(p: seq<seq<T>>, q: seq<seq<T>>, sep: T)
    requires |p| >= 1 && |q| >= 1 && SepFree(p, sep) && SepFree(q, sep)
    requires Join(p, sep) == Join(q, sep)
    ensures p == q
  {
    SplitOfJoin(p, sep);
    SplitOfJoin(q, sep);
  }

  // ----- strconv.Itoa -----

  const ZERO: byte := '0' as int
  const MINUS: byte := '-' as int

  predicate IsDigit(b: byte) { ZERO <= b <= ZERO + 9 }

  function Digits(n: nat): (s: Bytes)
    ensures |s| >= 1 && forall i :: 0 <= i < |s| ==> IsDigit(s[i])
  {
    if n < 10 then [ZERO + n] else Digits(n / 10) + [ZERO + n % 10]
  }

  function Itoa(n: int): (s: Bytes)
    ensures |s| >= 1
  {
    if n < 0 then [MINUS] + Digits(-n) else Digits(n)
  }

  /** The number that a string of digits denotes. */
  function DigitsValue(s: Bytes): (n: nat)
    requires forall i :: 0 <= i < |s| ==> IsDigit(s[i])
  {
    if s == [] then 0
    else
      assert IsDigit(s[|s| - 1]);
      10 * DigitsValue(s[..|s| - 1]) + (s[|s| - 1] - ZERO)
  }

  lemma {:induction false} DigitsRoundTrip(n: nat)
    ensures DigitsValue(Digits(n)) == n
  {
    var s := Digits(n);
    if n >= 10 {
      DigitsRoundTrip(n / 10);
      assert s[..|s| - 1] == Digits(n / 10);
    } else {
      assert s[..0] == [];
    }
  }

  lemma ItoaSign(n: int)
    ensures n < 0 <==> Itoa(n)[0] == MINUS
  {
    assert IsDigit(Digits(if n < 0 then -n else n)[0]);
  }

  lemma ItoaInjective(m: int, n: int)
    requires Itoa(m) == Itoa(n)
    ensures m == n
  {
    ItoaSign(m);
    ItoaSign(n);
    DigitsRoundTrip(if m < 0 then -m else m);
    DigitsRoundTrip(if n < 0 then -n else n);
    if m < 0 {
      assert Itoa(m)[1..] == Itoa(n)[1..];
    }
  }
}
