/** AES-CBC with PKCS#7 padding, as lib/tcert/util.go wraps it. */
module Cbc {
  import opened Common

  const BLOCK: nat := 16

  type Block = b: Bytes | |b| == 16 witness seq(16, _ => 0)

  /** The block function is foreign code: any pair of keyed maps on blocks. */
  datatype Aes = Aes(enc: (Bytes, Block) -> Block, dec: (Bytes, Block) -> Block)

  /** aes.NewCipher accepts exactly these key lengths. */
  predicate ValidKey(key: Bytes) { |key| in {16, 24, 32} }

  /** Block decryption inverts block encryption. */
  ghost predicate Lawful(aes: Aes) {
    forall key: Bytes, b: Block :: ValidKey(key) ==> aes.dec(key, aes.enc(key, b)) == b
  }

  /** Block encryption also inverts block decryption: each key permutes the blocks. */
  ghost predicate Permutes(aes: Aes) {
    forall key: Bytes, b: Block :: ValidKey(key) ==> aes.enc(key, aes.dec(key, b)) == b
  }

  function XorBlock(a: Block, b: Block): (c: Block) {
    seq(16, i requires 0 <= i < 16 => Xor(a[i], b[i]))
  }

  lemma XorBlockCancels(a: Block, b: Block)
    ensures XorBlock(XorBlock(a, b), b) == a
  {
    forall i | 0 <= i < 16
      ensures XorBlock(XorBlock(a, b), b)[i] == a[i]
    {
      XorCancels(a[i], b[i]);
    }
  }

  // ----- Block-wise CBC, section 6.2 of NIST SP 800-38A -----

  predicate WholeBlocks(s: Bytes) { |s| % BLOCK == 0 }

  function Encipher(aes: Aes, key: Bytes, iv: Block, s: Bytes): (c: Bytes)
    requires WholeBlocks(s)
    ensures |c| == |s|
    decreases |s|
  {
    if s == [] then [] else
      var first := aes.enc(key, XorBlock(s[..16], iv));
      first + Encipher(aes, key, first, s[16..])
  }

  function Decipher(aes: Aes, key: Bytes, iv: Block, c: Bytes): (s: Bytes)
    requires WholeBlocks(c)
    ensures |s| == |c|
    decreases |c|
  {
    if c == [] then [] else
      XorBlock(aes.dec(key, c[..16]), iv) + Decipher(aes, key, c[..16], c[16..])
  }

  lemma {:induction false} DecipherEncipher(aes: Aes, key: Bytes, iv: Block, s: Bytes)
    requires Lawful(aes) && ValidKey(key) && WholeBlocks(s)
    ensures Decipher(aes, key, iv, Encipher(aes, key, iv, s)) == s
    decreases |s|
  {
    if s != [] {
      var first := aes.enc(key, XorBlock(s[..16], iv));
      var c := first + Encipher(aes, key, first, s[16..]);
      assert c[..16] == first && c[16..] == Encipher(aes, key, first, s[16..]);
      XorBlockCancels(s[..16], iv);
      DecipherEncipher(aes, key, first, s[16..]);
      assert s == s[..16] + s[16..];
    }
  }

  lemma {:induction false} EncipherDecipher(aes: Aes, key: Bytes, iv: Block, c: Bytes)
    requires Permutes(aes) && ValidKey(key) && WholeBlocks(c)
    ensures Encipher(aes, key, iv, Decipher(aes, key, iv, c)) == c
    decreases |c|
  {
    if c != [] {
      var first := XorBlock(aes.dec(key, c[..16]), iv);
      var s := first + Decipher(aes, key, c[..16], c[16..]);
      assert s[..16] == first && s[16..] == Decipher(aes, key, c[..16], c[16..]);
      XorBlockCancels(aes.dec(key, c[..16]), iv);
      EncipherDecipher(aes, key, c[..16], c[16..]);
      assert c == c[..16] + c[16..];
    }
  }

  // ----- CBC block by block -----

  /** `x` is the bitwise exclusive or of two blocks. */
  ghost predicate IsXor(a: Block, b: Block, x: Block) {
    forall i, k :: 0 <= i < 16 && 0 <= k < 8 ==> (Bit(x[i], k) == 1 <==> Bit(a[i], k) != Bit(b[i], k))
  }

  lemma XorBlockIsXor(a: Block, b: Block)
    ensures IsXor(a, b, XorBlock(a, b))
  {
    hide Xor, Bit;
    forall i, k | 0 <= i < 16 && 0 <= k < 8
      ensures Bit(XorBlock(a, b)[i], k) == 1 <==> Bit(a[i], k) != Bit(b[i], k)
    {
      XorIsBitwise(a[i], b[i], k);
    }
  }

  function BlockAt(s: Bytes, j: nat): (b: Block)
    requires 16 * (j + 1) <= |s|
  {
    s[16 * j..16 * (j + 1)]
  }

  /** Block `j` of `s`, mixed with block `j` of `c`, encrypts to the next block of `c`. */
  ghost predicate LinkEncrypts(aes: Aes, key: Bytes, s: Bytes, c: Bytes, j: nat)
    requires 16 * (j + 1) <= |s| && |c| == 16 + |s|
  {
    exists x: Block :: IsXor(BlockAt(s, j), BlockAt(c, j), x) && aes.enc(key, x) == BlockAt(c, j + 1)
  }

  ghost predicate ChainEncrypts(aes: Aes, key: Bytes, s: Bytes, c: Bytes) {
    && WholeBlocks(s) && |c| == 16 + |s|
    && forall j :: 0 <= j < |s| / 16 ==> LinkEncrypts(aes, key, s, c, j)
  }

  /** The block of `c` after block `j` decrypts, mixed with block `j` of `c`, to block `j` of `s`. */
  ghost predicate LinkDecrypts(aes: Aes, key: Bytes, c: Bytes, s: Bytes, j: nat)
    requires 16 * (j + 1) <= |s| && |c| == 16 + |s|
  {
    IsXor(aes.dec(key, BlockAt(c, j + 1)), BlockAt(c, j), BlockAt(s, j))
  }

  ghost predicate ChainDecrypts(aes: Aes, key: Bytes, c: Bytes, s: Bytes) {
    && WholeBlocks(s) && |c| == 16 + |s|
    && forall j :: 0 <= j < |s| / 16 ==> LinkDecrypts(aes, key, c, s, j)
  }

  lemma BlockAfterFirst(first: Block, rest: Bytes, j: nat)
    requires 16 * (j + 1) <= |rest|
    ensures BlockAt(first + rest, j + 1) == BlockAt(rest, j) && BlockAt(first + rest, 0) == first
  {
  }

  lemma {:induction false} EncipherChains(aes: Aes, key: Bytes, iv: Block, s: Bytes, j: nat)
    requires WholeBlocks(s) && 16 * (j + 1) <= |s|
    ensures var c := iv + Encipher(aes, key, iv, s);
            BlockAt(c, j + 1) == aes.enc(key, XorBlock(BlockAt(s, j), BlockAt(c, j)))
    decreases |s|
  {
    hide XorBlock;
    var first := aes.enc(key, XorBlock(s[..16], iv));
    var tail := Encipher(aes, key, first, s[16..]);
    var c := iv + (first + tail);
    BlockAfterFirst(iv, first + tail, j);
    if j == 0 {
      assert BlockAt(c, 1) == first && BlockAt(c, 0) == iv && BlockAt(s, 0) == s[..16];
    } else {
      EncipherChains(aes, key, first, s[16..], j - 1);
      BlockAfterFirst(iv, first + tail, j - 1);
      BlockAfterFirst(s[..16], s[16..], j - 1);
      assert s == s[..16] + s[16..];
    }
  }

  lemma {:induction false} DecipherChains(aes: Aes, key: Bytes, iv: Block, c: Bytes, j: nat)
    requires WholeBlocks(c) && 16 * (j + 1) <= |c|
    ensures BlockAt(Decipher(aes, key, iv, c), j) ==
            XorBlock(aes.dec(key, BlockAt(iv + c, j + 1)), BlockAt(iv + c, j))
    decreases |c|
  {
    hide XorBlock;
    var first := XorBlock(aes.dec(key, c[..16]), iv);
    var tail := Decipher(aes, key, c[..16], c[16..]);
    BlockAfterFirst(iv, c, j);
    if j == 0 {
      assert BlockAt(first + tail, 0) == first && BlockAt(iv + c, 0) == iv && BlockAt(c, 0) == c[..16];
    } else {
      DecipherChains(aes, key, c[..16], c[16..], j - 1);
      BlockAfterFirst(iv, c, j - 1);
      BlockAfterFirst(first, tail, j - 1);
      assert c == c[..16] + c[16..];
    }
  }

  /** CBC encryption as the standard states it: by index, on bits, with the vector as the block before the first. */
  lemma EncipherIsCbc(aes: Aes, key: Bytes, iv: Block, s: Bytes)
    requires WholeBlocks(s)
    ensures ChainEncrypts(aes, key, s, iv + Encipher(aes, key, iv, s))
  {
    hide XorBlock, IsXor, Encipher;
    var c := iv + Encipher(aes, key, iv, s);
    forall j | 0 <= j < |s| / 16
      ensures LinkEncrypts(aes, key, s, c, j)
    {
      EncipherChains(aes, key, iv, s, j);
      XorBlockIsXor(BlockAt(s, j), BlockAt(c, j));
    }
  }

  lemma DecipherIsCbc(aes: Aes, key: Bytes, iv: Block, c: Bytes)
    requires WholeBlocks(c)
    ensures ChainDecrypts(aes, key, iv + c, Decipher(aes, key, iv, c))
  {
    hide XorBlock, IsXor, Decipher;
    forall j | 0 <= j < |c| / 16
      ensures LinkDecrypts(aes, key, iv + c, Decipher(aes, key, iv, c), j)
    {
      DecipherChains(aes, key, iv, c, j);
      XorBlockIsXor(aes.dec(key, BlockAt(iv + c, j + 1)), BlockAt(iv + c, j));
    }
  }

  // ----- PKCS#7 padding, section 6.3 of RFC 5652 -----

  function Pad(src: Bytes): (r: Bytes)
    ensures WholeBlocks(r) && |src| < |r| <= |src| + 16 && src <= r
  {
    var padding := BLOCK - |src| % BLOCK;
    src + seq(padding, _ => padding)
  }

  /** PKCS7UnPadding as a function: the index expressions panic where Go's would. */
  function Unpad(src: Bytes): (r: Outcome<Bytes>) {
    if src == [] then Panic
    else
      var unpadding := src[|src| - 1];
      if unpadding > BLOCK || unpadding == 0 then Err("invalid padding")
      else if unpadding > |src| then Panic
      else if forall i :: |src| - unpadding <= i < |src| ==> src[i] == unpadding
      then Ok(src[..|src| - unpadding])
      else Err("invalid padding")
  }

  lemma UnpadPad(m: Bytes)
    ensures Unpad(Pad(m)) == Ok(m)
  {
    assert Pad(m)[..|m|] == m;
  }

  /** On whole blocks unpadding accepts exactly the images of padding and returns the unique preimage. */
  lemma UnpadAcceptsImagesOfPad(src: Bytes, m: Bytes)
    requires src != [] && WholeBlocks(src)
    ensures Unpad(src) == Ok(m) <==> Pad(m) == src
    ensures !Unpad(src).Panic?
  {
    if Pad(m) == src {
      UnpadPad(m);
    }
    if Unpad(src) == Ok(m) {
      var unpadding := src[|src| - 1];
      assert |m| == |src| - unpadding;
      assert BLOCK - |m| % BLOCK == unpadding;
      assert Pad(m) == src;
    }
  }

  method PKCS7UnPadding(src: Bytes) returns (r: Outcome<Bytes>)
    ensures r == Unpad(src)
  {
    var length := |src|;
    if length == 0 { return Panic; }
    var unpadding := src[length - 1];
    if unpadding > BLOCK || unpadding == 0 { return Err("invalid padding"); }
    if unpadding > length { return Panic; }
    var pad := src[length - unpadding..];
    for i := 0 to unpadding
      invariant forall j :: 0 <= j < i ==> pad[j] == unpadding
    {
      if pad[i] != unpadding {
        assert src[length - unpadding + i] != unpadding;
        return Err("invalid padding");
      }
    }
    assert forall i :: length - unpadding <= i < length ==> src[i] == pad[i - (length - unpadding)];
    return Ok(src[..length - unpadding]);
  }

  // ----- CBCEncrypt and CBCDecrypt -----

  /** `iv` is the block read from the random source, or None when that read fails. */
  function Encrypted(aes: Aes, key: Bytes, iv: Option<Block>, s: Bytes): (r: Outcome<Bytes>) {
    if !WholeBlocks(s) then Err("plaintext is not a multiple of the block size")
    else if !ValidKey(key) then Err("invalid key size")
    else if iv.None? then Err("random source")
    else Ok(iv.value + Encipher(aes, key, iv.value, s))
  }

  function Decrypted(aes: Aes, key: Bytes, src: Bytes): (r: Outcome<Bytes>) {
    if !ValidKey(key) then Err("invalid key size")
    else if |src| < BLOCK then Err("ciphertext too short")
    else if !WholeBlocks(src[16..]) then Err("ciphertext is not a multiple of the block size")
    else Ok(Decipher(aes, key, src[..16], src[16..]))
  }

  /** Enciphers `s` into the buffer, whose first block already holds the initialisation vector. */
  method EncryptBlocks(aes: Aes, key: Bytes, s: Bytes, dst: array<byte>)
    requires WholeBlocks(s) && dst.Length == 16 + |s|
    modifies dst
    ensures dst[..] == old(dst[..16]) + Encipher(aes, key, old(dst[..16]), s)
  {
    ghost var iv := dst[..16];
    var n := 0;
    while n < |s|
      invariant 0 <= n <= |s| && n % BLOCK == 0
      invariant dst[..16 + n] + Encipher(aes, key, dst[n..n + 16], s[n..]) == iv + Encipher(aes, key, iv, s)
    {
      var block := aes.enc(key, XorBlock(s[n..n + 16], dst[n..n + 16]));
      assert s[n..][..16] == s[n..n + 16] && s[n..][16..] == s[n + 16..];
      ghost var done := dst[..16 + n];
      forall i | 0 <= i < 16 { dst[16 + n + i] := block[i]; }
      assert dst[16 + n..16 + n + 16] == block;
      assert dst[..16 + n + 16] == done + block;
      n := n + 16;
    }
    assert s[n..] == [] && dst[..16 + n] == dst[..];
  }

  method CBCEncrypt(aes: Aes, key: Bytes, iv: Option<Block>, s: Bytes) returns (r: Outcome<Bytes>)
    ensures r == Encrypted(aes, key, iv, s)
    ensures r.Ok? <==> WholeBlocks(s) && |key| in {16, 24, 32} && iv.Some?
    ensures r.Ok? ==> r.value[..16] == iv.value && ChainEncrypts(aes, key, s, r.value)
  {
    hide ChainEncrypts, Encipher;
    if |s| % BLOCK != 0 { return Err("plaintext is not a multiple of the block size"); }
    if !ValidKey(key) { return Err("invalid key size"); }
    if iv.None? { return Err("random source"); }
    var ciphertext := new byte[BLOCK + |s|];
    forall i | 0 <= i < 16 { ciphertext[i] := iv.value[i]; }
    assert ciphertext[..16] == iv.value;
    EncryptBlocks(aes, key, s, ciphertext);
    EncipherIsCbc(aes, key, iv.value, s);
    return Ok(ciphertext[..]);
  }

  /** The buffer with its block at `n` turned into plaintext. */
  function DecryptedAt(aes: Aes, key: Bytes, a: Bytes, n: nat): (r: Bytes)
    requires 16 <= n <= |a| - 16
    ensures |r| == |a|
  {
    a[..n] + XorBlock(aes.dec(key, a[n..n + 16]), a[n - 16..n]) + a[n + 16..]
  }

  /** The buffer with everything from `n` on turned into plaintext. */
  function DecryptedFrom(aes: Aes, key: Bytes, a: Bytes, n: nat): (r: Bytes)
    requires 16 <= n <= |a| && WholeBlocks(a[n..])
    ensures |r| == |a|
  {
    a[..n] + Decipher(aes, key, a[n - 16..n], a[n..])
  }

  lemma DecryptedStep(aes: Aes, key: Bytes, a: Bytes, n: nat)
    requires 16 <= n <= |a| - 16 && WholeBlocks(a[n..])
    ensures DecryptedAt(aes, key, DecryptedFrom(aes, key, a, n + 16), n) == DecryptedFrom(aes, key, a, n)
  {
    var b := DecryptedFrom(aes, key, a, n + 16);
    assert b[..n] == a[..n] && b[n..n + 16] == a[n..n + 16] && b[n - 16..n] == a[n - 16..n];
    assert a[n..][..16] == a[n..n + 16] && a[n..][16..] == a[n + 16..];
    assert b[n + 16..] == Decipher(aes, key, a[n..n + 16], a[n + 16..]);
  }

  method DecryptBlock(aes: Aes, key: Bytes, src: array<byte>, n: nat)
    requires 16 <= n <= src.Length - 16
    modifies src
    ensures src[..] == DecryptedAt(aes, key, old(src[..]), n)
  {
    assert src[n..n + 16] == src[..][n..n + 16] && src[n - 16..n] == src[..][n - 16..n];
    var block := XorBlock(aes.dec(key, src[n..n + 16]), src[n - 16..n]);
    forall i | 0 <= i < 16 { src[n + i] := block[i]; }
  }

  /** The last block first, so that each block still finds its predecessor's ciphertext. */
  method CryptBlocks(aes: Aes, key: Bytes, src: array<byte>)
    requires src.Length >= 16 && WholeBlocks(src[16..])
    modifies src
    ensures src[..] == DecryptedFrom(aes, key, old(src[..]), 16)
  {
    var n := src.Length;
    while n > BLOCK
      invariant BLOCK <= n <= src.Length && n % BLOCK == 0
      invariant src[..] == DecryptedFrom(aes, key, old(src[..]), n)
    {
      n := n - 16;
      DecryptBlock(aes, key, src, n);
      DecryptedStep(aes, key, old(src[..]), n);
    }
  }

  /**
   * Decryption works in place: the blocks after the initialisation vector are overwritten
   * by the plaintext, and the result is a view of the caller's buffer.
   */
  method CBCDecrypt(aes: Aes, key: Bytes, src: array<byte>) returns (r: Outcome<Bytes>)
    modifies src
    ensures r == Decrypted(aes, key, old(src[..]))
    ensures r.Ok? <==> |key| in {16, 24, 32} && src.Length >= 16 && src.Length % 16 == 0
    ensures r.Ok? ==> ChainDecrypts(aes, key, old(src[..]), r.value)
    ensures r.Ok? ==> src[..] == old(src[..16]) + r.value
    ensures !r.Ok? ==> src[..] == old(src[..])
  {
    hide ChainDecrypts, Decipher;
    if !ValidKey(key) { return Err("invalid key size"); }
    if src.Length < BLOCK { return Err("ciphertext too short"); }
    if (src.Length - BLOCK) % BLOCK != 0 {
      return Err("ciphertext is not a multiple of the block size");
    }
    assert src[..][..16] == src[..16] && src[..][0..16] == src[..16];
    DecipherIsCbc(aes, key, src[..16], src[16..]);
    assert src[..16] + src[16..] == src[..];
    CryptBlocks(aes, key, src);
    return Ok(src[16..]);
  }

  // ----- The combined wrappers -----

  function Seal(aes: Aes, key: Bytes, iv: Option<Block>, m: Bytes): (r: Outcome<Bytes>) {
    Encrypted(aes, key, iv, Pad(m))
  }

  function Open(aes: Aes, key: Bytes, src: Bytes): (r: Outcome<Bytes>) {
    match Decrypted(aes, key, src)
    case Ok(pt) => Unpad(pt)
    case Err(e) => Err(e)
    case Panic => Panic
  }

  method CBCPKCS7Encrypt(aes: Aes, key: Bytes, iv: Option<Block>, src: Bytes) returns (r: Outcome<Bytes>)
    ensures r == Seal(aes, key, iv, src)
    ensures r.Ok? <==> ValidKey(key) && iv.Some?
  {
    r := CBCEncrypt(aes, key, iv, Pad(src));
  }

  method CBCPKCS7Decrypt(aes: Aes, key: Bytes, src: array<byte>) returns (r: Outcome<Bytes>)
    modifies src
    ensures r == Open(aes, key, old(src[..]))
    ensures var pt := Decrypted(aes, key, old(src[..]));
            src[..] == if pt.Ok? then old(src[..16]) + pt.value else old(src[..])
  {
    r := CBCDecrypt(aes, key, src);
    if r.Ok? {
      r := PKCS7UnPadding(r.value);
    }
  }

  /** Every message comes back, for every usable key and every initialisation vector. */
  lemma OpenSeal(aes: Aes, key: Bytes, iv: Block, m: Bytes)
    requires Lawful(aes) && ValidKey(key)
    ensures Seal(aes, key, Some(iv), m).Ok?
    ensures Open(aes, key, Seal(aes, key, Some(iv), m).value) == Ok(m)
  {
    var c := Encipher(aes, key, iv, Pad(m));
    var sealed := iv + c;
    assert sealed[..16] == iv && sealed[16..] == c;
    DecipherEncipher(aes, key, iv, Pad(m));
    UnpadPad(m);
  }

  /** The other direction: what opens was sealed, under the vector that the ciphertext starts with. */
  lemma SealOpen(aes: Aes, key: Bytes, src: Bytes, m: Bytes)
    requires Lawful(aes) && Permutes(aes)
    ensures Open(aes, key, src) == Ok(m) <==> exists iv: Block :: Seal(aes, key, Some(iv), m) == Ok(src)
  {
    if Open(aes, key, src) == Ok(m) {
      var iv: Block := src[..16];
      var pt := Decipher(aes, key, iv, src[16..]);
      UnpadAcceptsImagesOfPad(pt, m);
      EncipherDecipher(aes, key, iv, src[16..]);
      assert src == src[..16] + src[16..];
      assert Seal(aes, key, Some(iv), m) == Ok(src);
    }
    if iv: Block :| Seal(aes, key, Some(iv), m) == Ok(src) {
      OpenSeal(aes, key, iv, m);
    }
  }

  /** Opening panics exactly on a bare initialisation vector: unpadding then indexes an empty slice. */
  lemma OpenPanicsOnBareVector(aes: Aes, key: Bytes, src: Bytes)
    ensures Open(aes, key, src).Panic? <==> ValidKey(key) && |src| == 16
  {
    if ValidKey(key) && |src| > 16 && WholeBlocks(src[16..]) {
      UnpadAcceptsImagesOfPad(Decipher(aes, key, src[..16], src[16..]), []);
    }
  }
}
