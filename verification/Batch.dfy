/** A batch of transaction certificates: lib/tcert/tcert.go, GetBatch, and what its owner does with it. */
module Batch {
  import opened Common
  import opened Cbc
  import opened Extensions

  // ----- The group and the keyed hash, as laws -----

  /** Foreign crypto: AES, HMAC, and a group of points `P` with a base point of order `order`. */
  datatype Suite<!P> = Suite(
    aes: Aes, hmac: Hmac, order: nat, baseMult: nat -> P, add: (P, P) -> P, marshal: P -> Bytes)

  /** Multiples of the base point repeat with the order. */
  ghost predicate Periodic<P>(s: Suite<P>, a: nat)
    requires s.order >= 2
  {
    s.baseMult(a % s.order) == s.baseMult(a)
  }

  /** Block decryption inverts encryption; multiplying the base point is a homomorphism. */
  ghost predicate LawfulSuite<P(!new)>(s: Suite<P>) {
    && Lawful(s.aes)
    && s.order >= 2
    && (forall a: nat, b: nat :: s.add(s.baseMult(a), s.baseMult(b)) == s.baseMult(a + b))
    && (forall a: nat :: Periodic(s, a))
  }

  // ----- Requests, certificates, randomness -----

  type uint = x: int | 0 <= x < 0x1_0000_0000_0000_0000

  datatype PublicKey<P> = Ecdsa(point: P) | OtherKey
  datatype ECert<P> = ECert(publicKey: PublicKey<P>, commonName: Bytes)
  datatype Mgr = Mgr(validityPeriod: int, maxAllowedBatchSize: uint)
  datatype Certificate<P> = Certificate(
    publicKey: P, serial: nat, notBefore: int, notAfter: int, extensions: seq<Extension>)
  datatype TCert<P> = TCert(cert: Certificate<P>, keys: map<Bytes, Bytes>)
  datatype Response<P> = Response(key: Bytes, tcerts: seq<TCert<P>>)

  type Nonce = b: Bytes | |b| == 8 witness [0, 0, 0, 0, 0, 0, 0, 0]

  /** What one certificate draws; `signed` says whether x509.CreateCertificate succeeds. */
  datatype Draws = Draws(uuid: Option<nat>, index: Option<Block>, vectors: Vectors, signed: bool)

  /** All that one call reads from the clock and the random source. */
  datatype World = World(now: int, nonce: Nonce, hmacKey: Bytes, draws: nat -> Draws)

  // ----- Key derivation -----

  /** Conversion to a 64-bit int, which wraps. */
  function Int64(x: int): (r: int)
    ensures -0x8000_0000_0000_0000 <= r < 0x8000_0000_0000_0000
    ensures (x - r) % 0x1_0000_0000_0000_0000 == 0
  {
    (x + 0x8000_0000_0000_0000) % 0x1_0000_0000_0000_0000 - 0x8000_0000_0000_0000
  }

  /** The random half of the nonce is followed by eight zeros: the code never fills them. */
  function TCertIndex(i: nat, nonce: Nonce): (tidx: Bytes) {
    Itoa(Int64(2 * i + 1)) + (nonce + [0, 0, 0, 0, 0, 0, 0, 0]) + PADDING
  }

  function IndexKey<P>(s: Suite<P>, kdfKey: Bytes): (k: Bytes)
    ensures ValidKey(k)
  {
    s.hmac(kdfKey, [1])[..32]
  }

  function Scalar<P>(s: Suite<P>, kdfKey: Bytes, tidx: Bytes): (k: nat)
    requires s.order >= 2
    ensures 1 <= k <= s.order - 1
  {
    FromBigEndian(s.hmac(s.hmac(kdfKey, [2]), tidx)) % (s.order - 1) + 1
  }

  // ----- GetBatch -----

  predicate CountAllowed(tm: Mgr, req: Request) { req.count <= tm.maxAllowedBatchSize }

  /** The number asked for: the configured maximum when the request names none. */
  function Asked(tm: Mgr, req: Request): (n: nat) { if req.count == 0 then tm.maxAllowedBatchSize else req.count }

  /** How many certificates the loop makes: none when the conversion to int turns negative. */
  function BatchSize(tm: Mgr, req: Request): (n: nat)
    requires CountAllowed(tm, req)
  {
    var n := Int64(Asked(tm, req));
    if n < 0 then 0 else n
  }

  function Validity(tm: Mgr, req: Request): (vp: int) {
    if req.validityPeriod > 0 && req.validityPeriod < tm.validityPeriod then req.validityPeriod
    else tm.validityPeriod
  }

  /** The draws that certificate `i` needs all succeed. */
  predicate AllDrawn<P>(s: Suite<P>, req: Request, ecert: ECert<P>, d: Draws) {
    && d.uuid.Some? && d.index.Some? && d.signed
    && Drawn(Job(s.aes, s.hmac, req, d.uuid.value, ecert.commonName), d.vectors, |req.attrs|)
  }

  /** Certificate `i` of a batch: its key, serial number, validity, extensions and attribute keys. */
  ghost predicate Issued<P>(
      s: Suite<P>, tm: Mgr, req: Request, ecert: ECert<P>, w: World, kdfKey: Bytes, i: nat, t: TCert<P>)
    requires s.order >= 2 && ecert.publicKey.Ecdsa?
  {
    var d := w.draws(i);
    var tidx := TCertIndex(i, w.nonce);
    && AllDrawn(s, req, ecert, d)
    && t.cert.publicKey == s.add(ecert.publicKey.point, s.baseMult(Scalar(s, kdfKey, tidx)))
    && t.cert.serial == d.uuid.value
    && t.cert.notBefore == w.now && t.cert.notAfter == w.now + Validity(tm, req)
    && exists sealed :: Seal(s.aes, IndexKey(s, kdfKey), d.index, tidx) == Ok(sealed)
         && Generated(Job(s.aes, s.hmac, req, d.uuid.value, ecert.commonName), d.vectors, sealed,
                      t.cert.extensions, t.keys)
  }

  /** The part of the loop that builds the index. */
  method ComputeIndex(i: nat, random: Nonce) returns (tidx: Bytes)
    ensures tidx == TCertIndex(i, random)
  {
    hide Itoa;
    var nonce := random + [0, 0, 0, 0, 0, 0, 0, 0];
    tidx := Itoa(Int64(2 * i + 1));
    tidx := tidx + nonce;
    tidx := tidx + PADDING;
  }

  /** The part of the loop that derives the scalar. */
  method DeriveScalar<P>(s: Suite<P>, kdfKey: Bytes, tidx: Bytes) returns (k: nat)
    requires s.order >= 2
    ensures k == Scalar(s, kdfKey, tidx)
  {
    hide FromBigEndian;
    var mac := s.hmac(kdfKey, [2]);
    mac := s.hmac(mac, tidx);
    k := FromBigEndian(mac);
    k := k % (s.order - 1);
    k := k + 1;
  }

  method GetBatch<P>(s: Suite<P>, tm: Mgr, req: Request, ecert: ECert<P>, w: World)
    returns (r: Outcome<Response<P>>)
    requires s.order >= 2
    ensures r.Panic? <==> CountAllowed(tm, req) && !ecert.publicKey.Ecdsa?
    ensures r.Ok? <==> CountAllowed(tm, req) && ecert.publicKey.Ecdsa?
                       && forall i: nat :: i < BatchSize(tm, req) ==> AllDrawn(s, req, ecert, w.draws(i))
    ensures r.Ok? ==> r.value.key == s.hmac(w.hmacKey, s.marshal(ecert.publicKey.point))
    ensures r.Ok? ==> |r.value.tcerts| == BatchSize(tm, req)
    ensures r.Ok? ==> (|r.value.tcerts| == Asked(tm, req) <==> Asked(tm, req) < 0x8000_0000_0000_0000)
    ensures r.Ok? ==> forall i: nat :: i < |r.value.tcerts| ==>
                Issued(s, tm, req, ecert, w, r.value.key, i, r.value.tcerts[i])
  {
    hide Generated, Seal, TCertIndex, Scalar;
    var numTCertsInBatch;
    if req.count == 0 {
      numTCertsInBatch := Int64(tm.maxAllowedBatchSize);
    } else if req.count <= tm.maxAllowedBatchSize {
      numTCertsInBatch := Int64(req.count);
    } else {
      return Err("too many requested");
    }
    var vp := tm.validityPeriod;
    if req.validityPeriod > 0 && req.validityPeriod < vp { vp := req.validityPeriod; }
    if !ecert.publicKey.Ecdsa? { return Panic; }
    var pub := ecert.publicKey.point;
    var kdfKey := s.hmac(w.hmacKey, s.marshal(pub));
    var tcerts: seq<TCert<P>> := [];
    var i: nat := 0;
    while i < numTCertsInBatch
      invariant i <= BatchSize(tm, req) && |tcerts| == i
      invariant forall j: nat :: j < i ==> AllDrawn(s, req, ecert, w.draws(j))
      invariant forall j: nat :: j < i ==> Issued(s, tm, req, ecert, w, kdfKey, j, tcerts[j])
    {
      var d := w.draws(i);
      if d.uuid.None? { return Err("uuid"); }
      var tidx := ComputeIndex(i, w.nonce);
      var extKey := s.hmac(kdfKey, [1])[..32];
      var k := DeriveScalar(s, kdfKey, tidx);
      var txPub := s.add(pub, s.baseMult(k));
      var encryptedTidx := CBCPKCS7Encrypt(s.aes, extKey, d.index, tidx);
      if !encryptedTidx.Ok? { return Err("index"); }
      var job := Job(s.aes, s.hmac, req, d.uuid.value, ecert.commonName);
      var generated := GenerateExtensions(job, d.vectors, encryptedTidx.value);
      if !generated.Ok? { return Err("extensions"); }
      if !d.signed { return Err("x509.CreateCertificate"); }
      var cert := Certificate(txPub, d.uuid.value, w.now, w.now + vp, generated.value.0);
      tcerts := tcerts + [TCert(cert, generated.value.1)];
      i := i + 1;
    }
    return Ok(Response(kdfKey, tcerts));
  }

  // ----- What the owner of the enrollment key does with a certificate -----

  function OwnerIndex<P>(s: Suite<P>, key: Bytes, cert: Certificate<P>): (tidx: Outcome<Bytes>) {
    match Find(cert.extensions, TCERT_INDEX)
    case None => Err("no index")
    case Some(sealed) => Open(s.aes, IndexKey(s, key), sealed)
  }

  /** From the enrollment private key `d` and the returned key: the private key of `cert`. */
  function OwnerPrivateKey<P>(s: Suite<P>, key: Bytes, cert: Certificate<P>, d: nat): (sk: Outcome<nat>)
    requires s.order >= 2
  {
    match OwnerIndex(s, key, cert)
    case Ok(tidx) => Ok((d + Scalar(s, key, tidx)) % s.order)
    case Err(e) => Err(e)
    case Panic => Panic
  }

  lemma IndexReadsBack<P(!new)>(
      s: Suite<P>, tm: Mgr, req: Request, ecert: ECert<P>, w: World, kdfKey: Bytes, i: nat, t: TCert<P>)
    requires LawfulSuite(s) && ecert.publicKey.Ecdsa?
    requires Issued(s, tm, req, ecert, w, kdfKey, i, t)
    ensures OwnerIndex(s, kdfKey, t.cert) == Ok(TCertIndex(i, w.nonce))
  {
    hide Decrypted, Encrypted, TCertIndex, Stored, StoredEnrollment, Positions, Keys;
    var tidx, d := TCertIndex(i, w.nonce), w.draws(i);
    var job := Job(s.aes, s.hmac, req, d.uuid.value, ecert.commonName);
    var sealed :| Seal(s.aes, IndexKey(s, kdfKey), d.index, tidx) == Ok(sealed)
                  && Generated(job, d.vectors, sealed, t.cert.extensions, t.keys);
    FindNumbered(t.cert.extensions, job.Size(), job.Size());
    OpenSeal(s.aes, IndexKey(s, kdfKey), d.index.value, tidx);
  }

  lemma SumOfKeys<P(!new)>(s: Suite<P>, d: nat, k: nat)
    requires LawfulSuite(s)
    ensures s.baseMult((d + k) % s.order) == s.add(s.baseMult(d), s.baseMult(k))
  {
    assert Periodic(s, d + k);
  }

  /** Sixteen equal bytes, and the like. */
  function Repeat(n: nat, b: byte): (r: Bytes) { seq(n, _ => b) }

  /**
   * What certificate number `i` holds, spelled out. Its index is 2i + 1 in decimal, as a 64-bit int, then the
   * nonce, eight zeros and sixteen bytes 255; that is what the owner reads with the first 32 bytes of
   * hmac(key, {1}). Its public key is the enrollment key plus k times the base point, where k - 1 is the
   * number denoted by hmac(hmac(key, {2}), index), modulo the order less one.
   */
  lemma CertificateSpelledOut<P(!new)>(
      s: Suite<P>, tm: Mgr, req: Request, ecert: ECert<P>, w: World, key: Bytes, i: nat, t: TCert<P>)
    requires LawfulSuite(s) && ecert.publicKey.Ecdsa?
    requires Issued(s, tm, req, ecert, w, key, i, t)
    ensures var index := Itoa(Int64(2 * i + 1)) + w.nonce + Repeat(8, 0) + Repeat(16, 255);
            var k := Positional(s.hmac(s.hmac(key, [2]), index)) % (s.order - 1) + 1;
            && Find(t.cert.extensions, [1, 2, 3, 4, 5, 6, 7]).Some?
            && Open(s.aes, s.hmac(key, [1])[..32], Find(t.cert.extensions, [1, 2, 3, 4, 5, 6, 7]).value) == Ok(index)
            && t.cert.publicKey == s.add(ecert.publicKey.point, s.baseMult(k))
  {
    hide Generated, Open, Find, Itoa, FromBigEndian, Positional, AllDrawn;
    var index := Itoa(Int64(2 * i + 1)) + w.nonce + Repeat(8, 0) + Repeat(16, 255);
    IndexReadsBack(s, tm, req, ecert, w, key, i, t);
    assert Repeat(8, 0) == [0, 0, 0, 0, 0, 0, 0, 0] && Repeat(16, 255) == PADDING;
    assert TCertIndex(i, w.nonce) == index;
    FromBigEndianIsPositional(s.hmac(s.hmac(key, [2]), index));
  }

  /** The integers modulo three, with a hash that marks one message in its last byte. */
  function Marking(message: Bytes): (s: Suite<int>) {
    Suite(SHIFTING, (key, m) => LastByte(if m == message then 1 else 0), 3,
          (a: nat) => Mod3(a), (a: int, b: int) => Mod3(a + b), (a: int) => [])
  }

  function LastByte(b: byte): (d: Digest) { seq(47, _ => 0) + [b] }

  function Mod3(a: int): (r: int) { a % 3 }

  lemma Mod3Laws(a: nat, b: nat)
    ensures Mod3(Mod3(a) + Mod3(b)) == Mod3(a + b) && Mod3(a % 3) == Mod3(a)
  {
    assert a == 3 * (a / 3) + a % 3 && b == 3 * (b / 3) + b % 3;
  }

  lemma MarkingAdds(message: Bytes, a: nat, b: nat)
    ensures var s := Marking(message); s.add(s.baseMult(a), s.baseMult(b)) == s.baseMult(a + b) && Periodic(s, a)
  {
    hide Mod3;
    Mod3Laws(a, b);
  }

  lemma MarkingIsLawful(message: Bytes)
    ensures LawfulSuite(Marking(message))
  {
    hide Lawful, Marking, Periodic;
    ShiftingIsLawful();
    MarkingOrder(message);
    var s := Marking(message);
    forall a: nat, b: nat
      ensures s.add(s.baseMult(a), s.baseMult(b)) == s.baseMult(a + b)
    {
      MarkingAdds(message, a, b);
    }
    forall a: nat
      ensures Periodic(s, a)
    {
      MarkingAdds(message, a, 0);
    }
  }

  lemma MarkingOrder(message: Bytes)
    ensures Marking(message).order == 3 && Marking(message).aes == SHIFTING
  {
  }

  lemma MarkedScalar(message: Bytes, key: Bytes, tidx: Bytes)
    ensures Scalar(Marking(message), key, tidx) == if tidx == message then 2 else 1
  {
    var b: byte := if tidx == message then 1 else 0;
    var d := LastByte(b);
    assert d[..|d| - 1] == seq(47, _ => 0) && d[|d| - 1] == b;
  }

  /**
   * Each scalar depends on its index: for any two certificates of a batch there is lawful cryptography
   * under which their public keys differ.
   */
  lemma IndexesGiveDifferentKeys(
      tm: Mgr, req: Request, ecert: ECert<int>, w: World, key: Bytes, i: nat, t: TCert<int>, j: nat, u: TCert<int>)
    requires ecert.publicKey.Ecdsa? && i < j < 0x8000_0000_0000_0000
    requires var s := Marking(TCertIndex(i, w.nonce));
             Issued(s, tm, req, ecert, w, key, i, t) && Issued(s, tm, req, ecert, w, key, j, u)
    ensures LawfulSuite(Marking(TCertIndex(i, w.nonce)))
    ensures t.cert.publicKey != u.cert.publicKey
  {
    hide Generated, TCertIndex, Scalar, AllDrawn, LawfulSuite, Seal;
    var a, b := TCertIndex(i, w.nonce), TCertIndex(j, w.nonce);
    MarkingIsLawful(a);
    if a == b {
      IndexesDistinct(i, j, w.nonce);
    }
    MarkedScalar(a, key, a);
    MarkedScalar(a, key, b);
  }

  /**
   * For every certificate of every batch issued to the holder of `d`: decrypting its index
   * extension and redoing the derivation gives the private key of the certificate's public key.
   */
  lemma OwnerHoldsPrivateKey<P(!new)>(
      s: Suite<P>, tm: Mgr, req: Request, ecert: ECert<P>, w: World, kdfKey: Bytes, i: nat, t: TCert<P>, d: nat)
    requires LawfulSuite(s)
    requires ecert.publicKey == Ecdsa(s.baseMult(d))
    requires Issued(s, tm, req, ecert, w, kdfKey, i, t)
    ensures OwnerPrivateKey(s, kdfKey, t.cert, d).Ok?
    ensures s.baseMult(OwnerPrivateKey(s, kdfKey, t.cert, d).value) == t.cert.publicKey
  {
    hide TCertIndex, Scalar, OwnerIndex, Generated, LawfulSuite, AllDrawn;
    var k := Scalar(s, kdfKey, TCertIndex(i, w.nonce));
    IndexReadsBack(s, tm, req, ecert, w, kdfKey, i, t);
    SumOfKeys(s, d, k);
  }

  // ----- Indexes are distinct -----

  lemma Int64Injective(x: nat, y: nat)
    requires x < 0x1_0000_0000_0000_0000 && y < 0x1_0000_0000_0000_0000
    requires Int64(x) == Int64(y)
    ensures x == y
  {
    assert Int64(x) == if x < 0x8000_0000_0000_0000 then x else x - 0x1_0000_0000_0000_0000;
    assert Int64(y) == if y < 0x8000_0000_0000_0000 then y else y - 0x1_0000_0000_0000_0000;
  }

  /** No two certificates of a batch share an index, for every batch size a Go int can hold. */
  lemma IndexesDistinct(i: nat, j: nat, nonce: Nonce)
    requires i < 0x8000_0000_0000_0000 && j < 0x8000_0000_0000_0000
    requires TCertIndex(i, nonce) == TCertIndex(j, nonce)
    ensures i == j
  {
    var a, b, suffix := Itoa(Int64(2 * i + 1)), Itoa(Int64(2 * j + 1)), nonce + [0, 0, 0, 0, 0, 0, 0, 0] + PADDING;
    assert TCertIndex(i, nonce) == a + suffix && TCertIndex(j, nonce) == b + suffix;
    assert |a| == |b| && (a + suffix)[..|a|] == a && (b + suffix)[..|a|] == b;
    ItoaInjective(Int64(2 * i + 1), Int64(2 * j + 1));
    Int64Injective(2 * i + 1, 2 * j + 1);
  }

  /**
   * Two certificates of a batch: their owner reads different indexes, and both are valid for the
   * same period, the smaller of the positive request and the configured one.
   */
  lemma BatchMembers<P(!new)>(
      s: Suite<P>, tm: Mgr, req: Request, ecert: ECert<P>, w: World, kdfKey: Bytes,
      i: nat, t: TCert<P>, j: nat, u: TCert<P>)
    requires LawfulSuite(s) && ecert.publicKey.Ecdsa? && CountAllowed(tm, req)
    requires i < j < BatchSize(tm, req)
    requires Issued(s, tm, req, ecert, w, kdfKey, i, t) && Issued(s, tm, req, ecert, w, kdfKey, j, u)
    ensures OwnerIndex(s, kdfKey, t.cert) != OwnerIndex(s, kdfKey, u.cert)
    ensures t.cert.notBefore == u.cert.notBefore && t.cert.notAfter == u.cert.notAfter
    ensures var period := t.cert.notAfter - t.cert.notBefore;
            && period <= tm.validityPeriod && (req.validityPeriod > 0 ==> period <= req.validityPeriod)
            && (period == tm.validityPeriod || (period == req.validityPeriod && req.validityPeriod > 0))
  {
    hide Generated, OwnerIndex, TCertIndex, Scalar;
    IndexReadsBack(s, tm, req, ecert, w, kdfKey, i, t);
    IndexReadsBack(s, tm, req, ecert, w, kdfKey, j, u);
    if TCertIndex(i, w.nonce) == TCertIndex(j, w.nonce) {
      IndexesDistinct(i, j, w.nonce);
    }
  }

  /**
   * End to end: for a request by the holder of `d`, whenever there is a batch, its key and certificates
   * alone give that holder a different index and the matching private key for each certificate.
   */
  method GetOwnedBatch<P(!new)>(s: Suite<P>, tm: Mgr, req: Request, commonName: Bytes, d: nat, w: World)
    returns (r: Outcome<Response<P>>, secrets: seq<nat>)
    requires LawfulSuite(s)
    ensures !r.Panic?
    ensures r.Ok? ==> |secrets| == |r.value.tcerts|
    ensures r.Ok? ==> forall i: nat :: i < |secrets| ==>
                && OwnerPrivateKey(s, r.value.key, r.value.tcerts[i].cert, d) == Ok(secrets[i])
                && s.baseMult(secrets[i]) == r.value.tcerts[i].cert.publicKey
    ensures r.Ok? ==> forall i: nat, j: nat :: i < j < |secrets| ==>
                OwnerIndex(s, r.value.key, r.value.tcerts[i].cert) != OwnerIndex(s, r.value.key, r.value.tcerts[j].cert)
  {
    hide Issued, OwnerPrivateKey, OwnerIndex, LawfulSuite;
    SuiteHasOrder(s);
    var ecert := ECert(Ecdsa(s.baseMult(d)), commonName);
    secrets := [];
    r := GetBatch(s, tm, req, ecert, w);
    if r.Ok? {
      var key, tcerts := r.value.key, r.value.tcerts;
      for n := 0 to |tcerts|
        invariant |secrets| == n
        invariant forall i: nat :: i < n ==>
                    && OwnerPrivateKey(s, key, tcerts[i].cert, d) == Ok(secrets[i])
                    && s.baseMult(secrets[i]) == tcerts[i].cert.publicKey
      {
        OwnerHoldsPrivateKey(s, tm, req, ecert, w, key, n, tcerts[n], d);
        secrets := secrets + [OwnerPrivateKey(s, key, tcerts[n].cert, d).value];
      }
      forall i: nat, j: nat | i < j < |tcerts|
        ensures OwnerIndex(s, key, tcerts[i].cert) != OwnerIndex(s, key, tcerts[j].cert)
      {
        BatchMembers(s, tm, req, ecert, w, key, i, tcerts[i], j, tcerts[j]);
      }
    }
  }

  lemma SuiteHasOrder<P(!new)>(s: Suite<P>)
    requires LawfulSuite(s)
    ensures s.order >= 2
  {
  }
}
