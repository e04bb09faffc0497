/** Unpadded base64 and the authorization token framed with it: util/util.go. */
module Token {
  import opened Common

  // ----- Base64: section 4 of RFC 4648, without padding as in its section 3.2 -----

  type sextet = x: int | 0 <= x < 64

  function Symbol(i: sextet): (b: byte) {
    if i < 26 then 65 + i else if i < 52 then 97 + (i - 26) else if i < 62 then 48 + (i - 52)
    else if i == 62 then 43 else 47
  }

  function Value(b: byte): (r: Option<sextet>) {
    if 65 <= b <= 90 then Some(b - 65) else if 97 <= b <= 122 then Some(b - 97 + 26)
    else if 48 <= b <= 57 then Some(b - 48 + 52) else if b == 43 then Some(62)
    else if b == 47 then Some(63) else None
  }

  const DOT: byte := '.' as int

  /** The decoder skips carriage returns and line feeds. */
  predicate IsNewline(b: byte) { b == 10 || b == 13 }

  /** The six-bit groups of a byte string, the last one filled with zero bits. */
  function Sextets(b: Bytes): (r: seq<sextet>) {
    if |b| == 0 then []
    else if |b| == 1 then [b[0] / 4, b[0] % 4 * 16]
    else if |b| == 2 then [b[0] / 4, b[0] % 4 * 16 + b[1] / 16, b[1] % 16 * 4]
    else [b[0] / 4, b[0] % 4 * 16 + b[1] / 16, b[1] % 16 * 4 + b[2] / 64, b[2] % 64] + Sextets(b[3..])
  }

  // The bytes that lie across neighbouring six-bit groups.
  function Byte0(a: int, b: int): (r: byte)
    requires 0 <= a < 64 && 0 <= b < 64
  {
    a * 4 + b / 16
  }

  function Byte1(b: int, c: int): (r: byte)
    requires 0 <= b < 64 && 0 <= c < 64
  {
    b % 16 * 16 + c / 4
  }

  function Byte2(c: int, d: int): (r: byte)
    requires 0 <= c < 64 && 0 <= d < 64
  {
    c % 4 * 64 + d
  }

  /** The bytes that six-bit groups hold; a single left-over group is an error, left-over bits are not. */
  function FromSextets(x: seq<sextet>): (r: Option<Bytes>) {
    if |x| == 0 then Some([])
    else if |x| == 1 then None
    else if |x| == 2 then Some([Byte0(x[0], x[1])])
    else if |x| == 3 then Some([Byte0(x[0], x[1]), Byte1(x[1], x[2])])
    else match FromSextets(x[4..])
         case None => None
         case Some(rest) =>
           Some([Byte0(x[0], x[1]), Byte1(x[1], x[2]), Byte2(x[2], x[3])] + rest)
  }

  function Symbols(x: seq<sextet>): (s: Bytes)
    ensures |s| == |x|
  {
    seq(|x|, i requires 0 <= i < |x| => Symbol(x[i]))
  }

  function Values(s: Bytes): (r: Option<seq<sextet>>) {
    if s == [] then Some([])
    else if IsNewline(s[0]) then Values(s[1..])
    else match (Value(s[0]), Values(s[1..]))
         case (Some(x), Some(rest)) => Some([x] + rest)
         case _ => None
  }

  function B64Encode(buf: Bytes): (s: Bytes) { Symbols(Sextets(buf)) }

  function B64Decode(s: Bytes): (r: Option<Bytes>) {
    match Values(s) case Some(x) => FromSextets(x) case None => None
  }

  lemma {:induction false} FromSextetsOfSextets(b: Bytes)
    ensures FromSextets(Sextets(b)) == Some(b)
    decreases |b|
  {
    if |b| >= 3 {
      FromSextetsOfSextets(b[3..]);
      var x := Sextets(b);
      assert x[4..] == Sextets(b[3..]);
      assert b == [b[0], b[1], b[2]] + b[3..];
    } else if |b| == 2 {
      assert b == [b[0], b[1]];
    } else if |b| == 1 {
      assert b == [b[0]];
    }
  }

  lemma {:induction false} ValuesOfSymbols(x: seq<sextet>)
    ensures Values(Symbols(x)) == Some(x)
  {
    if x != [] {
      ValuesOfSymbols(x[1..]);
      assert Symbols(x)[1..] == Symbols(x[1..]);
      assert x == [x[0]] + x[1..];
    }
  }

  lemma B64RoundTrip(buf: Bytes)
    ensures B64Decode(B64Encode(buf)) == Some(buf)
  {
    ValuesOfSymbols(Sextets(buf));
    FromSextetsOfSextets(buf);
  }

  lemma B64IsDotFree(buf: Bytes)
    ensures DOT !in B64Encode(buf)
  {
  }

  // ----- What the decoder accepts, and what it returns -----

  const ALPHABET: string := UPPER + LOWER + DIGITS + "+/"

  /** The symbols are those of table 1 of RFC 4648, in order. */
  lemma SymbolsInOrder(i: sextet)
    ensures |ALPHABET| == 64 && Symbol(i) == ALPHABET[i] as int
  {
    UpperInOrder(0);
    LowerInOrder(0);
    DigitsInOrder(0);
    if i < 26 {
      UpperInOrder(i);
    } else if i < 52 {
      LowerInOrder(i - 26);
    } else if i < 62 {
      DigitsInOrder(i - 52);
    }
  }

  predicate IsSymbol(b: byte) { exists i: sextet :: Symbol(i) == b }

  /** The input without carriage returns and line feeds. */
  function Stripped(s: Bytes): (t: Bytes) {
    if s == [] then [] else (if IsNewline(s[0]) then [] else [s[0]]) + Stripped(s[1..])
  }

  lemma ValueOfSymbol(b: byte)
    ensures Value(b).Some? <==> IsSymbol(b)
    ensures Value(b).Some? ==> Symbol(Value(b).value) == b
  {
    if Value(b).Some? {
      assert Symbol(Value(b).value) == b;
    }
  }

  lemma AllSymbols(b: byte, rest: Bytes)
    ensures (forall i :: 0 <= i < |[b] + rest| ==> IsSymbol(([b] + rest)[i])) <==>
            IsSymbol(b) && forall i :: 0 <= i < |rest| ==> IsSymbol(rest[i])
  {
    hide IsSymbol;
    var t := [b] + rest;
    assert t[0] == b && forall i :: 0 <= i < |rest| ==> t[i + 1] == rest[i];
  }

  lemma {:induction false} ValuesAccept(s: Bytes)
    ensures Values(s).Some? <==> forall i :: 0 <= i < |Stripped(s)| ==> IsSymbol(Stripped(s)[i])
    ensures Values(s).Some? ==> Symbols(Values(s).value) == Stripped(s)
  {
    if s != [] {
      hide IsSymbol, Symbol, Value;
      ValuesAccept(s[1..]);
      ValueOfSymbol(s[0]);
      var t, rest := Stripped(s), Stripped(s[1..]);
      if IsNewline(s[0]) {
        assert t == rest;
      } else {
        assert t == [s[0]] + rest;
        AllSymbols(s[0], rest);
        if Values(s).Some? {
          var x := Values(s[1..]).value;
          assert Symbols([Value(s[0]).value] + x) == [s[0]] + Symbols(x);
        }
      }
    }
  }

  /** The bits of the last of `n` six-bit groups that no byte takes up. */
  function Spare(n: nat): (m: nat) { if n % 4 == 2 then 16 else if n % 4 == 3 then 4 else 1 }

  lemma {:induction false} FromSextetsAccepts(x: seq<sextet>)
    ensures FromSextets(x).Some? <==> |x| % 4 != 1
  {
    if |x| >= 4 {
      FromSextetsAccepts(x[4..]);
    }
  }

  /** `y` is `x` with the spare bits of the last group cleared. */
  predicate Cleared(x: seq<sextet>, y: seq<sextet>) {
    && |y| == |x|
    && (forall i :: 0 <= i < |x| - 1 ==> y[i] == x[i])
    && (|x| > 0 ==> y[|x| - 1] == x[|x| - 1] - x[|x| - 1] % Spare(|x|))
  }

  lemma FourSextets(a: sextet, b: sextet, c: sextet, d: sextet)
    ensures Sextets([Byte0(a, b), Byte1(b, c), Byte2(c, d)]) == [a, b, c, d]
    ensures Sextets([Byte0(a, b), Byte1(b, c)]) == [a, b, c - c % 4]
    ensures Sextets([Byte0(a, b)]) == [a, b - b % 16]
  {
    BytesTakenApart(a, b, c, d);
    hide Byte0, Byte1, Byte2;
    var bytes := [Byte0(a, b), Byte1(b, c), Byte2(c, d)];
    assert bytes[3..] == [] && Sextets([]) == [];
  }

  lemma BytesTakenApart(a: sextet, b: sextet, c: sextet, d: sextet)
    ensures Byte0(a, b) / 4 == a && Byte0(a, b) % 4 * 16 == b - b % 16
    ensures Byte1(b, c) / 16 == b % 16 && Byte1(b, c) % 16 * 4 == c - c % 4
    ensures Byte2(c, d) / 64 == c % 4 && Byte2(c, d) % 64 == d
  {
  }

  lemma ClearedPrefix(first: seq<sextet>, x: seq<sextet>, y: seq<sextet>)
    requires |first| == 4 && Cleared(x, y)
    ensures Cleared(first + x, first + y)
  {
  }

  lemma {:induction false} SextetsOfFromSextets(x: seq<sextet>)
    requires FromSextets(x).Some?
    ensures Cleared(x, Sextets(FromSextets(x).value))
  {
    if |x| >= 4 {
      hide Byte0, Byte1, Byte2, Cleared, Sextets;
      SextetsOfFromSextets(x[4..]);
      FourSextets(x[0], x[1], x[2], x[3]);
      var first, rest := [Byte0(x[0], x[1]), Byte1(x[1], x[2]), Byte2(x[2], x[3])], FromSextets(x[4..]).value;
      SextetsSplit(first, rest);
      ClearedPrefix([x[0], x[1], x[2], x[3]], x[4..], Sextets(rest));
      assert x == [x[0], x[1], x[2], x[3]] + x[4..];
    } else if |x| == 3 {
      hide Byte0, Byte1, Byte2, Sextets;
      FourSextets(x[0], x[1], x[2], x[2]);
    } else if |x| == 2 {
      hide Byte0, Byte1, Byte2, Sextets;
      FourSextets(x[0], x[1], x[1], x[1]);
    }
  }

  lemma SextetsSplit(first: Bytes, rest: Bytes)
    requires |first| == 3
    ensures Sextets(first + rest) == Sextets(first) + Sextets(rest)
  {
    assert (first + rest)[3..] == rest && first[3..] == [];
  }

  /**
   * For any bytes at all: they decode if and only if, newlines apart, they are symbols of the alphabet and not
   * one more than a multiple of four; and what they decode to encodes to those symbols again, save that the
   * bits of the last symbol that no byte takes up come back as zeros.
   */
  lemma B64DecodeAcceptsExactly(s: Bytes)
    ensures B64Decode(s).Some? <==>
            |Stripped(s)| % 4 != 1 && forall i :: 0 <= i < |Stripped(s)| ==> IsSymbol(Stripped(s)[i])
    ensures B64Decode(s).Some? ==>
              exists x, y :: Symbols(x) == Stripped(s) && Symbols(y) == B64Encode(B64Decode(s).value) && Cleared(x, y)
  {
    hide Symbols, FromSextets, Sextets, Cleared, IsSymbol;
    ValuesAccept(s);
    if Values(s).Some? {
      var x := Values(s).value;
      FromSextetsAccepts(x);
      assert |Symbols(x)| == |x|;
      if FromSextets(x).Some? {
        SextetsOfFromSextets(x);
      }
    }
  }

  // ----- Foreign cryptography and parsing -----

  datatype PublicKey = Rsa(point: Bytes) | Ecdsa(point: Bytes) | Other
  datatype Certificate = Certificate(publicKey: PublicKey, commonName: Bytes)
  datatype Signature = Signature(r: int, s: int)

  /** `seed` stands for the randomness of an ECDSA signature. */
  datatype Pki = Pki(
    pemDecode: Bytes -> Option<Bytes>,
    parseCertificate: Bytes -> Option<Certificate>,
    parseRsaKey: Bytes -> Option<Bytes>,
    parseEcKey: Bytes -> Option<Bytes>,
    hash: Bytes -> Bytes,
    rsaSign: (Bytes, Bytes) -> Option<Bytes>,
    rsaVerify: (Bytes, Bytes, Bytes) -> bool,
    ecSign: (Bytes, Bytes, Bytes) -> Option<Signature>,
    ecVerify: (Bytes, Bytes, Signature) -> bool,
    marshal: Signature -> Bytes,
    unmarshal: Bytes -> Option<Signature>)

  /** What the certificate bytes parse to. */
  function CertificateOf(pki: Pki, cert: Bytes): (r: Option<Certificate>) {
    match pki.pemDecode(cert) case Some(block) => pki.parseCertificate(block) case None => None
  }

  function RsaKeyOf(pki: Pki, key: Bytes): (r: Option<Bytes>) {
    match pki.pemDecode(key) case Some(block) => pki.parseRsaKey(block) case None => None
  }

  function EcKeyOf(pki: Pki, key: Bytes): (r: Option<Bytes>) {
    match pki.pemDecode(key) case Some(block) => pki.parseEcKey(block) case None => None
  }

  /** What `key` signs, the certificate's public key verifies; ASN.1 signatures read back. */
  ghost predicate Matching(pki: Pki, key: Bytes, c: Certificate) {
    && (forall sig :: pki.unmarshal(pki.marshal(sig)) == Some(sig))
    && (c.publicKey.Rsa? ==> forall k, h, sig ::
          RsaKeyOf(pki, key) == Some(k) && pki.rsaSign(k, h) == Some(sig) ==>
            pki.rsaVerify(c.publicKey.point, h, sig))
    && (c.publicKey.Ecdsa? ==> forall k, h, seed, sig ::
          EcKeyOf(pki, key) == Some(k) && pki.ecSign(k, h, seed) == Some(sig) ==>
            pki.ecVerify(c.publicKey.point, h, sig))
  }

  // ----- Tokens -----

  /** The string that is hashed and signed. */
  function SignedString(body: Bytes, b64cert: Bytes): (s: Bytes) { B64Encode(body) + [DOT] + b64cert }

  function GenRSAToken(pki: Pki, cert: Bytes, key: Bytes, body: Bytes): (r: Outcome<Bytes>) {
    match RsaKeyOf(pki, key)
    case None => Err("RSA key")
    case Some(priv) =>
      match pki.rsaSign(priv, pki.hash(SignedString(body, B64Encode(cert))))
      case None => Err("rsa.SignPKCS1v15")
      case Some(sig) => Ok(B64Encode(cert) + [DOT] + B64Encode(sig))
  }

  function GenECDSAToken(pki: Pki, cert: Bytes, key: Bytes, body: Bytes, seed: Bytes): (r: Outcome<Bytes>) {
    match EcKeyOf(pki, key)
    case None => Err("ECDSA key")
    case Some(priv) =>
      match pki.ecSign(priv, pki.hash(SignedString(body, B64Encode(cert))), seed)
      case None => Err("ecdsa.Sign")
      case Some(sig) => Ok(B64Encode(cert) + [DOT] + B64Encode(pki.marshal(sig)))
  }

  /** For a key of another kind the result is the empty token and no error. */
  function CreateToken(pki: Pki, cert: Bytes, key: Bytes, body: Bytes, seed: Bytes): (r: Outcome<Bytes>) {
    match CertificateOf(pki, cert)
    case None => Err("certificate")
    case Some(c) =>
      match c.publicKey
      case Rsa(_) => GenRSAToken(pki, cert, key, body)
      case Ecdsa(_) => GenECDSAToken(pki, cert, key, body, seed)
      case Other => Ok([])
  }

  function DecodeToken(pki: Pki, token: Bytes): (r: Outcome<(Certificate, Bytes, Bytes)>) {
    if token == [] then Err("empty")
    else
      var parts := Split(token, DOT);
      if |parts| != 2 then Err("expecting 2 parts")
      else match B64Decode(parts[0])
           case None => Err("base64")
           case Some(decoded) =>
             match CertificateOf(pki, decoded)
             case None => Err("certificate")
             case Some(c) => Ok((c, parts[0], parts[1]))
  }

  /** The check that the kind of public key calls for. */
  predicate SignatureAccepted(pki: Pki, c: Certificate, h: Bytes, sig: Bytes) {
    match c.publicKey
    case Rsa(point) => pki.rsaVerify(point, h, sig)
    case Ecdsa(point) => pki.unmarshal(sig).Some? && pki.ecVerify(point, h, pki.unmarshal(sig).value)
    case Other => true
  }

  function VerifyToken(pki: Pki, token: Bytes, body: Bytes): (r: Outcome<Certificate>) {
    match DecodeToken(pki, token)
    case Err(e) => Err(e)
    case Panic => Panic
    case Ok((c, b64cert, b64sig)) =>
      match B64Decode(b64sig)
      case None => Err("base64 signature")
      case Some(sig) =>
        if SignatureAccepted(pki, c, pki.hash(SignedString(body, b64cert)), sig) then Ok(c) else Err("signature")
  }

  lemma SplitToken(a: Bytes, b: Bytes)
    requires DOT !in a && DOT !in b
    ensures Split(a + [DOT] + b, DOT) == [a, b]
  {
    SplitConcat(a, b, DOT);
    SplitSepFree(a, DOT);
    SplitSepFree(b, DOT);
  }

  /**
   * What acceptance means, for any two dot-free parts at all: the first decodes and parses to the certificate
   * returned; the second decodes to a signature that the certificate's key verifies, over the hash of the
   * encoded body, a dot and the first part. A key of another kind verifies anything.
   */
  lemma VerifyAcceptsExactly(pki: Pki, a: Bytes, b: Bytes, body: Bytes, c: Certificate)
    requires DOT !in a && DOT !in b
    ensures VerifyToken(pki, a + [DOT] + b, body) == Ok(c) <==>
            && B64Decode(a).Some? && B64Decode(b).Some?
            && pki.pemDecode(B64Decode(a).value).Some?
            && pki.parseCertificate(pki.pemDecode(B64Decode(a).value).value) == Some(c)
            && (var h, sig := pki.hash(B64Encode(body) + [DOT] + a), B64Decode(b).value;
                && (c.publicKey.Rsa? ==> pki.rsaVerify(c.publicKey.point, h, sig))
                && (c.publicKey.Ecdsa? ==>
                      pki.unmarshal(sig).Some? && pki.ecVerify(c.publicKey.point, h, pki.unmarshal(sig).value)))
  {
    hide B64Encode, B64Decode, Split;
    SplitToken(a, b);
  }

  /** Whatever is accepted has two dot-free parts. */
  lemma AcceptedTokenHasTwoParts(pki: Pki, token: Bytes, body: Bytes)
    requires VerifyToken(pki, token, body).Ok?
    ensures exists a, b :: token == a + [DOT] + b && DOT !in a && DOT !in b
  {
    hide B64Encode, B64Decode, SignatureAccepted, SignedString;
    var parts := Split(token, DOT);
    SplitIsSepFree(token, DOT);
    JoinOfSplit(token, DOT);
    assert parts[1..] == [parts[1]];
    assert token == parts[0] + [DOT] + parts[1];
  }

  /** A framed certificate and signature: accepted exactly when the certificate's key verifies the signature. */
  lemma VerifyFramed(pki: Pki, cert: Bytes, sig: Bytes, body: Bytes, c: Certificate)
    requires CertificateOf(pki, cert) == Some(c)
    ensures var token := B64Encode(cert) + [DOT] + B64Encode(sig);
            && |Split(token, DOT)| == 2
            && (VerifyToken(pki, token, body) == Ok(c) <==>
                var h := pki.hash(B64Encode(body) + [DOT] + B64Encode(cert));
                && (c.publicKey.Rsa? ==> pki.rsaVerify(c.publicKey.point, h, sig))
                && (c.publicKey.Ecdsa? ==>
                      pki.unmarshal(sig).Some? && pki.ecVerify(c.publicKey.point, h, pki.unmarshal(sig).value)))
  {
    hide B64Encode, B64Decode, VerifyToken, Split;
    B64IsDotFree(cert);
    B64IsDotFree(sig);
    B64RoundTrip(cert);
    B64RoundTrip(sig);
    SplitToken(B64Encode(cert), B64Encode(sig));
    VerifyAcceptsExactly(pki, B64Encode(cert), B64Encode(sig), body, c);
  }

  /** The key parses as one of the certificate's kind, and signing with it succeeds. */
  predicate CanSign(pki: Pki, key: Bytes, c: Certificate, h: Bytes, seed: Bytes) {
    match c.publicKey
    case Rsa(_) => RsaKeyOf(pki, key).Some? && pki.rsaSign(RsaKeyOf(pki, key).value, h).Some?
    case Ecdsa(_) => EcKeyOf(pki, key).Some? && pki.ecSign(EcKeyOf(pki, key).value, h, seed).Some?
    case Other => true
  }

  /**
   * For every RSA or ECDSA certificate, matching key and body: a token is created exactly when the key
   * can sign, and then it splits into exactly two parts and verifies, for the same body, to that certificate.
   */
  lemma TokenRoundTrip(pki: Pki, cert: Bytes, key: Bytes, body: Bytes, seed: Bytes, c: Certificate)
    requires CertificateOf(pki, cert) == Some(c) && !c.publicKey.Other? && Matching(pki, key, c)
    ensures CreateToken(pki, cert, key, body, seed).Ok? <==>
            CanSign(pki, key, c, pki.hash(SignedString(body, B64Encode(cert))), seed)
    ensures CreateToken(pki, cert, key, body, seed).Ok? ==>
              var token := CreateToken(pki, cert, key, body, seed).value;
              |Split(token, DOT)| == 2 && VerifyToken(pki, token, body) == Ok(c)
  {
    hide B64Encode, VerifyToken, Split;
    var h := pki.hash(SignedString(body, B64Encode(cert)));
    if CanSign(pki, key, c, h, seed) {
      if c.publicKey.Rsa? {
        var sig := pki.rsaSign(RsaKeyOf(pki, key).value, h).value;
        VerifyFramed(pki, cert, sig, body, c);
      } else {
        var sig := pki.ecSign(EcKeyOf(pki, key).value, h, seed).value;
        VerifyFramed(pki, cert, pki.marshal(sig), body, c);
      }
    }
  }

  /** The empty token that other kinds of key produce never verifies. */
  lemma OtherKeysGiveNoToken(pki: Pki, cert: Bytes, key: Bytes, body: Bytes, seed: Bytes, body': Bytes)
    requires CertificateOf(pki, cert).Some? && CertificateOf(pki, cert).value.publicKey.Other?
    ensures CreateToken(pki, cert, key, body, seed) == Ok([])
    ensures VerifyToken(pki, [], body').Err?
  {
  }

  /** No two pairs of body and certificate are signed as the same string. */
  lemma SignedStringInjective(body: Bytes, cert: Bytes, body': Bytes, cert': Bytes)
    requires SignedString(body, B64Encode(cert)) == SignedString(body', B64Encode(cert'))
    ensures body == body' && cert == cert'
  {
    hide B64Encode, B64Decode;
    B64IsDotFree(body);
    B64IsDotFree(body');
    B64IsDotFree(cert);
    B64IsDotFree(cert');
    SplitToken(B64Encode(body), B64Encode(cert));
    SplitToken(B64Encode(body'), B64Encode(cert'));
    B64RoundTrip(body);
    B64RoundTrip(body');
    B64RoundTrip(cert);
    B64RoundTrip(cert');
  }
}
