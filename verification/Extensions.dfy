/** The extensions of one transaction certificate: lib/tcert/tcert.go, generateExtensions. */
module Extensions {
  import opened Common
  import opened Cbc
  import opened AttrHeader

  /** A SHA-384 based HMAC yields 48 bytes. */
  type Digest = b: Bytes | |b| == 48 witness seq(48, _ => 0)
  type Hmac = (Bytes, Bytes) -> Digest

  /** An object identifier; all those used here share the first six arcs and differ in the last. */
  type Oid = seq<nat>

  function OidOf(arc: nat): (r: Oid) { [1, 2, 3, 4, 5, 6, arc] }

  const TCERT_INDEX: Oid := [1, 2, 3, 4, 5, 6, 7]
  const ENROLLMENT_ID: Oid := [1, 2, 3, 4, 5, 6, 8]
  const ATTRIBUTES_HEADER: Oid := [1, 2, 3, 4, 5, 6, 9]

  const PADDING: Bytes := [255, 255, 255, 255, 255, 255, 255, 255, 255, 255, 255, 255, 255, 255, 255, 255]

  // The key under which the enrollment key is handed out, "enrollmentId", and
  // the label it is derived from, "enrollmentID": they differ in the last letter.
  const ENROLLMENT_NAME: Bytes := [101, 110, 114, 111, 108, 108, 109, 101, 110, 116, 73, 100]
  const ENROLLMENT_LABEL: Bytes := [101, 110, 114, 111, 108, 108, 109, 101, 110, 116, 73, 68]

  datatype Attribute = Attribute(name: Bytes, value: Bytes)
  datatype Extension = Extension(id: Oid, critical: bool, value: Bytes)
  datatype Request = Request(
    count: nat, attrs: seq<Attribute>, encryptAttrs: bool, validityPeriod: int, preKey: Bytes)

  /** What the generator works with: its crypto, the request, the serial number and the owner's name. */
  datatype Job = Job(aes: Aes, hmac: Hmac, req: Request, serial: nat, enrollmentId: Bytes) {
    function Size(): (n: nat) { |req.attrs| }

    /** The key all attribute keys of this certificate derive from. */
    function PreK0(): (k: Digest) { hmac(req.preKey, BigEndian(serial)) }

    function EnrollmentKey(): (k: Bytes)
      ensures ValidKey(k)
    {
      hmac(PreK0(), ENROLLMENT_LABEL)[..32]
    }

    function AttributeKey(name: Bytes): (k: Bytes)
      ensures ValidKey(k)
    {
      hmac(PreK0(), name)[..32]
    }
  }

  /** The random blocks drawn for the enrollment id and for each encrypted attribute. */
  datatype Vectors = Vectors(enrollment: Option<Block>, attr: nat -> Option<Block>)

  predicate Drawn(job: Job, iv: Vectors, n: nat) {
    iv.enrollment.Some? && (job.req.encryptAttrs ==> forall i: nat :: i < n ==> iv.attr(i).Some?)
  }

  /** The content of the extension of attribute `i`. */
  function Stored(job: Job, iv: Vectors, i: nat): (v: Outcome<Bytes>)
    requires i < |job.req.attrs|
  {
    var a := job.req.attrs[i];
    if job.req.encryptAttrs then Seal(job.aes, job.AttributeKey(a.name), iv.attr(i), a.value + PADDING)
    else Ok(a.value)
  }

  function StoredEnrollment(job: Job, iv: Vectors): (v: Outcome<Bytes>) {
    Seal(job.aes, job.EnrollmentKey(), iv.enrollment, job.enrollmentId + PADDING)
  }

  /** Each name's last position among the first `n` attributes, counted from 1. */
  function Positions(attrs: seq<Attribute>, n: nat): (m: map<Bytes, nat>)
    requires n <= |attrs|
  {
    if n == 0 then map[] else Positions(attrs, n - 1)[attrs[n - 1].name := n]
  }

  /** The keys handed out after the first `n` attributes. */
  function Keys(job: Job, n: nat): (m: map<Bytes, Bytes>)
    requires n <= |job.req.attrs|
  {
    if n == 0 then map[ENROLLMENT_NAME := job.EnrollmentKey()]
    else if job.req.encryptAttrs then
      var name := job.req.attrs[n - 1].name;
      Keys(job, n - 1)[name := job.AttributeKey(name)]
    else Keys(job, n - 1)
  }

  /** The identifiers in order: attributes from arc 10 on, then arcs 7, 8 and perhaps 9. */
  function ArcAt(n: nat, i: nat): (arc: nat) { if i < n then 10 + i else 7 + (i - n) }

  predicate Numbered(exts: seq<Extension>, n: nat) {
    && |exts| == n + (if n > 0 then 3 else 2)
    && forall i :: 0 <= i < |exts| ==> exts[i].id == OidOf(ArcAt(n, i)) && (exts[i].critical <==> i == n)
  }

  /** `exts` and `ks` are what the generator returns for the encrypted index `tidx`. */
  ghost predicate Generated(job: Job, iv: Vectors, tidx: Bytes, exts: seq<Extension>, ks: map<Bytes, Bytes>) {
    && Numbered(exts, job.Size())
    && (forall i :: 0 <= i < job.Size() ==> Stored(job, iv, i) == Ok(exts[i].value))
    && exts[job.Size()].value == tidx
    && StoredEnrollment(job, iv) == Ok(exts[job.Size() + 1].value)
    && (job.Size() > 0 ==> IsHeaderOf(exts[job.Size() + 2].value, Positions(job.req.attrs, job.Size())))
    && ks == Keys(job, job.Size())
  }

  method GenerateExtensions(job: Job, iv: Vectors, tidx: Bytes)
    returns (r: Outcome<(seq<Extension>, map<Bytes, Bytes>)>)
    ensures !r.Panic?
    ensures r.Ok? <==> Drawn(job, iv, |job.req.attrs|)
    ensures r.Ok? ==> Generated(job, iv, tidx, r.value.0, r.value.1)
  {
    hide Encrypted, IsHeaderOf, BigEndian, Pad;
    var attrs := job.req.attrs;
    var extensions := seq(|attrs|, _ => Extension([], false, []));
    var preK0 := job.hmac(job.req.preKey, BigEndian(job.serial));
    var enrollmentIDKey := job.hmac(preK0, ENROLLMENT_LABEL)[..32];
    var encEnrollmentID := CBCPKCS7Encrypt(job.aes, enrollmentIDKey, iv.enrollment, job.enrollmentId + PADDING);
    if !encEnrollmentID.Ok? { return Err("enrollment id"); }
    var ks := map[ENROLLMENT_NAME := enrollmentIDKey];
    var attributeIdentifierIndex := 9;
    var count := 0;
    var attributesHeader: map<Bytes, nat> := map[];
    for i := 0 to |attrs|
      invariant count == i && |extensions| == |attrs|
      invariant Drawn(job, iv, i)
      invariant attributesHeader == Positions(attrs, i) && ks == Keys(job, i)
      invariant forall j :: 0 <= j < i ==> extensions[j].id == OidOf(10 + j) && !extensions[j].critical
      invariant forall j :: 0 <= j < i ==> Stored(job, iv, j) == Ok(extensions[j].value)
    {
      count := count + 1;
      var name, value := attrs[i].name, attrs[i].value;
      attributesHeader := attributesHeader[name := count];
      if job.req.encryptAttrs {
        var attributeKey := job.hmac(preK0, name)[..32];
        var sealed := CBCPKCS7Encrypt(job.aes, attributeKey, iv.attr(i), value + PADDING);
        if !sealed.Ok? { return Err("attribute"); }
        value := sealed.value;
        ks := ks[name := attributeKey];
      }
      var identifier := [1, 2, 3, 4, 5, 6, attributeIdentifierIndex + count];
      extensions := extensions[count - 1 := Extension(identifier, false, value)];
    }
    extensions := extensions + [Extension(TCERT_INDEX, true, tidx)];
    extensions := extensions + [Extension(ENROLLMENT_ID, false, encEnrollmentID.value)];
    if |attrs| > 0 {
      var header := BuildAttributesHeader(attributesHeader);
      extensions := extensions + [Extension(ATTRIBUTES_HEADER, false, header)];
    }
    return Ok((extensions, ks));
  }

  // ----- Reading the extensions -----

  function Find(exts: seq<Extension>, id: Oid): (r: Option<Bytes>) {
    if exts == [] then None else if exts[0].id == id then Some(exts[0].value) else Find(exts[1..], id)
  }

  /** The text of a value that was extended by the sixteen padding bytes. */
  function Unsuffixed(r: Outcome<Bytes>): (v: Outcome<Bytes>) {
    match r
    case Ok(m) => if |m| >= 16 && m[|m| - 16..] == PADDING then Ok(m[..|m| - 16]) else Err("padding")
    case Err(e) => Err(e)
    case Panic => Panic
  }

  function ReadAttribute(aes: Aes, encrypted: bool, exts: seq<Extension>, ks: map<Bytes, Bytes>, name: Bytes)
    : (r: Outcome<Bytes>)
  {
    match Find(exts, ATTRIBUTES_HEADER)
    case None => Err("no attributes")
    case Some(header) =>
      var positions := ParseHeader(header);
      if name !in positions then Err("no such attribute")
      else match Find(exts, OidOf(9 + positions[name]))
           case None => Err("no extension")
           case Some(value) =>
             if !encrypted then Ok(value)
             else if name !in ks then Err("no key")
             else Unsuffixed(Open(aes, ks[name], value))
  }

  function ReadEnrollmentId(aes: Aes, exts: seq<Extension>, ks: map<Bytes, Bytes>): (r: Outcome<Bytes>) {
    match Find(exts, ENROLLMENT_ID)
    case None => Err("no enrollment id")
    case Some(value) =>
      if ENROLLMENT_NAME !in ks then Err("no key") else Unsuffixed(Open(aes, ks[ENROLLMENT_NAME], value))
  }

  lemma OidsDistinct(exts: seq<Extension>, n: nat)
    requires Numbered(exts, n)
    ensures forall i, j :: 0 <= i < j < |exts| ==> exts[i].id != exts[j].id
  {
    forall i, j | 0 <= i < j < |exts|
      ensures exts[i].id != exts[j].id
    {
      assert exts[i].id[6] == ArcAt(n, i) && exts[j].id[6] == ArcAt(n, j);
    }
  }

  lemma {:induction false} FindDistinct(exts: seq<Extension>, k: nat)
    requires k < |exts|
    requires forall i, j :: 0 <= i < j < |exts| ==> exts[i].id != exts[j].id
    ensures Find(exts, exts[k].id) == Some(exts[k].value)
  {
    if k > 0 {
      assert exts[0].id != exts[k].id;
      assert exts[1..][k - 1] == exts[k];
      FindDistinct(exts[1..], k - 1);
    }
  }

  lemma FindNumbered(exts: seq<Extension>, n: nat, k: nat)
    requires Numbered(exts, n) && k < |exts|
    ensures Find(exts, OidOf(ArcAt(n, k))) == Some(exts[k].value)
  {
    OidsDistinct(exts, n);
    FindDistinct(exts, k);
  }

  lemma {:induction false} FindAbsent(exts: seq<Extension>, id: Oid)
    requires forall i :: 0 <= i < |exts| ==> exts[i].id != id
    ensures Find(exts, id) == None
  {
    if exts != [] {
      FindAbsent(exts[1..], id);
    }
  }

  lemma OpenSuffixed(aes: Aes, key: Bytes, iv: Option<Block>, m: Bytes, sealed: Bytes)
    requires Lawful(aes) && ValidKey(key)
    requires Seal(aes, key, iv, m + PADDING) == Ok(sealed)
    ensures Unsuffixed(Open(aes, key, sealed)) == Ok(m)
  {
    OpenSeal(aes, key, iv.value, m + PADDING);
    assert (m + PADDING)[..|m|] == m && (m + PADDING)[|m|..] == PADDING;
  }

  /** The header maps a name to its last position, and only names that occur. */
  lemma {:induction false} LastPosition(attrs: seq<Attribute>, n: nat, name: Bytes)
    requires n <= |attrs|
    ensures name in Positions(attrs, n) <==> exists i :: 0 <= i < n && attrs[i].name == name
    ensures name in Positions(attrs, n) ==>
              var p := Positions(attrs, n)[name];
              && 1 <= p <= n && attrs[p - 1].name == name
              && forall i :: p <= i < n ==> attrs[i].name != name
  {
    if n > 0 {
      LastPosition(attrs, n - 1, name);
    }
  }

  lemma {:induction false} PositionedNames(attrs: seq<Attribute>, n: nat)
    requires n <= |attrs|
    requires forall i :: 0 <= i < n ==> HASH !in attrs[i].name
    ensures forall k :: k in Positions(attrs, n) ==> HASH !in k
  {
    if n > 0 {
      PositionedNames(attrs, n - 1);
    }
  }

  lemma {:induction false} KeyOfAttribute(job: Job, n: nat, name: Bytes)
    requires n <= |job.req.attrs| && job.req.encryptAttrs
    requires exists i :: 0 <= i < n && job.req.attrs[i].name == name
    ensures name in Keys(job, n) && Keys(job, n)[name] == job.AttributeKey(name)
  {
    if job.req.attrs[n - 1].name != name {
      KeyOfAttribute(job, n - 1, name);
    }
  }

  lemma {:induction false} KeyOfEnrollment(job: Job, n: nat)
    requires n <= |job.req.attrs|
    ensures ENROLLMENT_NAME in Keys(job, n)
    ensures Keys(job, n)[ENROLLMENT_NAME] ==
            if job.req.encryptAttrs && exists i :: 0 <= i < n && job.req.attrs[i].name == ENROLLMENT_NAME
            then job.AttributeKey(ENROLLMENT_NAME) else job.EnrollmentKey()
  {
    if n > 0 {
      KeyOfEnrollment(job, n - 1);
    }
  }

  /** `p` is where `name` occurs last. */
  predicate IsLast(attrs: seq<Attribute>, p: int, name: Bytes) {
    && 0 <= p < |attrs| && attrs[p].name == name
    && forall i :: p < i < |attrs| ==> attrs[i].name != name
  }

  lemma StoredReadsBack(job: Job, iv: Vectors, i: nat, value: Bytes)
    requires Lawful(job.aes) && i < job.Size() && Stored(job, iv, i) == Ok(value)
    ensures !job.req.encryptAttrs ==> value == job.req.attrs[i].value
    ensures job.req.encryptAttrs ==>
              Unsuffixed(Open(job.aes, job.AttributeKey(job.req.attrs[i].name), value)) == Ok(job.req.attrs[i].value)
  {
    hide Encrypted, Decrypted, Unsuffixed;
    if job.req.encryptAttrs {
      var a := job.req.attrs[i];
      OpenSuffixed(job.aes, job.AttributeKey(a.name), iv.attr(i), a.value, value);
    }
  }

  /** The header found in the certificate is read as the positions of the names. */
  lemma HeaderReadsBack(job: Job, iv: Vectors, tidx: Bytes, exts: seq<Extension>, ks: map<Bytes, Bytes>)
    requires Generated(job, iv, tidx, exts, ks) && job.Size() > 0
    requires forall i :: 0 <= i < job.Size() ==> HASH !in job.req.attrs[i].name
    ensures Find(exts, ATTRIBUTES_HEADER).Some?
    ensures ParseHeader(Find(exts, ATTRIBUTES_HEADER).value) == Positions(job.req.attrs, job.Size())
  {
    hide Stored, StoredEnrollment, IsHeaderOf, ParseHeader;
    var n := job.Size();
    FindNumbered(exts, n, n + 2);
    PositionedNames(job.req.attrs, n);
    HeaderOfHashFreeNames(exts[n + 2].value, Positions(job.req.attrs, n));
  }

  /**
   * Reading any attribute name back gives the value of the last attribute of that name,
   * in the clear or encrypted; a name that was not asked for is not found.
   */
  lemma AttributesReadBack(
      job: Job, iv: Vectors, tidx: Bytes, exts: seq<Extension>, ks: map<Bytes, Bytes>, name: Bytes)
    requires Lawful(job.aes)
    requires Generated(job, iv, tidx, exts, ks)
    requires forall i :: 0 <= i < job.Size() ==> HASH !in job.req.attrs[i].name
    ensures forall p :: IsLast(job.req.attrs, p, name) ==>
              ReadAttribute(job.aes, job.req.encryptAttrs, exts, ks, name) == Ok(job.req.attrs[p].value)
    ensures (forall i :: 0 <= i < job.Size() ==> job.req.attrs[i].name != name) ==>
              ReadAttribute(job.aes, job.req.encryptAttrs, exts, ks, name).Err?
  {
    hide Open, Unsuffixed, IsHeaderOf, ParseHeader, StoredEnrollment;
    var n := job.Size();
    if n == 0 {
      assert forall i :: 0 <= i < |exts| ==> exts[i].id[6] == 7 + i;
      FindAbsent(exts, ATTRIBUTES_HEADER);
    } else {
      HeaderReadsBack(job, iv, tidx, exts, ks);
      LastPosition(job.req.attrs, n, name);
      if p :| IsLast(job.req.attrs, p, name) {
        assert Positions(job.req.attrs, n)[name] == p + 1;
        FindNumbered(exts, n, p);
        StoredReadsBack(job, iv, p, exts[p].value);
        if job.req.encryptAttrs {
          KeyOfAttribute(job, n, name);
        }
      }
    }
  }

  /**
   * The enrollment id reads back unless an encrypted attribute is itself named "enrollmentId":
   * that attribute's key then replaces the enrollment key among the keys handed out.
   */
  lemma EnrollmentIdReadsBack(job: Job, iv: Vectors, tidx: Bytes, exts: seq<Extension>, ks: map<Bytes, Bytes>)
    requires Lawful(job.aes)
    requires Generated(job, iv, tidx, exts, ks)
    ensures (job.req.encryptAttrs ==> forall i :: 0 <= i < |job.req.attrs| ==> job.req.attrs[i].name != ENROLLMENT_NAME)
            ==> ReadEnrollmentId(job.aes, exts, ks) == Ok(job.enrollmentId)
    ensures ENROLLMENT_NAME in ks
    ensures ks[ENROLLMENT_NAME] == job.EnrollmentKey() <==>
            (job.req.encryptAttrs && exists i :: 0 <= i < |job.req.attrs| && job.req.attrs[i].name == ENROLLMENT_NAME)
            ==> job.AttributeKey(ENROLLMENT_NAME) == job.EnrollmentKey()
  {
    var n := |job.req.attrs|;
    KeyOfEnrollment(job, n);
    hide Encrypted, Decrypted;
    FindNumbered(exts, n, n + 1);
    OpenSuffixed(job.aes, job.EnrollmentKey(), iv.enrollment, job.enrollmentId, exts[n + 1].value);
  }

  // ----- The keys handed out -----

  lemma LabelsInLetters()
    ensures ENROLLMENT_LABEL == Ascii("enrollmentID") && ENROLLMENT_NAME == Ascii("enrollmentId")
  {
  }

  /**
   * Every key handed out is the first half of a hash of the name, keyed by the hash of the serial number,
   * keyed by the request's key: `be` is the serial number's shortest big-endian form.
   */
  lemma HandedOutKeys(job: Job, iv: Vectors, tidx: Bytes, exts: seq<Extension>, ks: map<Bytes, Bytes>, be: Bytes)
    requires Generated(job, iv, tidx, exts, ks)
    requires Positional(be) == job.serial && (be != [] ==> be[0] != 0)
    ensures job.req.encryptAttrs ==> forall i :: 0 <= i < |job.req.attrs| ==>
              var name := job.req.attrs[i].name;
              name in ks && ks[name] == job.hmac(job.hmac(job.req.preKey, be), name)[..32]
    ensures (job.req.encryptAttrs ==> forall i :: 0 <= i < |job.req.attrs| ==> job.req.attrs[i].name != ENROLLMENT_NAME)
            ==> ENROLLMENT_NAME in ks
                && ks[ENROLLMENT_NAME] == job.hmac(job.hmac(job.req.preKey, be), Ascii("enrollmentID"))[..32]
  {
    hide Numbered, Stored, StoredEnrollment, IsHeaderOf, Positions, Keys, Ascii, Positional, FromBigEndian, BigEndian;
    LabelsInLetters();
    FromBigEndianIsPositional(be);
    BigEndianOfBytes(be);
    var n := job.Size();
    KeyOfEnrollment(job, n);
    if job.req.encryptAttrs {
      forall i | 0 <= i < n
        ensures var name := job.req.attrs[i].name;
                name in ks && ks[name] == job.hmac(job.hmac(job.req.preKey, be), name)[..32]
      {
        KeyOfAttribute(job, n, job.req.attrs[i].name);
      }
    }
  }

  predicate Occurs(job: Job, name: Bytes) {
    exists i :: 0 <= i < |job.req.attrs| && job.req.attrs[i].name == name
  }

  function Fill(b: byte): (d: Digest) { seq(48, _ => b) }

  /** A keyed hash that tells one message from all others. */
  function Telling(message: Bytes): (h: Hmac) { (key, m) => if m == message then Fill(1) else Fill(0) }

  /** Keys are kept apart by name: for any two names, under some hash, one certificate's keys for them differ. */
  lemma NamesGiveDifferentKeys(
      job: Job, iv: Vectors, tidx: Bytes, exts: seq<Extension>, ks: map<Bytes, Bytes>, a: Bytes, b: Bytes)
    requires a != b && job.hmac == Telling(a) && job.req.encryptAttrs && Occurs(job, a) && Occurs(job, b)
    requires Generated(job, iv, tidx, exts, ks)
    ensures a in ks && b in ks && ks[a] != ks[b]
  {
    hide Numbered, Stored, StoredEnrollment, IsHeaderOf, Positions, Keys;
    KeyOfAttribute(job, job.Size(), a);
    KeyOfAttribute(job, job.Size(), b);
    assert job.AttributeKey(a)[0] == 1 && job.AttributeKey(b)[0] == 0;
  }

  /** A byte that `b` does not start with. */
  function Unlike(b: Bytes, n: byte): (r: byte)
    requires 1 <= n < 256
    ensures b != [] ==> r != b[0]
  {
    if b == [] then n else (b[0] + n) % 256
  }

  /** A keyed hash that tells one first message under `preKey` from all others, and hands that on. */
  function Tracing(preKey: Bytes, message: Bytes): (h: Hmac) {
    var one, two := Fill(Unlike(preKey, 1)), Fill(Unlike(preKey, 2));
    (key, m) => if (key == preKey && m == message) || key == one then one else two
  }

  /** Keys are kept apart by serial number: for any two numbers, under some hash, the two keys for a name differ. */
  lemma SerialsGiveDifferentKeys(
      job: Job, iv: Vectors, tidx: Bytes, exts: seq<Extension>, ks: map<Bytes, Bytes>,
      serial: nat, iv': Vectors, tidx': Bytes, exts': seq<Extension>, ks': map<Bytes, Bytes>, name: Bytes)
    requires serial != job.serial && job.hmac == Tracing(job.req.preKey, BigEndian(job.serial))
    requires job.req.encryptAttrs && Occurs(job, name)
    requires Generated(job, iv, tidx, exts, ks) && Generated(job.(serial := serial), iv', tidx', exts', ks')
    ensures name in ks && name in ks' && ks[name] != ks'[name]
  {
    hide Numbered, Stored, StoredEnrollment, IsHeaderOf, Positions, Keys, BigEndian;
    var job' := job.(serial := serial);
    KeyOfAttribute(job, job.Size(), name);
    KeyOfAttribute(job', job'.Size(), name);
    if BigEndian(serial) == BigEndian(job.serial) {
      BigEndianInjective(serial, job.serial);
    }
    var preKey := job.req.preKey;
    var one, two := Unlike(preKey, 1), Unlike(preKey, 2);
    assert Fill(one)[0] == one && Fill(two)[0] == two && one != two;
    assert job.PreK0() == Fill(one) && job'.PreK0() == Fill(two);
    assert job.AttributeKey(name)[0] == one && job'.AttributeKey(name)[0] == two;
  }

  /** A cipher with two behaviours: it leaves blocks alone, or shifts their first byte round by one. */
  function ShiftFirst(key: Bytes, b: Block, n: byte): (r: Block) {
    if key == [] || key[0] == 0 then b else [(b[0] + n) % 256] + b[1..]
  }

  const SHIFTING: Aes := Aes((key, b) => ShiftFirst(key, b, 1), (key, b) => ShiftFirst(key, b, 255))

  /** A keyed hash that tells the enrollment label from every other message. */
  function MarkLabel(key: Bytes, m: Bytes): (d: Digest) {
    seq(48, _ => if m == ENROLLMENT_LABEL then 0 else 1)
  }

  lemma ShiftingIsLawful()
    ensures Lawful(SHIFTING) && Permutes(SHIFTING)
  {
    forall key: Bytes, b: Block
      ensures ShiftFirst(key, ShiftFirst(key, b, 1), 255) == b && ShiftFirst(key, ShiftFirst(key, b, 255), 1) == b
    {
    }
  }

  lemma ShiftingKeysDiffer(k: Bytes, k': Bytes)
    requires k != [] && k' != [] && k[0] == 0 && k'[0] != 0
    ensures forall b: Block :: SHIFTING.dec(k, b) != SHIFTING.dec(k', b)
  {
    forall b: Block
      ensures ShiftFirst(k, b, 255) != ShiftFirst(k', b, 255)
    {
      assert ShiftFirst(k', b, 255)[0] != b[0];
    }
  }

  /** Two keys that open a ciphertext to the same message decrypt its first block alike. */
  lemma SameOpeningSameBlock(aes: Aes, k: Bytes, k': Bytes, src: Bytes, m: Bytes)
    requires Open(aes, k, src) == Ok(m) && Open(aes, k', src) == Ok(m)
    ensures |src| >= 32 && aes.dec(k, src[16..32]) == aes.dec(k', src[16..32])
  {
    var iv, c := src[..16], src[16..];
    OpenPanicsOnBareVector(aes, k, src);
    UnpadAcceptsImagesOfPad(Decipher(aes, k, iv, c), m);
    UnpadAcceptsImagesOfPad(Decipher(aes, k', iv, c), m);
    assert c[..16] == src[16..32];
    var x, x' := aes.dec(k, c[..16]), aes.dec(k', c[..16]);
    assert XorBlock(x, iv) == Decipher(aes, k, iv, c)[..16] == XorBlock(x', iv);
    XorBlockCancels(x, iv);
    XorBlockCancels(x', iv);
  }

  lemma SuffixRestored(r: Outcome<Bytes>, m: Bytes)
    requires Unsuffixed(r) == Ok(m)
    ensures r == Ok(m + PADDING)
  {
    var v := r.value;
    assert v == v[..|v| - 16] + v[|v| - 16..];
  }

  /** Where the enrollment id reads back, the key handed out decrypts some block as the enrollment key does. */
  lemma KeysAgreeWhereReadBack(job: Job, iv: Vectors, tidx: Bytes, exts: seq<Extension>, ks: map<Bytes, Bytes>)
    requires Lawful(job.aes)
    requires Generated(job, iv, tidx, exts, ks)
    requires ENROLLMENT_NAME in ks && ReadEnrollmentId(job.aes, exts, ks) == Ok(job.enrollmentId)
    ensures exists b: Block :: job.aes.dec(job.EnrollmentKey(), b) == job.aes.dec(ks[ENROLLMENT_NAME], b)
  {
    hide Open, Unsuffixed, IsHeaderOf, Stored, Positions, Keys;
    var n, m := job.Size(), job.enrollmentId + PADDING;
    var k, k', sealed := job.EnrollmentKey(), ks[ENROLLMENT_NAME], exts[n + 1].value;
    FindNumbered(exts, n, n + 1);
    OpenSeal(job.aes, k, iv.enrollment.value, m);
    SuffixRestored(Open(job.aes, k', sealed), job.enrollmentId);
    SameOpeningSameBlock(job.aes, k, k', sealed, m);
    var b: Block := sealed[16..32];
    assert job.aes.dec(k, b) == job.aes.dec(k', b);
  }

  /**
   * The condition is needed: for every request that has an encrypted attribute named "enrollmentId",
   * and whatever is drawn, there is lawful cryptography under which the enrollment id does not read back.
   */
  lemma EnrollmentNameMisreads(
      req: Request, serial: nat, enrollmentId: Bytes, iv: Vectors, tidx: Bytes,
      exts: seq<Extension>, ks: map<Bytes, Bytes>)
    requires req.encryptAttrs && exists i :: 0 <= i < |req.attrs| && req.attrs[i].name == ENROLLMENT_NAME
    requires Generated(Job(SHIFTING, MarkLabel, req, serial, enrollmentId), iv, tidx, exts, ks)
    ensures Lawful(SHIFTING)
    ensures ReadEnrollmentId(SHIFTING, exts, ks) != Ok(enrollmentId)
  {
    hide ReadEnrollmentId, Stored, StoredEnrollment, Numbered, IsHeaderOf, Positions, Keys;
    var job := Job(SHIFTING, MarkLabel, req, serial, enrollmentId);
    ShiftingIsLawful();
    KeyOfEnrollment(job, job.Size());
    ShiftingKeysDiffer(job.EnrollmentKey(), job.AttributeKey(ENROLLMENT_NAME));
    if ReadEnrollmentId(SHIFTING, exts, ks) == Ok(enrollmentId) {
      KeysAgreeWhereReadBack(job, iv, tidx, exts, ks);
    }
  }
}
