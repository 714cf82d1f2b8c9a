/** The Buffalo firmware container: `encrypt_buf` and `decrypt_buf`. */
module Container {

  import opened Cipher
  import Crc

  datatype Option<+T> = None | Some(value: T)

  const ENC_PRODUCT_LEN := 32
  const ENC_VERSION_LEN := 8
  const ENC_MAGIC_LEN := 6

  /** "start" and "asar1", with their final zeros. */
  const START: Bytes := [0x73, 0x74, 0x61, 0x72, 0x74, 0]
  const ASAR1: Bytes := [0x61, 0x73, 0x61, 0x72, 0x31, 0]

  predicate MagicOk(m: Bytes) { m == START || m == ASAR1 }

  // ----- big-endian numbers -----

  function BigEndian(v: nat, n: nat): (b: Bytes)
    ensures |b| == n
  {
    if n == 0 then [] else BigEndian(v / 256, n - 1) + [(v % 256) as bv8]
  }

  function FromBigEndian(b: Bytes): nat {
    if b == [] then 0 else FromBigEndian(b[..|b| - 1]) * 256 + b[|b| - 1] as int
  }

  function Power(n: nat): nat { if n == 0 then 1 else 256 * Power(n - 1) }

  lemma NextByte(b: bv8)
    requires b < 255
    ensures (b + 1) as int == b as int + 1
  {}

  lemma {:induction false} ByteFor(v: nat) returns (b: bv8)
    requires v < 256
    ensures b as int == v
  {
    b := 0;
    if v > 0 {
      b := ByteFor(v - 1);
      assert (255 as bv8) as int == 255;
      NextByte(b);
      b := b + 1;
    }
  }

  lemma ByteTwice(v: nat)
    requires v < 256
    ensures (v as bv8) as int == v
  {
    var b := ByteFor(v);
    Crc.IndexTwice(b);
  }

  lemma {:induction false} FromBigEndianBelow(b: Bytes)
    ensures FromBigEndian(b) < Power(|b|)
  {
    if b != [] { FromBigEndianBelow(b[..|b| - 1]); }
  }

  lemma {:induction false} BigEndianTwice(v: nat, n: nat)
    requires v < Power(n)
    ensures FromBigEndian(BigEndian(v, n)) == v
  {
    if n > 0 {
      BigEndianTwice(v / 256, n - 1);
      ByteTwice(v % 256);
      assert BigEndian(v, n)[..n - 1] == BigEndian(v / 256, n - 1);
    }
  }

  const WORD := 0x1_0000_0000

  lemma PowerWord()
    ensures Power(4) == WORD
  {
    assert Power(1) == 256;
    assert Power(2) == 256 * 256;
    assert Power(3) == 256 * 256 * 256;
  }

  /** `put_be32` and `get_be32`. */
  function Be32(v: nat): (b: Bytes)
    ensures |b| == 4
  {
    BigEndian(v, 4)
  }

  lemma Be32Twice(v: nat)
    requires v < WORD
    ensures FromBigEndian(Be32(v)) == v
  {
    PowerWord();
    BigEndianTwice(v, 4);
  }

  // ----- the container -----

  /** What a container is made from; strings without their final zeros. */
  datatype Params = Params(key: Chars, magic: Bytes, seed: bv8, product: Bytes, version: Bytes, longState: bool)

  function Seed(b: bv8): int { b as int }

  /** Each part is encrypted with the first encrypted byte of the part before it. */
  function CryptProduct(p: Params): Bytes { Crypt(Seed(p.seed), p.key, p.product + [0], p.longState) }

  function CryptVersion(p: Params): Bytes {
    Crypt(Seed(CryptProduct(p)[0]), p.key, p.version + [0], p.longState)
  }

  function CryptData(p: Params, data: Bytes): (r: Bytes)
    ensures |r| == |data|
  {
    Crypt(Seed(CryptVersion(p)[0]), p.key, data, p.longState)
  }

  function Field(x: Bytes): Bytes { Be32(|x|) + x }

  function Header(p: Params, dataLen: nat): Bytes {
    p.magic + [0] + [p.seed] + Field(CryptProduct(p)) + Field(CryptVersion(p)) + Be32(dataLen)
  }

  function Body(p: Params, data: Bytes, csum: nat): (r: Bytes)
    ensures |r| == |data| + 4
  {
    CryptData(p, data) + Be32(csum)
  }

  /** `enc_compute_header_len`. */
  function HeaderLen(product: Bytes, version: Bytes): nat {
    ENC_MAGIC_LEN + 1 + |product| + 1 + |version| + 1 + 3 * 4
  }

  lemma HeaderLenExact(p: Params, dataLen: nat)
    requires |p.magic| == ENC_MAGIC_LEN - 1
    ensures |Header(p, dataLen)| == HeaderLen(p.product, p.version)
  {}

  /** `buffalo_csum` as `decrypt_buf` uses it. */
  function DataCsum(data: Bytes): (c: nat)
    requires |data| < WORD
    ensures c < WORD
  {
    Crc.Csum(|data| as bv32, data) as int
  }

  // ----- opening a container -----

  datatype Cut = Cut(field: Bytes, rest: Bytes)

  /** A field of at most `max` bytes behind its length. */
  function CutField(b: Bytes, max: nat): Option<Cut> {
    if |b| < 4 then None
    else
      var n := FromBigEndian(b[..4]);
      if n > max || |b| - 4 < n then None else Some(Cut(b[4..4 + n], b[4 + n..]))
  }

  lemma CutFieldOf(x: Bytes, rest: Bytes, max: nat)
    requires |x| <= max < WORD
    ensures CutField(Field(x) + rest, max) == Some(Cut(x, rest))
  {
    var b := Field(x) + rest;
    Be32Twice(|x|);
    assert b[..4] == Be32(|x|);
    assert b[4..4 + |x|] == x && b[4 + |x|..] == rest;
  }

  /** The start of an array replaced. */
  function Over(x: Bytes, old_: Bytes): Bytes { if |x| <= |old_| then x + old_[|x|..] else x }

  datatype Opened = Opened(magic: Bytes, seed: bv8, product: Bytes, version: Bytes, csum: nat, data: Bytes)

  /** The encrypted names as `decrypt_buf` finds them, and what follows. */
  datatype Names = Names(product: Bytes, version: Bytes, rest: Bytes)

  function CutNames(b: Bytes): (r: Option<Names>)
    ensures r.Some? ==> |r.value.product| <= ENC_PRODUCT_LEN && |r.value.version| <= ENC_VERSION_LEN
  {
    match CutField(b, ENC_PRODUCT_LEN)
    case None => None
    case Some(p) =>
      match CutField(p.rest, ENC_VERSION_LEN)
      case None => None
      case Some(v) => Some(Names(p.field, v.field, v.rest))
  }

  datatype Data = Data(data: Bytes, csum: nat)

  /** The data behind its length, and the checksum. */
  function CutData(b: Bytes): (r: Option<Data>)
    ensures r.Some? ==> |r.value.data| < WORD
  {
    if |b| < 4 then None
    else
      FromBigEndianBelow(b[..4]);
      PowerWord();
      var n := FromBigEndian(b[..4]);
      if |b| - 4 < n || |b| - 4 - n < 4 then None
      else Some(Data(b[4..4 + n], FromBigEndian(b[4 + n..8 + n])))
  }

  lemma CutDataOf(x: Bytes, csum: nat, rest: Bytes)
    requires |x| < WORD && csum < WORD
    ensures CutData(Be32(|x|) + (x + Be32(csum) + rest)) == Some(Data(x, csum))
  {
    var b := Be32(|x|) + (x + Be32(csum) + rest);
    Be32Twice(|x|);
    Be32Twice(csum);
    assert b[..4] == Be32(|x|);
    assert b[4..4 + |x|] == x && b[4 + |x|..8 + |x|] == Be32(csum);
  }

  /** The decryption of what was cut, unless the checksum is wrong. */
  function Decrypted(magic: Bytes, seed: bv8, n: Names, d: Data, key: Chars, longState: bool,
                     product0: Bytes, version0: Bytes): Option<Opened>
    requires |product0| == ENC_PRODUCT_LEN && |version0| == ENC_VERSION_LEN
    requires |n.product| <= ENC_PRODUCT_LEN && |n.version| <= ENC_VERSION_LEN && |d.data| < WORD
  {
    var product, version := Over(n.product, product0), Over(n.version, version0);
    var data := Crypt(Seed(version[0]), key, d.data, longState);
    if DataCsum(data) != d.csum then None
    else Some(Opened(magic, seed, Over(Crypt(Seed(seed), key, n.product, longState), product),
                     Over(Crypt(Seed(product[0]), key, n.version, longState), version), d.csum, data))
  }

  /** What `decrypt_buf` makes of a buffer and of the product and version fields it is called with. */
  function Open(b: Bytes, key: Chars, longState: bool, product0: Bytes, version0: Bytes): Option<Opened>
    requires |product0| == ENC_PRODUCT_LEN && |version0| == ENC_VERSION_LEN
  {
    if |b| <= ENC_MAGIC_LEN || !MagicOk(b[..ENC_MAGIC_LEN]) then None
    else
      match CutNames(b[ENC_MAGIC_LEN + 1..])
      case None => None
      case Some(n) =>
        match CutData(n.rest)
        case None => None
        case Some(d) => Decrypted(b[..ENC_MAGIC_LEN], b[ENC_MAGIC_LEN], n, d, key, longState, product0, version0)
  }

  /** A container opens exactly if its magic is one of the two and its checksum is that of the
      data; then everything it was made from comes back. */
  lemma RoundTrip(p: Params, data: Bytes, csum: nat, pad: Bytes, product0: Bytes, version0: Bytes)
    requires |p.magic| == ENC_MAGIC_LEN - 1
    requires |p.product| < ENC_PRODUCT_LEN && |p.version| < ENC_VERSION_LEN && |data| < WORD && csum < WORD
    requires |product0| == ENC_PRODUCT_LEN && |version0| == ENC_VERSION_LEN
    ensures Open(Header(p, |data|) + Body(p, data, csum) + pad, p.key, p.longState, product0, version0)
         == if MagicOk(p.magic + [0]) && DataCsum(data) == csum
            then Some(Opened(p.magic + [0], p.seed, Over(p.product + [0], product0), Over(p.version + [0], version0),
                             csum, data))
            else None
  {
    var b := Header(p, |data|) + Body(p, data, csum) + pad;
    var cp, cv, cd := CryptProduct(p), CryptVersion(p), CryptData(p, data);
    var r2 := Be32(|data|) + (cd + Be32(csum) + pad);
    HeaderParts(p, data, csum, pad);
    CutNamesOf(cp, cv, r2);
    CutDataOf(cd, csum, pad);
    DecryptedOf(p, data, csum, product0, version0);
    OpenParts(b, p.magic + [0], p.seed, Names(cp, cv, r2), Data(cd, csum), p.key, p.longState, product0, version0);
  }

  lemma OpenParts(b: Bytes, magic: Bytes, seed: bv8, n: Names, d: Data, key: Chars, longState: bool,
                  product0: Bytes, version0: Bytes)
    requires |b| > ENC_MAGIC_LEN && b[..ENC_MAGIC_LEN] == magic && b[ENC_MAGIC_LEN] == seed
    requires CutNames(b[ENC_MAGIC_LEN + 1..]) == Some(n) && CutData(n.rest) == Some(d)
    requires |product0| == ENC_PRODUCT_LEN && |version0| == ENC_VERSION_LEN
    ensures Open(b, key, longState, product0, version0)
         == if MagicOk(magic) then Decrypted(magic, seed, n, d, key, longState, product0, version0) else None
  {}

  lemma HeaderParts(p: Params, data: Bytes, csum: nat, pad: Bytes)
    requires |p.magic| == ENC_MAGIC_LEN - 1
    ensures var b := Header(p, |data|) + Body(p, data, csum) + pad;
            && |b| > ENC_MAGIC_LEN && b[..ENC_MAGIC_LEN] == p.magic + [0] && b[ENC_MAGIC_LEN] == p.seed
            && b[ENC_MAGIC_LEN + 1..] == Field(CryptProduct(p)) + (Field(CryptVersion(p))
                 + (Be32(|data|) + (CryptData(p, data) + Be32(csum) + pad)))
  {
    Pieces(p.magic + [0], p.seed, Field(CryptProduct(p)), Field(CryptVersion(p)), Be32(|data|),
           CryptData(p, data), Be32(csum), pad);
  }

  lemma Pieces(m: Bytes, s: bv8, x: Bytes, y: Bytes, z: Bytes, d: Bytes, c: Bytes, e: Bytes)
    ensures var b := m + [s] + x + y + z + (d + c) + e;
            b[..|m|] == m && b[|m|] == s && b[|m| + 1..] == x + (y + (z + (d + c + e)))
  {}

  lemma CutNamesOf(cp: Bytes, cv: Bytes, rest: Bytes)
    requires |cp| <= ENC_PRODUCT_LEN && |cv| <= ENC_VERSION_LEN
    ensures CutNames(Field(cp) + (Field(cv) + rest)) == Some(Names(cp, cv, rest))
  {
    CutFieldOf(cp, Field(cv) + rest, ENC_PRODUCT_LEN);
    CutFieldOf(cv, rest, ENC_VERSION_LEN);
  }

  /** Decrypting the parts of a container. */
  lemma DecryptedOf(p: Params, data: Bytes, csum: nat, product0: Bytes, version0: Bytes)
    requires |p.product| < ENC_PRODUCT_LEN && |p.version| < ENC_VERSION_LEN && |data| < WORD
    requires |product0| == ENC_PRODUCT_LEN && |version0| == ENC_VERSION_LEN
    ensures forall rest ::
      Decrypted(p.magic + [0], p.seed, Names(CryptProduct(p), CryptVersion(p), rest), Data(CryptData(p, data), csum),
                p.key, p.longState, product0, version0)
      == if DataCsum(data) == csum
         then Some(Opened(p.magic + [0], p.seed, Over(p.product + [0], product0), Over(p.version + [0], version0),
                          csum, data))
         else None
  {
    var cp, cv := CryptProduct(p), CryptVersion(p);
    CryptTwice(Seed(p.seed), p.key, p.product + [0], p.longState);
    CryptTwice(Seed(cp[0]), p.key, p.version + [0], p.longState);
    CryptTwice(Seed(cv[0]), p.key, data, p.longState);
    OverTwice(p.product + [0], cp, product0);
    OverTwice(p.version + [0], cv, version0);
  }

  lemma OverTwice(x: Bytes, y: Bytes, b: Bytes)
    requires |x| == |y| <= |b|
    ensures Over(x, Over(y, b)) == Over(x, b)
  {}

  /** `enc_compute_buf_len`. */
  function BufLen(product: Bytes, version: Bytes, dataLen: nat): nat {
    var n := HeaderLen(product, version) + dataLen + 4;
    n + (4 - n % 4)
  }

  /** A file whose header is at the start and whose data follows it, as `encrypt_buf` leaves it, is
      the container and at most four bytes of padding; so it opens as RoundTrip says. */
  lemma FileIsContainer(p: Params, b0: Bytes, data: Bytes, csum: nat)
    requires |p.magic| == ENC_MAGIC_LEN - 1 && |b0| == BufLen(p.product, p.version, |data|)
    ensures var h := Header(p, |data|);
            var n := |h| + |Body(p, data, csum)|;
            && n < |b0| <= n + 4 && |b0| % 4 == 0
            && Splice(Splice(b0, 0, h), |h|, Body(p, data, csum)) == h + Body(p, data, csum) + b0[n..]
  {
    var h, body := Header(p, |data|), Body(p, data, csum);
    HeaderLenExact(p, |data|);
    Padding(|h| + |data| + 4);
    SpliceStart(b0, h, body);
  }

  lemma Padding(n: nat)
    ensures n < n + (4 - n % 4) <= n + 4 && (n + (4 - n % 4)) % 4 == 0
  {}

  lemma SpliceStart(b: Bytes, x: Bytes, y: Bytes)
    requires |x| + |y| <= |b|
    ensures Splice(Splice(b, 0, x), |x|, y) == x + y + b[|x| + |y|..]
  {}

  // ----- in memory -----

  /** A C string: what stands before the first zero. */
  function CString(b: Bytes): Bytes {
    if b == [] || b[0] == 0 then [] else [b[0]] + CString(b[1..])
  }

  lemma {:induction false} CStringIs(b: Bytes, n: nat)
    requires n < |b| && b[n] == 0 && forall i :: 0 <= i < n ==> b[i] != 0
    ensures CString(b) == b[..n]
  {
    if n > 0 {
      CStringIs(b[1..], n - 1);
      assert b[..n] == [b[0]] + b[1..][..n - 1];
    }
  }

  method StrLen(a: array<bv8>) returns (n: nat)
    requires 0 in a[..]
    ensures n < a.Length && a[n] == 0 && a[..n] == CString(a[..])
  {
    n := 0;
    while a[n] != 0
      invariant n < a.Length && forall i :: 0 <= i < n ==> a[i] != 0
      decreases a.Length - n
    {
      assert exists k :: 0 <= k < a.Length && a[..][k] == 0;
      n := n + 1;
    }
    CStringIs(a[..], n);
  }

  /** `struct enc_param`. */
  class EncParam {
    const key: Chars
    const magic: array<bv8>
    const product: array<bv8>
    const version: array<bv8>
    var seed: bv8
    const longState: bool
    var dataLen: nat
    var csum: nat

    constructor (key: Chars, longState: bool)
      ensures fresh(magic) && fresh(product) && fresh(version) && this.key == key && this.longState == longState
      ensures Shaped()
    {
      this.key, this.longState := key, longState;
      magic := new bv8[ENC_MAGIC_LEN](_ => 0);
      product := new bv8[ENC_PRODUCT_LEN](_ => 0);
      version := new bv8[ENC_VERSION_LEN](_ => 0);
      seed, dataLen, csum := 0, 0, 0;
    }

    predicate Shaped() {
      magic.Length == ENC_MAGIC_LEN && product.Length == ENC_PRODUCT_LEN && version.Length == ENC_VERSION_LEN
    }

    /** The three arrays hold C strings, and the magic has five characters. */
    ghost predicate Strings()
      reads magic, product, version
    {
      0 in magic[..] && 0 in product[..] && 0 in version[..] && |CString(magic[..])| == ENC_MAGIC_LEN - 1
    }

    ghost function View(): Params
      reads this, magic, product, version
    {
      Params(key, CString(magic[..]), seed, CString(product[..]), CString(version[..]), longState)
    }
  }

  lemma SpliceAppend(b: Bytes, off: nat, x: Bytes, y: Bytes)
    requires off + |x| + |y| <= |b|
    ensures Splice(Splice(b, off, x), off + |x|, y) == Splice(b, off, x + y)
  {}

  lemma SpliceTwice(b: Bytes, off: nat, x: Bytes, y: Bytes)
    requires |x| == |y| && off + |x| <= |b|
    ensures Splice(Splice(b, off, x), off, y) == Splice(b, off, y)
  {}

  /** `memcpy`. */
  method Put(buf: array<bv8>, p: nat, x: Bytes)
    requires p + |x| <= buf.Length
    modifies buf
    ensures buf[..] == Splice(old(buf[..]), p, x)
  {
    forall i | 0 <= i < |x| {
      buf[p + i] := x[i];
    }
  }

  /** Puts x behind what was put to off. */
  method Append(buf: array<bv8>, ghost b0: Bytes, ghost off: nat, ghost h: Bytes, p: nat, x: Bytes)
    requires |b0| == buf.Length && off + |h| + |x| <= |b0|
    requires buf[..] == Splice(b0, off, h) && p == off + |h|
    modifies buf
    ensures buf[..] == Splice(b0, off, h + x)
  {
    Put(buf, p, x);
    SpliceAppend(b0, off, h, x);
  }

  /** Copies a name and encrypts it in place. */
  method PutCrypted(buf: array<bv8>, p: nat, x: Bytes, seed: bv8, key: Chars, longState: bool) returns (first: bv8)
    requires p + |x| <= buf.Length && 0 < |x| && |key| <= BCRYPT_MAX_KEYLEN
    modifies buf
    ensures buf[..] == Splice(old(buf[..]), p, Crypt(Seed(seed), key, x, longState))
    ensures first == Crypt(Seed(seed), key, x, longState)[0]
  {
    ghost var b0, c := buf[..], Crypt(Seed(seed), key, x, longState);
    Put(buf, p, x);
    SpliceAt(b0, p, x);
    BcryptBuf(Seed(seed), key, buf, p, buf, p, |x|, longState);
    SpliceTwice(b0, p, x, c);
    SpliceAt(b0, p, c);
    first := buf[p];
  }

  lemma SpliceAt(b: Bytes, off: nat, x: Bytes)
    requires off + |x| <= |b|
    ensures Splice(b, off, x)[off..off + |x|] == x
    ensures x != [] ==> Splice(b, off, x)[off] == x[0]
  {}

  /** Puts the length of a name and the encrypted name. */
  method AppendName(buf: array<bv8>, ghost b0: Bytes, ghost off: nat, ghost h: Bytes, p: nat, x: Bytes,
                    seed: bv8, key: Chars, longState: bool)
    returns (p': nat, first: bv8)
    requires |b0| == buf.Length && off + |h| + 4 + |x| <= |b0| && 0 < |x| && |key| <= BCRYPT_MAX_KEYLEN
    requires buf[..] == Splice(b0, off, h) && p == off + |h|
    modifies buf
    ensures buf[..] == Splice(b0, off, h + Field(Crypt(Seed(seed), key, x, longState)))
    ensures p' == p + 4 + |x| && first == Crypt(Seed(seed), key, x, longState)[0]
  {
    Append(buf, b0, off, h, p, Be32(|x|));
    first := PutCrypted(buf, p + 4, x, seed, key, longState);
    p' := p + 4 + |x|;
    NameAppended(b0, off, h, Crypt(Seed(seed), key, x, longState));
  }

  lemma NameAppended(b: Bytes, off: nat, h: Bytes, c: Bytes)
    requires off + |h| + 4 + |c| <= |b|
    ensures Splice(Splice(b, off, h + Be32(|c|)), off + |h| + 4, c) == Splice(b, off, h + Field(c))
  {
    SpliceAppend(b, off, h + Be32(|c|), c);
    assert h + Be32(|c|) + c == h + Field(c);
  }

  /** `encrypt_buf`: the header goes to hdr, and the data is encrypted in place and gets its
      checksum behind it. */
  method EncryptBuf(ep: EncParam, buf: array<bv8>, hdr: nat, data: nat)
    requires ep.Shaped() && ep.Strings() && |ep.key| <= BCRYPT_MAX_KEYLEN
    requires ep.dataLen < WORD && ep.csum < WORD && data + ep.dataLen + 4 <= buf.Length
    requires hdr + HeaderLen(ep.View().product, ep.View().version) <= data
    requires buf != ep.magic && buf != ep.product && buf != ep.version
    modifies buf
    ensures buf[..] == Splice(Splice(old(buf[..]), hdr, Header(old(ep.View()), ep.dataLen)), data,
                              Body(old(ep.View()), old(buf[data..data + ep.dataLen]), ep.csum))
  {
    ghost var text, v := buf[data..data + ep.dataLen], ep.View();
    HeaderLenExact(v, ep.dataLen);
    EncryptParts(ep, buf, hdr, data, v, text, Header(v, ep.dataLen), CryptData(v, text));
  }

  method EncryptParts(ep: EncParam, buf: array<bv8>, hdr: nat, data: nat, ghost v: Params, ghost text: Bytes,
                      ghost h: Bytes, ghost c: Bytes)
    requires ep.Shaped() && ep.Strings() && |ep.key| <= BCRYPT_MAX_KEYLEN && v == ep.View()
    requires data + ep.dataLen + 4 <= buf.Length && text == buf[data..data + ep.dataLen]
    requires h == Header(v, ep.dataLen) && hdr + |h| <= data && |h| == HeaderLen(v.product, v.version)
    requires c == CryptData(v, text)
    requires buf != ep.magic && buf != ep.product && buf != ep.version
    modifies buf
    ensures buf[..] == Splice(Splice(old(buf[..]), hdr, h), data, c + Be32(ep.csum))
  {
    SpliceElsewhere(buf[..], hdr, h, data, ep.dataLen);
    var s := WriteHeader(ep, buf, hdr, v);
    WriteBody(ep, buf, data, s, text, c);
  }

  lemma SpliceElsewhere(b: Bytes, off: nat, x: Bytes, at: nat, n: nat)
    requires off + |x| <= at && at + n <= |b|
    ensures Splice(b, off, x)[at..at + n] == b[at..at + n]
  {}

  method WriteBody(ep: EncParam, buf: array<bv8>, data: nat, s: bv8, ghost text: Bytes, ghost c: Bytes)
    requires |ep.key| <= BCRYPT_MAX_KEYLEN && data + ep.dataLen + 4 <= buf.Length
    requires text == buf[data..data + ep.dataLen] && c == Crypt(Seed(s), ep.key, text, ep.longState)
    modifies buf
    ensures buf[..] == Splice(old(buf[..]), data, c + Be32(ep.csum))
  {
    ghost var b0 := buf[..];
    CryptAt(buf, data, ep.dataLen, s, ep.key, ep.longState, text, c);
    Append(buf, b0, data, c, data + ep.dataLen, Be32(ep.csum));
  }

  /** Encrypts a part of the buffer in place. */
  method CryptAt(buf: array<bv8>, p: nat, len: nat, seed: bv8, key: Chars, longState: bool,
                 ghost text: Bytes, ghost c: Bytes)
    requires p + len <= buf.Length && |key| <= BCRYPT_MAX_KEYLEN
    requires text == buf[p..p + len] && c == Crypt(Seed(seed), key, text, longState)
    modifies buf
    ensures buf[..] == Splice(old(buf[..]), p, c)
  {
    BcryptBuf(Seed(seed), key, buf, p, buf, p, len, longState);
  }

  /** Puts one of the two names behind what was put to off. */
  method WriteName(name: array<bv8>, buf: array<bv8>, ghost b0: Bytes, ghost off: nat, ghost h: Bytes, p: nat,
                   seed: bv8, key: Chars, longState: bool, ghost text: Bytes)
    returns (p': nat, first: bv8)
    requires 0 in name[..] && text == CString(name[..]) + [0]
    requires |b0| == buf.Length && off + |h| + 4 + |text| <= |b0| && |key| <= BCRYPT_MAX_KEYLEN
    requires buf[..] == Splice(b0, off, h) && p == off + |h|
    modifies buf
    ensures buf[..] == Splice(b0, off, h + Field(Crypt(Seed(seed), key, text, longState)))
    ensures p' == p + 4 + |text| && first == Crypt(Seed(seed), key, text, longState)[0]
  {
    var n := StrLen(name);
    assert name[..n + 1] == text;
    p', first := AppendName(buf, b0, off, h, p, name[..n + 1], seed, key, longState);
  }

  /** The header up to its parts. */
  function Header0(v: Params): Bytes { v.magic + [0] + [v.seed] }

  function Header1(v: Params): Bytes { Header0(v) + Field(CryptProduct(v)) }

  function Header2(v: Params): Bytes { Header1(v) + Field(CryptVersion(v)) }

  lemma HeaderSizes(v: Params, dataLen: nat)
    requires |v.magic| == ENC_MAGIC_LEN - 1
    ensures |Header0(v)| == ENC_MAGIC_LEN + 1
    ensures |Header1(v)| == ENC_MAGIC_LEN + 1 + 4 + |v.product| + 1
    ensures |Header2(v)| == HeaderLen(v.product, v.version) - 4
    ensures Header(v, dataLen) == Header2(v) + Be32(dataLen)
  {}

  method WriteNames(ep: EncParam, buf: array<bv8>, ghost b0: Bytes, ghost hdr: nat, p: nat, ghost v: Params)
    returns (p': nat, s: bv8)
    requires ep.Strings() && |ep.key| <= BCRYPT_MAX_KEYLEN && v == ep.View() && buf != ep.version
    requires |b0| == buf.Length && hdr + HeaderLen(v.product, v.version) <= |b0|
    requires buf[..] == Splice(b0, hdr, Header0(v)) && p == hdr + |Header0(v)|
    modifies buf
    ensures buf[..] == Splice(b0, hdr, Header2(v))
    ensures p' == hdr + |Header2(v)| && s == CryptVersion(v)[0]
  {
    HeaderSizes(v, 0);
    p', s := WriteName(ep.product, buf, b0, hdr, Header0(v), p, ep.seed, ep.key, ep.longState, v.product + [0]);
    p', s := WriteName(ep.version, buf, b0, hdr, Header1(v), p', s, ep.key, ep.longState, v.version + [0]);
  }

  method WriteHeader(ep: EncParam, buf: array<bv8>, hdr: nat, ghost v: Params) returns (s: bv8)
    requires ep.Shaped() && ep.Strings() && |ep.key| <= BCRYPT_MAX_KEYLEN && v == ep.View()
    requires hdr + HeaderLen(v.product, v.version) <= buf.Length
    requires buf != ep.magic && buf != ep.product && buf != ep.version
    modifies buf
    ensures buf[..] == Splice(old(buf[..]), hdr, Header(v, ep.dataLen))
    ensures s == CryptVersion(v)[0]
  {
    ghost var b0 := buf[..];
    HeaderSizes(v, ep.dataLen);
    var p := WriteMagic(ep, buf, hdr);
    p, s := WriteNames(ep, buf, b0, hdr, p, v);
    Append(buf, b0, hdr, Header2(v), p, Be32(ep.dataLen));
  }

  method WriteMagic(ep: EncParam, buf: array<bv8>, hdr: nat) returns (p: nat)
    requires ep.Shaped() && ep.Strings()
    requires hdr + ENC_MAGIC_LEN + 1 <= buf.Length && buf != ep.magic && buf != ep.product && buf != ep.version
    modifies buf
    ensures buf[..] == Splice(old(buf[..]), hdr, Header0(ep.View()))
    ensures p == hdr + ENC_MAGIC_LEN + 1
  {
    ghost var b0 := buf[..];
    var n := StrLen(ep.magic);
    assert ep.magic[..n + 1] == ep.View().magic + [0];
    Put(buf, hdr, ep.magic[..n + 1]);
    Append(buf, b0, hdr, ep.View().magic + [0], hdr + n + 1, [ep.seed]);
    p := hdr + n + 2;
  }

  // ----- decrypt_buf -----

  lemma FourBytes(b: Bytes)
    requires |b| == 4
    ensures FromBigEndian(b)
         == ((b[0] as int * 256 + b[1] as int) * 256 + b[2] as int) * 256 + b[3] as int
  {
    assert b[..3][..2] == b[..2] && b[..2][..1] == b[..1] && b[..1][..0] == [];
    assert FromBigEndian(b[..1]) == b[0] as int;
    assert FromBigEndian(b[..2]) == b[0] as int * 256 + b[1] as int;
    assert FromBigEndian(b[..3]) == (b[0] as int * 256 + b[1] as int) * 256 + b[2] as int;
  }

  method GetBe32(buf: array<bv8>, p: nat) returns (v: nat)
    requires p + 4 <= buf.Length
    ensures v == FromBigEndian(buf[p..p + 4])
  {
    FourBytes(buf[p..p + 4]);
    v := ((buf[p] as int * 256 + buf[p + 1] as int) * 256 + buf[p + 2] as int) * 256 + buf[p + 3] as int;
  }

  lemma SliceSlice(b: Bytes, p: nat, n: nat, i: nat, j: nat)
    requires p <= n <= |b| && i <= j <= n - p
    ensures b[p..n][i..j] == b[p + i..p + j]
  {
    forall k | 0 <= k < j - i ensures b[p..n][i..j][k] == b[p + i..p + j][k] {
      assert b[p..n][i + k] == b[p + i + k];
    }
  }

  /** Where a field is in the buffer. */
  lemma CutFieldAt(b: Bytes, p: nat, n: nat, max: nat)
    requires p <= n <= |b|
    ensures CutField(b[p..n], max)
         == if n - p < 4 then None
            else
              var l := FromBigEndian(b[p..p + 4]);
              if l > max || n - p - 4 < l then None else Some(Cut(b[p + 4..p + 4 + l], b[p + 4 + l..n]))
  {
    if n - p >= 4 {
      var l := FromBigEndian(b[p..p + 4]);
      SliceSlice(b, p, n, 0, 4);
      if n - p - 4 >= l {
        SliceSlice(b, p, n, 4, 4 + l);
        SliceSlice(b, p, n, 4 + l, n - p);
      }
    }
  }

  /** Length, data and checksum are all before n. */
  predicate DataFits(b: Bytes, p: nat, n: nat)
    requires p <= n <= |b|
  {
    n - p >= 4 && n - p - 4 >= FromBigEndian(b[p..p + 4]) && n - p - 4 - FromBigEndian(b[p..p + 4]) >= 4
  }

  function DataAt(b: Bytes, q: nat, l: nat): Data
    requires q + l + 4 <= |b|
  {
    Data(b[q..q + l], FromBigEndian(b[q + l..q + l + 4]))
  }

  /** Where the data is in the buffer. */
  lemma CutDataFits(b: Bytes, p: nat, n: nat, l: nat)
    requires p <= n <= |b| && DataFits(b, p, n) && l == FromBigEndian(b[p..p + 4])
    ensures CutData(b[p..n]) == Some(DataAt(b, p + 4, l))
  {
    SliceSlice(b, p, n, 0, 4);
    SliceSlice(b, p, n, 4, 4 + l);
    SliceSlice(b, p, n, 4 + l, 8 + l);
  }

  lemma CutDataMissing(b: Bytes, p: nat, n: nat)
    requires p <= n <= |b| && !DataFits(b, p, n)
    ensures CutData(b[p..n]) == None
  {
    if n - p >= 4 { SliceSlice(b, p, n, 0, 4); }
  }

  /** Reads the length at p and copies a field of that length to dst, if it fits and is there. */
  method ReadField(buf: array<bv8>, n: nat, p: nat, dst: array<bv8>) returns (len: Option<nat>)
    requires p <= n <= buf.Length && buf != dst
    modifies dst
    ensures match CutField(buf[p..n], dst.Length)
            case None => len == None
            case Some(c) => len == Some(|c.field|) && dst[..] == Over(c.field, old(dst[..]))
                            && p + 4 + |c.field| <= n && c.rest == buf[p + 4 + |c.field|..n]
  {
    CutFieldAt(buf[..], p, n, dst.Length);
    SameSlice(buf, p, n);
    len := ReadFieldAt(buf, n, p, dst, buf[..]);
    if len.Some? { SameSlice(buf, p + 4 + len.value, n); }
  }

  /** The length in b at p, if a field of that length is there and is not too long. */
  function FieldLength(b: Bytes, p: nat, n: nat, max: nat): Option<nat>
    requires p <= n <= |b|
  {
    if n - p < 4 then None
    else
      var l := FromBigEndian(b[p..p + 4]);
      if l > max || n - p - 4 < l then None else Some(l)
  }

  method ReadFieldAt(buf: array<bv8>, n: nat, p: nat, dst: array<bv8>, ghost b: Bytes) returns (len: Option<nat>)
    requires p <= n <= buf.Length && buf != dst && b == buf[..]
    modifies dst
    ensures len == FieldLength(b, p, n, dst.Length)
    ensures len.Some? ==> dst[..] == Over(b[p + 4..p + 4 + len.value], old(dst[..]))
  {
    if n - p < 4 {
      return None;
    }
    var l := GetBe32(buf, p);
    SameSlice(buf, p, p + 4);
    if l > dst.Length || n - p - 4 < l {
      return None;
    }
    SameSlice(buf, p + 4, p + 4 + l);
    PutOver(dst, buf[p + 4..p + 4 + l]);
    len := Some(l);
  }

  lemma SameSlice(a: array<bv8>, lo: nat, hi: nat)
    requires lo <= hi <= a.Length
    ensures a[..][lo..hi] == a[lo..hi]
  {}

  method PutOver(dst: array<bv8>, x: Bytes)
    requires |x| <= dst.Length
    modifies dst
    ensures dst[..] == Over(x, old(dst[..]))
  {
    Put(dst, 0, x);
  }

  /** The second half of `decrypt_buf`: decrypts the data to the start of the buffer, which
      overlaps with where it is, and compares the checksum. */
  method ReadData(buf: array<bv8>, n: nat, p: nat, seed: bv8, key: Chars, longState: bool)
    returns (ok: bool, dataLen: nat, csum: nat)
    requires p <= n <= buf.Length && |key| <= BCRYPT_MAX_KEYLEN
    modifies buf
    ensures DataRead(CutData(old(buf[..])[p..n]), ok, dataLen, csum, seed, key, longState, old(buf[..]), buf[..])
  {
    ghost var b0 := buf[..];
    csum := 0;
    ok, dataLen := FindData(buf, n, p, seed, key, longState);
    if ok {
      CutDataFits(b0, p, n, dataLen);
      ok, csum := DecryptData(buf, p + 4, dataLen, seed, key, longState);
    } else {
      CutDataMissing(b0, p, n);
    }
  }

  /** Finds out whether data and checksum are there. Without a checksum the data is decrypted for
      nothing. */
  method FindData(buf: array<bv8>, n: nat, p: nat, seed: bv8, key: Chars, longState: bool)
    returns (fits: bool, dataLen: nat)
    requires p <= n <= buf.Length && |key| <= BCRYPT_MAX_KEYLEN
    modifies buf
    ensures fits == DataFits(old(buf[..]), p, n)
    ensures fits ==> buf[..] == old(buf[..]) && dataLen == FromBigEndian(buf[..][p..p + 4])
  {
    fits, dataLen := false, 0;
    if n - p < 4 {
      return;
    }
    SameSlice(buf, p, p + 4);
    dataLen := GetBe32(buf, p);
    if n - p - 4 < dataLen {
      return;
    }
    if n - p - 4 - dataLen < 4 {
      BcryptBuf(Seed(seed), key, buf, p + 4, buf, 0, dataLen, longState);
      return;
    }
    fits := true;
  }

  /** The checksum was read and compared, and the decrypted data is at the start of the buffer. */
  predicate DataRead(r: Option<Data>, ok: bool, dataLen: nat, csum: nat, seed: bv8, key: Chars, longState: bool,
                     b0: Bytes, b: Bytes)
  {
    match r
    case None => !ok
    case Some(d) => Decoded(d, ok, dataLen, csum, Crypt(Seed(seed), key, d.data, longState), b0, b)
  }

  predicate Decoded(d: Data, ok: bool, dataLen: nat, csum: nat, data: Bytes, b0: Bytes, b: Bytes) {
    && |d.data| == |data| == dataLen < WORD && csum == d.csum && ok == (DataCsum(data) == csum)
    && |data| <= |b0| && b == Splice(b0, 0, data)
  }

  method DecryptData(buf: array<bv8>, p: nat, l: nat, seed: bv8, key: Chars, longState: bool)
    returns (ok: bool, csum: nat)
    requires p + l + 4 <= buf.Length && |key| <= BCRYPT_MAX_KEYLEN && l < WORD
    modifies buf
    ensures DataRead(Some(DataAt(old(buf[..]), p, l)), ok, l, csum, seed, key, longState, old(buf[..]), buf[..])
  {
    ghost var b0 := buf[..];
    SameSlice(buf, p, p + l);
    SameSlice(buf, p + l, p + l + 4);
    csum := DecryptDown(buf, p, l, seed, key, longState);
    ok := SameCsum(buf[0..l], csum);
    DataReadIs(DataAt(b0, p, l), ok, l, csum, seed, key, longState, b0, buf[..]);
  }

  lemma DataReadIs(d: Data, ok: bool, dataLen: nat, csum: nat, seed: bv8, key: Chars, longState: bool,
                   b0: Bytes, b: Bytes)
    requires |d.data| == dataLen < WORD && dataLen <= |b0| && csum == d.csum
    requires ok == (DataCsum(Crypt(Seed(seed), key, d.data, longState)) == csum)
    requires b == Splice(b0, 0, Crypt(Seed(seed), key, d.data, longState))
    ensures DataRead(Some(d), ok, dataLen, csum, seed, key, longState, b0, b)
  {}

  /** The checksum is read after the data was moved down, which did not reach it. */
  method DecryptDown(buf: array<bv8>, p: nat, l: nat, seed: bv8, key: Chars, longState: bool) returns (csum: nat)
    requires p + l + 4 <= buf.Length && |key| <= BCRYPT_MAX_KEYLEN
    modifies buf
    ensures csum == FromBigEndian(old(buf[p + l..p + l + 4]))
    ensures buf[0..l] == Crypt(Seed(seed), key, old(buf[p..p + l]), longState)
    ensures buf[..] == Splice(old(buf[..]), 0, Crypt(Seed(seed), key, old(buf[p..p + l]), longState))
  {
    ghost var b0 := buf[..];
    ghost var data := Crypt(Seed(seed), key, buf[p..p + l], longState);
    SameSlice(buf, p + l, p + l + 4);
    BcryptBuf(Seed(seed), key, buf, p, buf, 0, l, longState);
    SpliceElsewhere(b0, 0, data, p + l, 4);
    SpliceAt(b0, 0, data);
    SameSlice(buf, p + l, p + l + 4);
    SameSlice(buf, 0, l);
    csum := GetBe32(buf, p + l);
  }

  method SameCsum(data: Bytes, csum: nat) returns (same: bool)
    requires |data| < WORD
    ensures same == (DataCsum(data) == csum)
  {
    var c := Crc.BuffaloCsum(|data| as bv32, data);
    same := c as int == csum;
  }

  /** The first half: reads the magic, the seed and both names. */
  method ReadNames(ep: EncParam, buf: array<bv8>, n: nat) returns (ok: bool, prodLen: nat, verLen: nat, p: nat)
    requires n <= buf.Length && ep.Shaped() && buf != ep.magic && buf != ep.product && buf != ep.version
    modifies ep`seed, ep.magic, ep.product, ep.version
    ensures n <= ENC_MAGIC_LEN || !MagicOk(buf[..ENC_MAGIC_LEN]) ==> !ok
    ensures n > ENC_MAGIC_LEN && MagicOk(buf[..ENC_MAGIC_LEN]) ==>
              match CutNames(buf[ENC_MAGIC_LEN + 1..n])
              case None => !ok
              case Some(m) =>
                && ok && p <= n && m.rest == buf[p..n] && prodLen == |m.product| && verLen == |m.version|
                && ep.magic[..] == buf[..ENC_MAGIC_LEN] && ep.seed == buf[ENC_MAGIC_LEN]
                && ep.product[..] == Over(m.product, old(ep.product[..]))
                && ep.version[..] == Over(m.version, old(ep.version[..]))
  {
    ok, prodLen, verLen, p := false, 0, 0, 0;
    if n < ENC_MAGIC_LEN || !MagicOk(buf[..ENC_MAGIC_LEN]) {
      return;
    }
    Put(ep.magic, 0, buf[..ENC_MAGIC_LEN]);
    if n - ENC_MAGIC_LEN < 1 {
      return;
    }
    ep.seed := buf[ENC_MAGIC_LEN];
    ok, prodLen, verLen, p := ReadFields(buf, n, ENC_MAGIC_LEN + 1, ep.product, ep.version);
  }

  /** Both names were read over what the fields held. */
  predicate NamesRead(r: Option<Names>, ok: bool, prodLen: nat, verLen: nat, rest: Bytes,
                      product0: Bytes, version0: Bytes, product: Bytes, version: Bytes)
  {
    match r
    case None => !ok
    case Some(m) =>
      && ok && m.rest == rest && prodLen == |m.product| && verLen == |m.version|
      && product == Over(m.product, product0) && version == Over(m.version, version0)
  }

  method ReadFields(buf: array<bv8>, n: nat, start: nat, product: array<bv8>, version: array<bv8>)
    returns (ok: bool, prodLen: nat, verLen: nat, p: nat)
    requires start <= n <= buf.Length && buf != product && buf != version
    requires product.Length == ENC_PRODUCT_LEN && version.Length == ENC_VERSION_LEN
    modifies product, version
    ensures p <= n && NamesRead(CutNames(buf[start..n]), ok, prodLen, verLen, buf[p..n],
                                old(product[..]), old(version[..]), product[..], version[..])
  {
    ok, prodLen, verLen, p := false, 0, 0, start;
    ghost var b, product0, version0 := buf[start..n], product[..], version[..];
    ghost var r1, r2 := CutField(b, ENC_PRODUCT_LEN), None;
    var l := ReadField(buf, n, start, product);
    if l.Some? {
      ghost var product1 := product[..];
      r2 := CutField(r1.value.rest, ENC_VERSION_LEN);
      var m, q := ReadVersion(buf, n, start + 4 + l.value, version);
      assert product[..] == product1;
      if m.Some? {
        ok, prodLen, verLen, p := true, l.value, m.value, q;
      }
    }
    NamesReadIs(b, r1, r2, ok, prodLen, verLen, buf[p..n], product0, version0, product[..], version[..]);
  }

  lemma NamesReadIs(b: Bytes, r1: Option<Cut>, r2: Option<Cut>, ok: bool, prodLen: nat, verLen: nat, rest: Bytes,
                    product0: Bytes, version0: Bytes, product: Bytes, version: Bytes)
    requires r1 == CutField(b, ENC_PRODUCT_LEN) && (r1.Some? ==> r2 == CutField(r1.value.rest, ENC_VERSION_LEN))
    requires ok == (r1.Some? && r2.Some?)
    requires ok ==> && rest == r2.value.rest && prodLen == |r1.value.field| && verLen == |r2.value.field|
                    && product == Over(r1.value.field, product0) && version == Over(r2.value.field, version0)
    ensures NamesRead(CutNames(b), ok, prodLen, verLen, rest, product0, version0, product, version)
  {}

  method ReadVersion(buf: array<bv8>, n: nat, p: nat, version: array<bv8>) returns (len: Option<nat>, p': nat)
    requires p <= n <= buf.Length && buf != version && version.Length == ENC_VERSION_LEN
    modifies version
    ensures p' <= n
    ensures match CutField(buf[p..n], ENC_VERSION_LEN)
            case None => len == None
            case Some(c) => len == Some(|c.field|) && version[..] == Over(c.field, old(version[..]))
                            && c.rest == buf[p'..n]
  {
    len := ReadField(buf, n, p, version);
    p' := if len.Some? then p + 4 + len.value else p;
  }

  lemma OverFront(x: Bytes, y: Bytes)
    requires |x| <= |y|
    ensures Over(x, y)[..|x|] == x && Over(x, y) == Splice(y, 0, x)
  {}

  /** The parameters hold everything but the data of an opened container. */
  predicate Restored(ep: EncParam, o: Opened)
    reads ep, ep.magic, ep.product, ep.version
  {
    && ep.magic[..] == o.magic && ep.seed == o.seed && ep.product[..] == o.product && ep.version[..] == o.version
    && ep.csum == o.csum && ep.dataLen == |o.data|
  }

  /** Decrypts both names in place, which completes the parameters. */
  method DecryptNames(ep: EncParam, prodLen: nat, verLen: nat, ghost m: Names, ghost o: Opened)
    requires ep.Shaped() && |ep.key| <= BCRYPT_MAX_KEYLEN
    requires prodLen == |m.product| <= ENC_PRODUCT_LEN && verLen == |m.version| <= ENC_VERSION_LEN
    requires ep.product[0..0 + prodLen] == m.product && ep.version[0..0 + verLen] == m.version
    requires o.magic == ep.magic[..] && o.seed == ep.seed && o.csum == ep.csum && |o.data| == ep.dataLen
    requires o.version == Over(Crypt(Seed(ep.product[0]), ep.key, m.version, ep.longState), ep.version[..])
    requires o.product == Over(Crypt(Seed(ep.seed), ep.key, m.product, ep.longState), ep.product[..])
    modifies ep.product, ep.version
    ensures Restored(ep, o)
  {
    DecryptName(ep.version, verLen, ep.product[0], ep.key, ep.longState, m.version);
    DecryptName(ep.product, prodLen, ep.seed, ep.key, ep.longState, m.product);
  }

  method DecryptName(name: array<bv8>, len: nat, seed: bv8, key: Chars, longState: bool, ghost text: Bytes)
    requires |key| <= BCRYPT_MAX_KEYLEN && len <= name.Length && name[0..0 + len] == text
    modifies name
    ensures name[..] == Over(Crypt(Seed(seed), key, text, longState), old(name[..]))
  {
    OverFront(Crypt(Seed(seed), key, text, longState), name[..]);
    BcryptBuf(Seed(seed), key, name, 0, name, 0, len, longState);
  }

  /** The rest of `decrypt_buf`, after the names were read. */
  method DecryptAll(ep: EncParam, buf: array<bv8>, n: nat, p: nat, ghost m: Names, prodLen: nat, verLen: nat,
                    ghost product0: Bytes, ghost version0: Bytes)
    returns (ok: bool)
    requires p <= n <= buf.Length && ep.Shaped() && |ep.key| <= BCRYPT_MAX_KEYLEN
    requires buf != ep.magic && buf != ep.product && buf != ep.version
    requires |product0| == ENC_PRODUCT_LEN && |version0| == ENC_VERSION_LEN
    requires prodLen == |m.product| <= ENC_PRODUCT_LEN && verLen == |m.version| <= ENC_VERSION_LEN
    requires ep.product[..] == Over(m.product, product0) && ep.version[..] == Over(m.version, version0)
    modifies ep`dataLen, ep`csum, ep.product, ep.version, buf
    ensures match CutData(old(buf[..])[p..n])
            case None => !ok
            case Some(d) =>
              match Decrypted(old(ep.magic[..]), ep.seed, m, d, ep.key, ep.longState, product0, version0)
              case None => !ok
              case Some(o) =>
                ok && Restored(ep, o) && |o.data| <= buf.Length && buf[..] == Splice(old(buf[..]), 0, o.data)
  {
    var dataLen, csum;
    ok, dataLen, csum := ReadData(buf, n, p, ep.version[0], ep.key, ep.longState);
    ep.dataLen, ep.csum := dataLen, csum;
    ghost var r := CutData(old(buf[..])[p..n]);
    if r.Some? {
      DecryptedIs(ep.magic[..], ep.seed, m, r.value, ep.key, ep.longState, product0, version0, ok, dataLen, csum,
                  old(buf[..]), buf[..]);
    }
    if ok {
      FieldFront(ep.product, m.product, product0);
      FieldFront(ep.version, m.version, version0);
      DecryptNames(ep, prodLen, verLen, m,
                   Decrypted(ep.magic[..], ep.seed, m, r.value, ep.key, ep.longState, product0, version0).value);
    }
  }

  lemma FieldFront(a: array<bv8>, x: Bytes, y: Bytes)
    requires |x| <= |y| && a[..] == Over(x, y)
    ensures a.Length == |y| && a[0..0 + |x|] == x
  {
    OverFront(x, y);
  }

  lemma DecryptedIs(magic: Bytes, seed: bv8, m: Names, d: Data, key: Chars, longState: bool, product0: Bytes,
                    version0: Bytes, ok: bool, dataLen: nat, csum: nat, b0: Bytes, b: Bytes)
    requires |product0| == ENC_PRODUCT_LEN && |version0| == ENC_VERSION_LEN
    requires |m.product| <= ENC_PRODUCT_LEN && |m.version| <= ENC_VERSION_LEN
    requires DataRead(Some(d), ok, dataLen, csum, Over(m.version, version0)[0], key, longState, b0, b)
    ensures var product := Over(m.product, product0);
            var version := Over(m.version, version0);
            var data := Crypt(Seed(version[0]), key, d.data, longState);
            && Decrypted(magic, seed, m, d, key, longState, product0, version0)
            == (if ok then Some(Opened(magic, seed, Over(Crypt(Seed(seed), key, m.product, longState), product),
                                       Over(Crypt(Seed(product[0]), key, m.version, longState), version), csum, data))
                else None)
            && |data| == dataLen <= |b0| && b == Splice(b0, 0, data)
  {}

  lemma OpenIs(b: Bytes, n: nat, key: Chars, longState: bool, product0: Bytes, version0: Bytes)
    requires n <= |b| && |product0| == ENC_PRODUCT_LEN && |version0| == ENC_VERSION_LEN
    ensures Open(b[..n], key, longState, product0, version0)
         == if n <= ENC_MAGIC_LEN || !MagicOk(b[..ENC_MAGIC_LEN]) then None
            else
              match CutNames(b[ENC_MAGIC_LEN + 1..n])
              case None => None
              case Some(m) =>
                match CutData(m.rest)
                case None => None
                case Some(d) =>
                  Decrypted(b[..ENC_MAGIC_LEN], b[ENC_MAGIC_LEN], m, d, key, longState, product0, version0)
  {
    if n > ENC_MAGIC_LEN {
      assert b[..n][..ENC_MAGIC_LEN] == b[..ENC_MAGIC_LEN] && b[..n][ENC_MAGIC_LEN + 1..] == b[ENC_MAGIC_LEN + 1..n];
    }
  }

  /** `decrypt_buf` opens the container in the first n bytes of the buffer: the data ends up at the
      start of the buffer and everything else in the parameters. */
  method DecryptBuf(ep: EncParam, buf: array<bv8>, n: nat) returns (ok: bool)
    requires n <= buf.Length && ep.Shaped() && |ep.key| <= BCRYPT_MAX_KEYLEN
    requires buf != ep.magic && buf != ep.product && buf != ep.version
    modifies ep, ep.magic, ep.product, ep.version, buf
    ensures match Open(old(buf[..])[..n], ep.key, ep.longState, old(ep.product[..]), old(ep.version[..]))
            case None => !ok
            case Some(o) =>
              ok && Restored(ep, o) && |o.data| <= buf.Length && buf[..] == Splice(old(buf[..]), 0, o.data)
  {
    ghost var b0, product0, version0 := buf[..], ep.product[..], ep.version[..];
    OpenIs(b0, n, ep.key, ep.longState, product0, version0);
    var prodLen, verLen, p;
    ok, prodLen, verLen, p := ReadNames(ep, buf, n);
    if ok {
      ghost var m := CutNames(b0[ENC_MAGIC_LEN + 1..n]).value;
      SameSlice(buf, ENC_MAGIC_LEN + 1, n);
      SameSlice(buf, p, n);
      ok := DecryptAll(ep, buf, n, p, m, prodLen, verLen, product0, version0);
    }
  }

  lemma {:induction false} CStringShorter(b: Bytes)
    requires 0 in b
    ensures |CString(b)| < |b|
  {
    if b[0] != 0 {
      assert b == [b[0]] + b[1..];
      CStringShorter(b[1..]);
    }
  }

  lemma {:induction false} CStringNoZero(b: Bytes)
    ensures 0 !in CString(b)
  {
    if b != [] && b[0] != 0 { CStringNoZero(b[1..]); }
  }

  lemma CStringOver(b: Bytes, old_: Bytes)
    requires |CString(b)| < |old_|
    ensures CString(Over(CString(b) + [0], old_)) == CString(b)
  {
    CStringNoZero(b);
    var x, y := CString(b), Over(CString(b) + [0], old_);
    assert forall i :: 0 <= i < |x| ==> y[i] == x[i] && x[i] in x;
    CStringIs(y, |x|);
  }

  method HeaderSize(ep: EncParam) returns (n: nat)
    requires ep.Shaped() && ep.Strings()
    ensures n == HeaderLen(ep.View().product, ep.View().version)
  {
    var p := StrLen(ep.product);
    var v := StrLen(ep.version);
    n := ENC_MAGIC_LEN + 1 + p + 1 + v + 1 + 3 * 4;
  }

  /** `encrypt_buf` on a buffer of the size of the file: header, encrypted data, padding. */
  method MakeContainer(ep: EncParam, buf: array<bv8>, at: nat, ghost v: Params, ghost data: Bytes)
    returns (ghost pad: Bytes)
    requires ep.Shaped() && ep.Strings() && |ep.key| <= BCRYPT_MAX_KEYLEN && v == ep.View()
    requires ep.dataLen < WORD && ep.csum < WORD
    requires at == HeaderLen(v.product, v.version) && buf.Length == BufLen(v.product, v.version, ep.dataLen)
    requires data == buf[at..at + ep.dataLen]
    requires buf != ep.magic && buf != ep.product && buf != ep.version
    modifies buf
    ensures buf[..] == Header(v, |data|) + Body(v, data, ep.csum) + pad
  {
    pad := ContainerBytes(v, buf[..], data, ep.csum, at);
    EncryptBuf(ep, buf, 0, at);
  }

  lemma ContainerBytes(v: Params, b0: Bytes, data: Bytes, csum: nat, at: nat) returns (pad: Bytes)
    requires |v.magic| == ENC_MAGIC_LEN - 1 && |b0| == BufLen(v.product, v.version, |data|)
    requires at == HeaderLen(v.product, v.version)
    ensures at + |data| + 4 < |b0|
    ensures |Header(v, |data|)| == at && |Body(v, data, csum)| == |data| + 4
    ensures Splice(Splice(b0, 0, Header(v, |data|)), at, Body(v, data, csum))
         == Header(v, |data|) + Body(v, data, csum) + pad
  {
    HeaderLenExact(v, |data|);
    FileIsContainer(v, b0, data, csum);
    pad := b0[|Header(v, |data|)| + |Body(v, data, csum)|..];
  }

  /** `decrypt_buf` on a container that was made from the strings v and the data. */
  method OpenContainer(dp: EncParam, buf: array<bv8>, ghost v: Params, ghost data: Bytes, ghost csum: nat,
                       ghost pad: Bytes)
    returns (ok: bool)
    requires dp.Shaped() && dp.key == v.key && dp.longState == v.longState && |dp.key| <= BCRYPT_MAX_KEYLEN
    requires |v.magic| == ENC_MAGIC_LEN - 1 && |v.product| < ENC_PRODUCT_LEN && |v.version| < ENC_VERSION_LEN
    requires |data| < WORD && csum < WORD && buf[..] == Header(v, |data|) + Body(v, data, csum) + pad
    requires buf != dp.magic && buf != dp.product && buf != dp.version
    modifies buf, dp, dp.magic, dp.product, dp.version
    ensures ok == (MagicOk(v.magic + [0]) && DataCsum(data) == csum)
    ensures ok ==> Restored(dp, Opened(v.magic + [0], v.seed, Over(v.product + [0], old(dp.product[..])),
                                       Over(v.version + [0], old(dp.version[..])), csum, data))
    ensures ok ==> |data| <= buf.Length && buf[..|data|] == data
  {
    RoundTrip(v, data, csum, pad, dp.product[..], dp.version[..]);
    assert buf[..][..buf.Length] == buf[..];
    ok := DecryptBuf(dp, buf, buf.Length);
  }

  /** Makes a container of the data in the buffer, and opens it there with the same key: it opens
      exactly if the magic is one of the two and the checksum is that of the data, and then all of
      it is back. */
  method EncryptDecrypt(ep: EncParam, dp: EncParam, buf: array<bv8>, ghost v: Params, ghost data: Bytes,
                        ghost csum: nat)
    returns (ok: bool)
    requires ep.Shaped() && ep.Strings() && |ep.key| <= BCRYPT_MAX_KEYLEN
    requires dp.Shaped() && dp.key == ep.key && dp.longState == ep.longState
    requires ep.dataLen < WORD && ep.csum < WORD && v == ep.View() && csum == ep.csum
    requires buf.Length == BufLen(v.product, v.version, ep.dataLen)
    requires data == buf[HeaderLen(v.product, v.version)..][..ep.dataLen]
    requires buf != ep.magic && buf != ep.product && buf != ep.version
    requires buf != dp.magic && buf != dp.product && buf != dp.version
    modifies buf, dp, dp.magic, dp.product, dp.version
    ensures ok == (MagicOk(v.magic + [0]) && DataCsum(data) == csum)
    ensures ok ==> && dp.magic[..] == v.magic + [0] && dp.seed == v.seed
                   && CString(dp.product[..]) == v.product && CString(dp.version[..]) == v.version
                   && dp.csum == csum && dp.dataLen == |data| <= buf.Length && buf[..dp.dataLen] == data
  {
    var at := HeaderSize(ep);
    ghost var product, version := ep.product[..], ep.version[..];
    CStringShorter(product);
    CStringShorter(version);
    CStringOver(product, dp.product[..]);
    CStringOver(version, dp.version[..]);
    ghost var pad := MakeContainer(ep, buf, at, v, data);
    ok := OpenContainer(dp, buf, v, data, csum, pad);
  }
}
