/** The bytes of a Buffalo container, at their offsets. */
module ContainerLayout {
  import opened Cipher
  import opened Container

  /** The four bytes at q, highest first. */
  function WordAt(b: Bytes, q: nat): nat
    requires q + 4 <= |b|
  {
    b[q] as int * 0x100_0000 + b[q + 1] as int * 0x1_0000 + b[q + 2] as int * 0x100 + b[q + 3] as int
  }

  lemma WordAtIs(b: Bytes, q: nat, v: nat)
    requires q + 4 <= |b| && b[q..q + 4] == Be32(v) && v < WORD
    ensures WordAt(b, q) == v
  {
    Be32Twice(v);
    FourBytes(b[q..q + 4]);
  }

  /** The bytes from q on, decrypted with byte s of the container as the seed. */
  function Plain(b: Bytes, s: nat, q: nat, n: nat, key: Chars, longState: bool): (r: Bytes)
    requires s < |b| && q + n <= |b|
    ensures |r| == n
  {
    Crypt(b[s] as int, key, b[q..q + n], longState)
  }

  /** A part of b that was encrypted with the seed at s. */
  lemma PlainIs(b: Bytes, s: nat, q: nat, x: Bytes, key: Chars, longState: bool)
    requires s < |b| && q + |x| <= |b| && b[q..q + |x|] == Crypt(b[s] as int, key, x, longState)
    ensures Plain(b, s, q, |x|, key, longState) == x
  {
    CryptTwice(b[s] as int, key, x, longState);
  }

  /** Where three encrypted parts stand behind a magic and a seed, each behind its length, with a last
      word. */
  predicate Placed(b: Bytes, m: Bytes, s: bv8, x: Bytes, y: Bytes, d: Bytes, c: Bytes) {
    var v := 11 + |x|;
    var t := v + 8 + |y|;
    && |b| == t + |d| + 4 && x != [] && y != [] && b[..6] == m && b[6] == s
    && b[7..11] == Be32(|x|) && b[11..v] == x && b[v..v + 4] == Be32(|y|)
    && b[v + 4..v + 4 + |y|] == y && b[v + 4 + |y|..t] == Be32(|d|) && b[t..t + |d|] == d
    && b[t + |d|..t + |d| + 4] == c
  }

  lemma Offsets(m: Bytes, s: bv8, x: Bytes, y: Bytes, n: Bytes, d: Bytes, c: Bytes, b: Bytes)
    requires |m| == 6 && |n| == 4 && |c| == 4 && x != [] && y != [] && n == Be32(|d|)
    requires b == m + [s] + (Be32(|x|) + x) + (Be32(|y|) + y) + n + (d + c)
    ensures Placed(b, m, s, x, y, d, c)
  {}

  /** The numbers of a container, after parts of n, k and len bytes. */
  predicate Numbers(b: Bytes, n: nat, k: nat, len: nat, csum: nat) {
    && |b| == 19 + n + k + len + 4 && WordAt(b, 7) == n && WordAt(b, 11 + n) == k
    && WordAt(b, 15 + n + k) == len && WordAt(b, 19 + n + k + len) == csum
  }

  /** The text x stands encrypted at q, with the seed at s. */
  predicate TextAt(b: Bytes, s: nat, q: nat, x: Bytes, key: Chars, longState: bool) {
    s < |b| && q + |x| <= |b| && Plain(b, s, q, |x|, key, longState) == x
  }

  lemma NumbersIn(b: Bytes, m: Bytes, s: bv8, x: Bytes, y: Bytes, d: Bytes, csum: nat)
    requires Placed(b, m, s, x, y, d, Be32(csum))
    requires |x| < WORD && |y| < WORD && |d| < WORD && csum < WORD
    ensures Numbers(b, |x|, |y|, |d|, csum)
  {
    WordAtIs(b, 7, |x|);
    WordAtIs(b, 11 + |x|, |y|);
    WordAtIs(b, 15 + |x| + |y|, |d|);
    WordAtIs(b, 19 + |x| + |y| + |d|, csum);
  }

  lemma FirstOf(b: Bytes, q: nat, n: nat, x: Bytes)
    requires q + n <= |b| && b[q..q + n] == x && x != []
    ensures b[q] == x[0]
  {}

  /** The encrypted part e of b, with its seed. */
  lemma TextIn(b: Bytes, s: nat, q: nat, seed: bv8, e: Bytes, x: Bytes, key: Chars, longState: bool)
    requires s < |b| && b[s] == seed && q + |e| <= |b| && b[q..q + |e|] == e
    requires e == Crypt(seed as int, key, x, longState)
    ensures TextAt(b, s, q, x, key, longState)
  {
    PlainIs(b, s, q, x, key, longState);
  }

  /** Where the parts stand, and that their first bytes are seeds. */
  lemma PartsAt(b: Bytes, m: Bytes, s: bv8, x: Bytes, y: Bytes, d: Bytes, c: Bytes)
    requires Placed(b, m, s, x, y, d, c)
    ensures |b| >= 19 + |x| + |y| + |d| && b[6] == s && b[11] == x[0] && b[15 + |x|] == y[0]
    ensures b[11..11 + |x|] == x && b[15 + |x|..15 + |x| + |y|] == y
    ensures b[19 + |x| + |y|..19 + |x| + |y| + |d|] == d
  {
    FirstOf(b, 11, |x|, x);
    FirstOf(b, 15 + |x|, |y|, y);
  }

  /** The parts of a container where they belong. */
  lemma ContainerPlaced(p: Params, data: Bytes, csum: nat, b: Bytes)
    requires |p.magic| == ENC_MAGIC_LEN - 1 && b == Header(p, |data|) + Body(p, data, csum)
    ensures Placed(b, p.magic + [0], p.seed, CryptProduct(p), CryptVersion(p), CryptData(p, data), Be32(csum))
  {
    Offsets(p.magic + [0], p.seed, CryptProduct(p), CryptVersion(p), Be32(|data|), CryptData(p, data), Be32(csum), b);
  }

  /** A container starts with the magic, its zero and the seed; the product, the version and the data stand
      behind their lengths; and at the end there is the checksum. */
  lemma LayoutNumbers(p: Params, data: Bytes, csum: nat, b: Bytes)
    requires |p.magic| == ENC_MAGIC_LEN - 1 && |data| < WORD && csum < WORD
    requires |p.product| + 1 < WORD && |p.version| + 1 < WORD
    requires b == Header(p, |data|) + Body(p, data, csum)
    ensures Numbers(b, |p.product| + 1, |p.version| + 1, |data|, csum)
    ensures b[..6] == p.magic + [0] && b[6] == p.seed
  {
    ContainerPlaced(p, data, csum, b);
    NumbersIn(b, p.magic + [0], p.seed, CryptProduct(p), CryptVersion(p), CryptData(p, data), csum);
  }

  /** The product is encrypted with the seed. */
  lemma LayoutProduct(p: Params, data: Bytes, csum: nat, b: Bytes)
    requires |p.magic| == ENC_MAGIC_LEN - 1 && b == Header(p, |data|) + Body(p, data, csum)
    ensures TextAt(b, 6, 11, p.product + [0], p.key, p.longState)
  {
    var x, y, d := CryptProduct(p), CryptVersion(p), CryptData(p, data);
    ContainerPlaced(p, data, csum, b);
    PartsAt(b, p.magic + [0], p.seed, x, y, d, Be32(csum));
    TextIn(b, 6, 11, p.seed, x, p.product + [0], p.key, p.longState);
  }

  /** The version is encrypted with the first encrypted byte of the product. */
  lemma LayoutVersion(p: Params, data: Bytes, csum: nat, b: Bytes)
    requires |p.magic| == ENC_MAGIC_LEN - 1 && b == Header(p, |data|) + Body(p, data, csum)
    ensures TextAt(b, 11, 15 + |p.product| + 1, p.version + [0], p.key, p.longState)
  {
    var x, y, d := CryptProduct(p), CryptVersion(p), CryptData(p, data);
    ContainerPlaced(p, data, csum, b);
    PartsAt(b, p.magic + [0], p.seed, x, y, d, Be32(csum));
    TextIn(b, 11, 15 + |x|, x[0], y, p.version + [0], p.key, p.longState);
  }

  /** The data are encrypted with the first encrypted byte of the version. */
  lemma LayoutData(p: Params, data: Bytes, csum: nat, b: Bytes)
    requires |p.magic| == ENC_MAGIC_LEN - 1 && b == Header(p, |data|) + Body(p, data, csum)
    ensures TextAt(b, 15 + |p.product| + 1, 19 + |p.product| + 1 + |p.version| + 1, data, p.key, p.longState)
  {
    var x, y, d := CryptProduct(p), CryptVersion(p), CryptData(p, data);
    ContainerPlaced(p, data, csum, b);
    PartsAt(b, p.magic + [0], p.seed, x, y, d, Be32(csum));
    TextIn(b, 15 + |x|, 19 + |x| + |y|, y[0], d, data, p.key, p.longState);
  }
}
