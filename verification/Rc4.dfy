/** The cipher of the container against RC4: with the short state it is that cipher, with the seed as
    the first byte of the key. With a state as long as the text it is pinned by an example. */
module Rc4 {
  import opened Cipher

  // ----- RC4 -----

  type Byte = x: int | 0 <= x < 256

  function Mod256(a: nat): Byte { a % 256 }

  datatype Box = Box(i: Byte, j: Byte, s: seq<Byte>)

  function Exchanged(s: seq<Byte>, a: Byte, b: Byte): (t: seq<Byte>)
    requires |s| == 256
    ensures |t| == 256
  {
    s[a := s[b]][b := s[a]]
  }

  function KeyRound(k: nat, i: Byte, b: Box): (b': Box)
    requires |b.s| == 256
    ensures |b'.s| == 256
  {
    var j := Mod256(b.j + b.s[i] + k);
    Box(i, j, Exchanged(b.s, i, j))
  }

  /** The key schedule after i of its 256 rounds. */
  function Schedule(key: seq<Byte>, i: nat): (b: Box)
    requires key != [] && i <= 256
    ensures |b.s| == 256
  {
    if i == 0 then Box(0, 0, seq(256, x requires 0 <= x < 256 => x))
    else KeyRound(key[(i - 1) % |key|], i - 1, Schedule(key, i - 1))
  }

  function NextBox(b: Box): (b': Box)
    requires |b.s| == 256
    ensures |b'.s| == 256
  {
    var i := Mod256(b.i + 1);
    var j := Mod256(b.j + b.s[i]);
    Box(i, j, Exchanged(b.s, i, j))
  }

  /** The generator after n bytes. */
  function Generator(s: seq<Byte>, n: nat): (b: Box)
    requires |s| == 256
    ensures |b.s| == 256
  {
    if n == 0 then Box(0, 0, s) else NextBox(Generator(s, n - 1))
  }

  function Drawn(b: Box): Byte
    requires |b.s| == 256
  {
    b.s[Mod256(b.s[b.i] as nat + b.s[b.j] as nat)]
  }

  /** The key of the cipher: the seed and the key of the container. */
  function Whole(seed: Byte, key: seq<Byte>): (r: seq<Byte>)
    ensures r == [seed] + key && r != []
  {
    var s: seq<Byte> := [seed];
    s + key
  }

  /** Byte k of the key stream. */
  function StreamByte(key: seq<Byte>, k: nat): Byte
    requires key != []
  {
    Drawn(Generator(Schedule(key, 256).s, k + 1))
  }

  // ----- the same -----

  lemma ModIs256(a: nat)
    ensures Mod(a, 256) == Mod256(a)
  {
    var q := ModIsRemainder(a, 256);
  }

  lemma {:induction false} KeyIndexIs(m: nat, i: nat) returns (q: nat)
    requires m > 0
    ensures i == q * m + KeyIndex(m, i)
  {
    q := 0;
    if i > 0 {
      q := KeyIndexIs(m, i - 1);
      if KeyIndex(m, i - 1) + 1 == m {
        assert Mod(m, m) == 0;
        OneMore(q, m);
        q := q + 1;
      }
    }
  }

  lemma OneMore(q: nat, m: nat)
    ensures (q + 1) * m == q * m + m
  {}

  lemma RemainderIs(a: nat, m: nat, q: nat, r: nat)
    requires m > 0 && a == q * m + r && r < m
    ensures a % m == r
  {
    var p := a / m;
    assert a == p * m + a % m;
    if p < q { AtLeast(q - p, m, q, p); } else if q < p { AtLeast(p - q, m, p, q); }
  }

  lemma AtLeast(d: nat, m: nat, x: nat, y: nat)
    requires d > 0 && d == x - y
    ensures x * m >= y * m + m
  {
    assert x * m == y * m + d * m;
    assert d * m == (d - 1) * m + m;
  }

  lemma RoundIsSame(k: nat, i: Byte, b: Box)
    requires |b.s| == 256
    ensures var b' := KeyRound(k, i, b); Round(k, i, Mix(b.j, b.s)) == Mix(b'.j, b'.s)
  {
    assert b.j + k + b.s[i] == b.j + b.s[i] + k;
    ModIs256(b.j + b.s[i] + k);
  }

  lemma SameKey(key: seq<Byte>, i: nat)
    requires key != [] && i < 256
    ensures Repeated(key, 256)[i] == key[i % |key|]
  {
    var q := KeyIndexIs(|key|, i);
    RemainderIs(i, |key|, q, KeyIndex(|key|, i));
  }

  lemma {:induction false} SameSchedule(key: seq<Byte>, i: nat)
    requires key != [] && i <= 256
    ensures Scheduled(Identity(256), Repeated(key, 256), i) == Mix(Schedule(key, i).j, Schedule(key, i).s)
  {
    if i == 0 {
      assert Identity(256) == seq(256, x requires 0 <= x < 256 => x);
    } else {
      SameSchedule(key, i - 1);
      SameKey(key, i - 1);
      RoundIsSame(key[(i - 1) % |key|], i - 1, Schedule(key, i - 1));
    }
  }

  function CtxOf(b: Box): (c: Ctx)
    requires |b.s| == 256
    ensures Wf(c) && |c.state| == 256
  {
    Ctx(b.i, b.j, b.s)
  }

  lemma NextIsSame(b: Box)
    requires |b.s| == 256
    ensures Next(CtxOf(b)) == CtxOf(NextBox(b))
  {
    ModIs256(b.i + 1);
    ModIs256(b.j + b.s[Mod256(b.i + 1)]);
  }

  lemma {:induction false} SameGenerator(s: seq<Byte>, n: nat)
    requires |s| == 256
    ensures Run(CtxOf(Box(0, 0, s)), n) == CtxOf(Generator(s, n))
  {
    if n > 0 {
      SameGenerator(s, n - 1);
      NextIsSame(Generator(s, n - 1));
    }
  }

  lemma DrawnIsSame(b: Box)
    requires |b.s| == 256
    ensures KeyByte(CtxOf(b)) == Drawn(b)
  {
    ModIs256(b.s[b.i] as nat + b.s[b.j] as nat);
  }

  lemma {:induction false} KeystreamPrefix(c: Ctx, n: nat, k: nat)
    requires Wf(c) && c.state != [] && k <= n
    ensures Keystream(c, k) <= Keystream(c, n)
    decreases n
  {
    if k < n {
      KeystreamPrefix(c, n - 1, k);
      LongerPrefix(Keystream(c, k), Keystream(c, n - 1), KeyByte(Run(c, n)));
    }
  }

  lemma LongerPrefix(a: Chars, b: Chars, x: int)
    requires a <= b
    ensures a <= b + [x]
  {}

  lemma KeystreamAt(c: Ctx, n: nat, k: nat)
    requires Wf(c) && c.state != [] && k < n
    ensures Keystream(c, n)[k] == KeyByte(Run(c, k + 1))
  {
    KeystreamPrefix(c, n, k + 1);
    LastOf(Keystream(c, k), KeyByte(Run(c, k + 1)), Keystream(c, n));
  }

  lemma LastOf(a: Chars, x: int, b: Chars)
    requires a + [x] <= b
    ensures b[|a|] == x
  {
    assert (a + [x])[|a|] == x;
  }

  /** With the short state every byte is combined with that of the RC4 key stream. */
  lemma ShortIsRc4(seed: Byte, key: seq<Byte>, text: Bytes, k: nat)
    requires k < |text|
    ensures Crypt(seed, key, text, false)[k] == Xor(text[k], StreamByte(Whole(seed, key), k))
  {
    var c := Initial(seed, key, |text|, false);
    StartIsSame(seed, key, |text|);
    SameGenerator(Schedule(Whole(seed, key), 256).s, k + 1);
    DrawnIsSame(Generator(Schedule(Whole(seed, key), 256).s, k + 1));
    KeystreamAt(c, |text|, k);
  }

  lemma StartIsSame(seed: Byte, key: seq<Byte>, n: nat)
    ensures Initial(seed, key, n, false) == CtxOf(Box(0, 0, Schedule(Whole(seed, key), 256).s))
  {
    SameSchedule(Whole(seed, key), 256);
  }

  // ----- an example with the long state -----

  /** The key 1 3 mixes four values to 2 1 3 0. */
  lemma LongState(ks: Chars)
    requires ks == Repeated([1, 3], 4)
    ensures Scheduled([0, 1, 2, 3], ks, 4).state == [2, 1, 3, 0]
  {
    assert KeyIndex(2, 1) == 1 && KeyIndex(2, 2) == 0 && KeyIndex(2, 3) == 1;
    LongRound(1, 0, Mix(0, [0, 1, 2, 3]), 1, [1, 0, 2, 3]);
    LongRound(3, 1, Mix(1, [1, 0, 2, 3]), 0, [0, 1, 2, 3]);
    LongRound(1, 2, Mix(0, [0, 1, 2, 3]), 3, [0, 1, 3, 2]);
    LongRound(3, 3, Mix(3, [0, 1, 3, 2]), 0, [2, 1, 3, 0]);
    assert Scheduled([0, 1, 2, 3], ks, 1) == Mix(1, [1, 0, 2, 3]);
    assert Scheduled([0, 1, 2, 3], ks, 2) == Mix(0, [0, 1, 2, 3]);
    assert Scheduled([0, 1, 2, 3], ks, 3) == Mix(3, [0, 1, 3, 2]);
  }

  lemma LongRound(k: nat, i: nat, r: Mix, j: nat, s: Chars)
    requires |r.state| == 4 && i < 4 && 0 <= r.k && 0 <= r.state[i] && j == (r.k + k + r.state[i]) % 4
    requires s == Swapped(r.state, i, j)
    ensures Round(k, i, r) == Mix(j, s)
  {
    var q := ModIsRemainder(r.k + k + r.state[i], 4);
  }

  lemma ModIs4(a: nat)
    ensures Mod(a, 4) == a % 4
  {
    var q := ModIsRemainder(a, 4);
  }

  lemma LongNext(c: Ctx, i: nat, x: nat, d: Ctx)
    requires Wf(c) && |c.state| == 4 && i == (c.i + 1) % 4 && x == c.state[i]
    requires d == Ctx(i, (c.j + x) % 4, Swapped(c.state, i, (c.j + x) % 4))
    ensures Next(c) == d
  {
    ModIs4(c.i + 1);
    ModIs4(c.j + x);
  }

  lemma LongKey(d: Ctx, x: nat, y: nat, key: int)
    requires Wf(d) && |d.state| == 4 && x == d.state[d.i] && y == d.state[d.j] && key == d.state[(x + y) % 4]
    ensures KeyByte(d) == key
  {
    ModIs4(x + y);
  }

  /** One more byte of the stream. */
  lemma LongStep(c: Ctx, n: nat, b: Ctx, i: nat, x: nat, d: Ctx, y: nat, z: nat, ks: Chars, key: int)
    requires Wf(c) && c.state != [] && Run(c, n) == b && Keystream(c, n) == ks
    requires |b.state| == 4 && i == (b.i + 1) % 4 && x == b.state[i]
    requires d == Ctx(i, (b.j + x) % 4, Swapped(b.state, i, (b.j + x) % 4))
    requires y == d.state[d.i] && z == d.state[d.j] && key == d.state[(y + z) % 4]
    ensures Run(c, n + 1) == d && Keystream(c, n + 1) == ks + [key]
  {
    LongNext(b, i, x, d);
    LongKey(d, y, z, key);
  }

  lemma LongStream(c: Ctx)
    requires c == Ctx(0, 0, [2, 1, 3, 0])
    ensures Keystream(c, 4) == [3, 1, 3, 0]
  {
    var c1, c2, c3 := Ctx(1, 1, [2, 1, 3, 0]), Ctx(2, 0, [3, 1, 2, 0]), Ctx(3, 0, [0, 1, 2, 3]);
    LongStep(c, 0, c, 1, 1, c1, 1, 1, [], 3);
    LongStep(c, 1, c1, 2, 3, c2, 2, 3, [] + [3], 1);
    LongStep(c, 2, c2, 3, 0, c3, 3, 0, [] + [3] + [1], 3);
    LongStep(c, 3, c3, 0, 0, Ctx(0, 0, [0, 1, 2, 3]), 0, 0, [] + [3] + [1] + [3], 0);
  }

  /** Four bytes with seed 1 and key 3. */
  lemma LongExample()
    ensures Crypt(1, [3], [0x10, 0x20, 0x30, 0x40], true) == [0x13, 0x21, 0x33, 0x40]
  {
    assert Identity(4) == [0, 1, 2, 3] && [1] + [3] == [1, 3];
    LongState(Repeated([1, 3], 4));
    LongStream(Initial(1, [3], 4, true));
    LongText();
  }

  lemma LongText()
    ensures Xored([0x10, 0x20, 0x30, 0x40], [3, 1, 3, 0]) == [0x13, 0x21, 0x33, 0x40]
  {
    XorExample(0x10);
    XorExample(0x20);
    XorExample(0x30);
    XorExample(0x40);
  }

  lemma XorExample(x: bv8)
    ensures Xor(x, 0) == x && Xor(x, 1) == x ^ 1 && Xor(x, 3) == x ^ 3
  {}
}
