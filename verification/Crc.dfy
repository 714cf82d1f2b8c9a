/** The checksum of add_header (section 8 of RFC 1952), by table and bit by bit, and the checksum
    of the Buffalo container. */
module Crc {

  type Bytes = seq<bv8>

  // ----- division by a polynomial, in any register -----

  /** A register that holds a polynomial: addition, division by x without remainder, remainder. */
  datatype Register<!T> = Register(xor: (T, T) -> T, half: T -> T, odd: T -> bool)

  ghost predicate OddLaw<T(!new)>(r: Register<T>) {
    forall a, b :: r.odd(r.xor(a, b)) == (r.odd(a) != r.odd(b))
  }

  ghost predicate HalfLaw<T(!new)>(r: Register<T>) {
    forall a, b :: r.half(r.xor(a, b)) == r.xor(r.half(a), r.half(b))
  }

  ghost predicate Associative<T(!new)>(r: Register<T>) {
    forall a, b, c :: r.xor(r.xor(a, b), c) == r.xor(a, r.xor(b, c))
  }

  ghost predicate Commutative<T(!new)>(r: Register<T>) {
    forall a, b :: r.xor(a, b) == r.xor(b, a)
  }

  ghost predicate Cancelling<T(!new)>(r: Register<T>) {
    forall a, b :: r.xor(a, r.xor(a, b)) == b
  }

  ghost predicate Laws<T(!new)>(r: Register<T>) {
    OddLaw(r) && HalfLaw(r) && Associative(r) && Commutative(r) && Cancelling(r)
  }

  /** One bit of the division. */
  function Step<T>(r: Register<T>, poly: T, c: T): T {
    if r.odd(c) then r.xor(poly, r.half(c)) else r.half(c)
  }

  function Steps<T>(r: Register<T>, poly: T, c: T, n: nat): T {
    if n == 0 then c else Step(r, poly, Steps(r, poly, c, n - 1))
  }

  lemma StepLinear<T(!new)>(r: Register<T>, p: T, a: T, b: T)
    requires Laws(r)
    ensures Step(r, p, r.xor(a, b)) == r.xor(Step(r, p, a), Step(r, p, b))
  {
    var s, t := r.half(a), r.half(b);
    if r.odd(a) && r.odd(b) {
      assert r.xor(r.xor(p, s), r.xor(p, t)) == r.xor(r.xor(s, p), r.xor(p, t)) == r.xor(s, r.xor(p, r.xor(p, t)));
    } else if r.odd(b) {
      assert r.xor(s, r.xor(p, t)) == r.xor(r.xor(s, p), t) == r.xor(r.xor(p, s), t);
    }
  }

  lemma Regroup<T(!new)>(r: Register<T>, a: T, b: T, c: T, d: T)
    requires Laws(r)
    ensures r.xor(r.xor(a, b), r.xor(c, d)) == r.xor(r.xor(a, c), r.xor(b, d))
  {
    assert r.xor(b, r.xor(c, d)) == r.xor(r.xor(b, c), d) == r.xor(r.xor(c, b), d) == r.xor(c, r.xor(b, d));
  }

  /** Dividing a sum divides its parts. */
  lemma {:induction false} StepsLinear<T(!new)>(r: Register<T>, p: T, a: T, b: T, n: nat)
    requires Laws(r)
    ensures Steps(r, p, r.xor(a, b), n) == r.xor(Steps(r, p, a, n), Steps(r, p, b, n))
  {
    if n > 0 {
      StepsLinear(r, p, a, b, n - 1);
      StepLinear(r, p, Steps(r, p, a, n - 1), Steps(r, p, b, n - 1));
    }
  }

  /** The lowest n bits are zero. */
  predicate Even<T>(r: Register<T>, c: T, n: nat) {
    n == 0 || (!r.odd(c) && Even(r, r.half(c), n - 1))
  }

  function Halves<T>(r: Register<T>, c: T, n: nat): T {
    if n == 0 then c else Halves(r, r.half(c), n - 1)
  }

  lemma {:induction false} StepsFront<T>(r: Register<T>, p: T, c: T, n: nat)
    ensures Steps(r, p, c, n + 1) == Steps(r, p, Step(r, p, c), n)
  {
    if n > 0 { StepsFront(r, p, c, n - 1); }
  }

  /** Without remainders the register is only shifted. */
  lemma {:induction false} StepsShift<T>(r: Register<T>, p: T, c: T, n: nat)
    requires Even(r, c, n)
    ensures Steps(r, p, c, n) == Halves(r, c, n)
  {
    if n > 0 {
      StepsFront(r, p, c, n - 1);
      StepsShift(r, p, r.half(c), n - 1);
    }
  }

  // ----- 32-bit registers, lowest bit first -----

  function Xor(x: bv32, y: bv32): bv32 { x ^ y }

  function Half(x: bv32): bv32 { x >> 1 }

  function Odd(x: bv32): bool { x & 1 == 1 }

  function R(): Register<bv32> { Register(Xor, Half, Odd) }

  lemma OddXor(x: bv32, y: bv32)
    ensures ((x ^ y) & 1 == 1) == ((x & 1 == 1) != (y & 1 == 1))
  {}

  lemma HalfXor(x: bv32, y: bv32)
    ensures (x ^ y) >> 1 == (x >> 1) ^ (y >> 1)
  {}

  lemma OddLaw32()
    ensures OddLaw(R())
  {
    forall a, b ensures R().odd(R().xor(a, b)) == (R().odd(a) != R().odd(b)) { OddXor(a, b); }
  }

  lemma HalfLaw32()
    ensures HalfLaw(R())
  {
    forall a, b ensures R().half(R().xor(a, b)) == R().xor(R().half(a), R().half(b)) { HalfXor(a, b); }
  }

  lemma Associates(x: bv32, y: bv32, z: bv32)
    ensures (x ^ y) ^ z == x ^ (y ^ z)
  {}

  lemma Commutes(x: bv32, y: bv32)
    ensures x ^ y == y ^ x
  {}

  lemma Cancels(x: bv32, y: bv32)
    ensures x ^ (x ^ y) == y
  {}

  lemma Associative32()
    ensures Associative(R())
  {
    forall a, b, c ensures R().xor(R().xor(a, b), c) == R().xor(a, R().xor(b, c)) { Associates(a, b, c); }
  }

  lemma Commutative32()
    ensures Commutative(R())
  {
    forall a, b ensures R().xor(a, b) == R().xor(b, a) { Commutes(a, b); }
  }

  lemma Cancelling32()
    ensures Cancelling(R())
  {
    forall a, b ensures R().xor(a, R().xor(a, b)) == b { Cancels(a, b); }
  }

  lemma Laws32()
    ensures Laws(R())
  {
    OddLaw32();
    HalfLaw32();
    Associative32();
    Commutative32();
    Cancelling32();
  }

  // ----- a byte by table -----

  const BPB := 8

  function Wide(b: bv8): bv32 { b as bv32 }

  function Low(c: bv32): bv8 { (c & 0xff) as bv8 }

  function Upper(c: bv32): bv32 { c & 0xffffff00 }

  function Rest(c: bv32): bv32 { c >> 8 }

  lemma Parts(c: bv32, b: bv8)
    ensures Xor(c, Wide(b)) == Xor(Wide(Low(c) ^ b), Upper(c))
  {}

  /** The lowest n bits are ones. */
  predicate Ones(m: bv32, n: nat) { n == 0 || (Odd(m) && Ones(Half(m), n - 1)) }

  lemma EvenStep(u: bv32, m: bv32)
    requires u & m == 0 && Odd(m)
    ensures !Odd(u) && Half(u) & Half(m) == 0
  {}

  lemma {:induction false} EvenBelow(u: bv32, m: bv32, n: nat)
    requires u & m == 0 && Ones(m, n)
    ensures Even(R(), u, n)
  {
    if n > 0 {
      EvenStep(u, m);
      EvenBelow(Half(u), Half(m), n - 1);
    }
  }

  lemma ByteHalves(u: bv32)
    ensures Halves(R(), u, 8) == u >> 8
  {
    EightHalves(u);
  }

  lemma EightHalves(u: bv32)
    ensures Half(Half(Half(Half(Half(Half(Half(Half(u)))))))) == u >> 8
  {}

  lemma UpperBits(c: bv32)
    ensures Upper(c) & 0xff == 0 && Upper(c) >> 8 == Rest(c)
  {}

  lemma OnesByte()
    ensures Ones(0xff, 8)
  {}

  /** A register whose lowest byte is zero is only shifted. */
  lemma ByteShifts(poly: bv32, u: bv32, n: nat)
    requires n == BPB && u & 0xff == 0
    ensures Steps(R(), poly, u, n) == u >> 8
  {
    OnesByte();
    EvenBelow(u, 0xff, n);
    StepsShift(R(), poly, u, n);
    ByteHalves(u);
  }

  /** A register v that is a byte x plus a register u without a lowest byte: x is divided and u
      is shifted. */
  lemma PartsStep(poly: bv32, v: bv32, x: bv32, u: bv32, r: bv32, n: nat)
    requires n == BPB && v == Xor(x, u) && u & 0xff == 0 && u >> 8 == r
    ensures Steps(R(), poly, v, n) == Xor(Steps(R(), poly, x, n), r)
  {
    Laws32();
    StepsLinear(R(), poly, x, u, n);
    ByteShifts(poly, u, n);
  }

  /** One table lookup does eight bits. */
  lemma TableStep(poly: bv32, c: bv32, b: bv8, n: nat)
    requires n == BPB
    ensures Xor(Steps(R(), poly, Wide(Low(c) ^ b), n), Rest(c)) == Steps(R(), poly, Xor(c, Wide(b)), n)
  {
    Parts(c, b);
    UpperBits(c);
    PartsStep(poly, Xor(c, Wide(b)), Wide(Low(c) ^ b), Upper(c), Rest(c), n);
  }

  lemma IndexTwice(b: bv8)
    ensures 0 <= b as int < 256 && (b as int) as bv8 == b
  {}

  /** The checksum bit by bit, without the final complement. */
  function Serial(poly: bv32, c: bv32, data: Bytes): bv32 {
    if data == [] then c
    else Steps(R(), poly, Xor(Serial(poly, c, data[..|data| - 1]), Wide(data[|data| - 1])), BPB)
  }

  /** `ntohl(0x2083b8ed)` on a little-endian host. */
  const POLY: bv32 := 0xedb88320

  /** The bit that stands for x^n. */
  function Power(n: nat): bv32
    requires n < 32
  {
    0x80000000 >> n
  }

  /** x^26 + x^23 + x^22 + x^16 + x^12 + x^11 + x^10 + x^8 + x^7 + x^5 + x^4 + x^2 + x + 1, and x^32. */
  lemma PolyCoefficients()
    ensures POLY == Power(26) | Power(23) | Power(22) | Power(16) | Power(12) | Power(11) | Power(10) | Power(8)
                    | Power(7) | Power(5) | Power(4) | Power(2) | Power(1) | Power(0)
  {}

  lemma CheckStep(n: nat, c: bv32, was: bv32, now: bv32)
    requires Steps(R(), POLY, c, n) == was && now == if was & 1 == 1 then POLY ^ (was >> 1) else was >> 1
    ensures Steps(R(), POLY, c, n + 1) == now
  {}

  /** The checksum of the text "a". */
  lemma CheckValue()
    ensures !Serial(POLY, 0xffffffff, [0x61]) == 0xe8b7be43
  {
    var c: bv32 := 0xffffff9e;
    CheckStep(0, c, c, 0x7fffffcf);
    CheckStep(1, c, 0x7fffffcf, 0xd2477cc7);
    CheckStep(2, c, 0xd2477cc7, 0x849b3d43);
    CheckStep(3, c, 0x849b3d43, 0xaff51d81);
    CheckStep(4, c, 0xaff51d81, 0xba420de0);
    CheckStep(5, c, 0xba420de0, 0x5d2106f0);
    CheckStep(6, c, 0x5d2106f0, 0x2e908378);
    CheckStep(7, c, 0x2e908378, 0x174841bc);
    FirstByte(c);
  }

  lemma FirstByte(c: bv32)
    requires c == 0xffffff9e
    ensures Serial(POLY, 0xffffffff, [0x61]) == Steps(R(), POLY, c, BPB)
  {
    assert [0x61 as bv8][..0] == [];
    assert Serial(POLY, 0xffffffff, []) == 0xffffffff;
    FirstXor();
  }

  lemma FirstXor()
    ensures Xor(0xffffffff, Wide(0x61)) == 0xffffff9e
  {}

  /** The entry of the table for a byte. */
  function Entry(b: bv8, n: nat): bv32 { Steps(R(), POLY, Wide(b), n) }

  class Crc32 {
    const table: array<bv32>

    /** The first k entries are those for n bits. */
    ghost predicate Filled(k: int, n: nat)
      reads table
    {
      table.Length == 256 && k <= 256 && forall i :: 0 <= i < k ==> table[i] == Entry(i as bv8, n)
    }

    /** `init_crc32`. */
    constructor ()
      ensures Filled(256, BPB) && fresh(table)
    {
      table := new bv32[256];
      new;
      Fill(BPB);
    }

    method Fill(bits: nat)
      requires table.Length == 256
      modifies table
      ensures Filled(256, bits)
    {
      for n := 0 to 256
        invariant Filled(n, bits)
      {
        var crc := Divide(Wide(n as bv8), bits);
        table[n] := crc;
      }
    }

    /** The inner loop of `init_crc32`. */
    static method Divide(c: bv32, bits: nat) returns (crc: bv32)
      ensures crc == Steps(R(), POLY, c, bits)
    {
      crc := c;
      for bit := 0 to bits
        invariant crc == Steps(R(), POLY, c, bit)
      {
        crc := if Odd(crc) then Xor(POLY, Half(crc)) else Half(crc);
      }
    }

    /** `crc32buf` computes the bit-serial checksum of every sequence of bytes. */
    method Compute(buf: Bytes) returns (crc: bv32)
      requires Filled(256, BPB)
      ensures crc == !Serial(POLY, 0xffffffff, buf)
    {
      var c: bv32 := 0xffffffff;
      for i := 0 to |buf|
        invariant c == Serial(POLY, 0xffffffff, buf[..i])
      {
        SerialStep(POLY, 0xffffffff, buf, i);
        c := AddByte(c, buf[i], BPB);
      }
      assert buf[..|buf|] == buf;
      crc := !c;
    }

    method AddByte(c: bv32, b: bv8, bits: nat) returns (c': bv32)
      requires bits == BPB && Filled(256, bits)
      ensures c' == Steps(R(), POLY, Xor(c, Wide(b)), bits)
    {
      TableStep(POLY, c, b, bits);
      var entry := Lookup(Low(c) ^ b, bits);
      c' := Xor(entry, Rest(c));
    }

    method Lookup(index: bv8, ghost bits: nat) returns (entry: bv32)
      requires Filled(256, bits)
      ensures entry == Entry(index, bits)
    {
      IndexTwice(index);
      entry := table[index as int];
    }
  }

  lemma SerialStep(poly: bv32, c: bv32, data: Bytes, i: nat)
    requires i < |data|
    ensures Serial(poly, c, data[..i + 1]) == Steps(R(), poly, Xor(Serial(poly, c, data[..i]), Wide(data[i])), BPB)
  {
    assert data[..i + 1][..i] == data[..i];
  }

  // ----- the checksum of the container -----

  /** A plain char, which is signed, as a 32-bit word. */
  function SignExtended(b: bv8): bv32 { if b >= 0x80 then 0xffffff00 | Wide(b) else Wide(b) }

  /** `buffalo_csum`. */
  function Csum(c: bv32, data: Bytes): bv32 {
    if data == [] then c
    else Steps(R(), POLY, Xor(Csum(c, data[..|data| - 1]), SignExtended(data[|data| - 1])), BPB)
  }

  method BuffaloCsum(c: bv32, data: Bytes) returns (csum: bv32)
    ensures csum == Csum(c, data)
  {
    csum := c;
    for i := 0 to |data|
      invariant csum == Csum(c, data[..i])
    {
      assert data[..i + 1][..i] == data[..i];
      csum := Crc32.Divide(Xor(csum, SignExtended(data[i])), BPB);
    }
    assert data[..|data|] == data;
  }

  /** What sign extension adds to a byte. */
  function Sign(b: bv8): bv32 { if b >= 0x80 then 0xffffff00 else 0 }

  /** The signs alone, divided bit by bit. */
  function Signs(data: Bytes): bv32 {
    if data == [] then 0
    else Steps(R(), POLY, Xor(Signs(data[..|data| - 1]), Sign(data[|data| - 1])), BPB)
  }

  lemma SignParts(b: bv8)
    ensures SignExtended(b) == Xor(Wide(b), Sign(b))
  {}

  lemma SameXor(a: bv32, b: bv32)
    ensures Xor(a, b) == a <==> b == 0
  {}

  /** `buffalo_csum` is the bit-serial checksum plus what the signs of the bytes make of 0. */
  lemma {:induction false} CsumSum(c: bv32, data: Bytes)
    ensures Csum(c, data) == Xor(Serial(POLY, c, data), Signs(data))
  {
    if data == [] {
      SameXor(c, 0);
    } else {
      var d, b := data[..|data| - 1], data[|data| - 1];
      CsumSum(c, d);
      SignStep(Serial(POLY, c, d), Signs(d), b, BPB);
    }
  }

  lemma SignStep(c: bv32, g: bv32, b: bv8, n: nat)
    ensures Steps(R(), POLY, Xor(Xor(c, g), SignExtended(b)), n)
            == Xor(Steps(R(), POLY, Xor(c, Wide(b)), n), Steps(R(), POLY, Xor(g, Sign(b)), n))
  {
    SignParts(b);
    Laws32();
    Regroup(R(), c, g, Wide(b), Sign(b));
    StepsLinear(R(), POLY, Xor(c, Wide(b)), Xor(g, Sign(b)), n);
  }

  /** The checksum of the container is the bit-serial one, from any start, if and only if the
      signs of the bytes divide without remainder. */
  lemma CsumIsSerial(c: bv32, data: Bytes)
    ensures Csum(c, data) == Serial(POLY, c, data) <==> Signs(data) == 0
  {
    CsumSum(c, data);
    SameXor(Serial(POLY, c, data), Signs(data));
  }

  /** It is so if all bytes are below 0x80. */
  lemma {:induction false} UnsignedAgrees(data: Bytes)
    requires forall i :: 0 <= i < |data| ==> data[i] < 0x80
    ensures Signs(data) == 0
  {
    if data != [] {
      UnsignedAgrees(data[..|data| - 1]);
      ZeroShifts(BPB);
    }
  }

  lemma ZeroShifts(n: nat)
    requires n == BPB
    ensures Steps(R(), POLY, Xor(0, 0), n) == 0
  {
    ByteShifts(POLY, 0, n);
  }

  lemma StepNonzero(c: bv32)
    requires c != 0
    ensures Step(R(), POLY, c) != 0
  {
    HalfBelow(c);
  }

  lemma HalfBelow(c: bv32)
    requires c != 0
    ensures Xor(POLY, Half(c)) != 0 && (Odd(c) || Half(c) != 0)
  {}

  lemma {:induction false} StepsNonzero(c: bv32, n: nat)
    requires c != 0
    ensures Steps(R(), POLY, c, n) != 0
  {
    if n > 0 {
      StepsNonzero(c, n - 1);
      StepNonzero(Steps(R(), POLY, c, n - 1));
    }
  }

  /** It is never so if exactly one byte is 0x80 or more. */
  lemma {:induction false} OneSignDiffers(data: Bytes, k: nat)
    requires k < |data| && data[k] >= 0x80
    requires forall i :: 0 <= i < |data| && i != k ==> data[i] < 0x80
    ensures Signs(data) != 0
  {
    var d, b := data[..|data| - 1], data[|data| - 1];
    if k == |d| {
      UnsignedAgrees(d);
    } else {
      OneSignDiffers(d, k);
    }
    SignAdded(Signs(d), b);
    StepsNonzero(Xor(Signs(d), Sign(b)), BPB);
  }

  lemma SignAdded(g: bv32, b: bv8)
    ensures b < 0x80 ==> Xor(g, Sign(b)) == g
    ensures b >= 0x80 && g == 0 ==> Xor(g, Sign(b)) != 0
  {}

  /** A single byte from 0x80 on turns the lower three bytes of the checksum around. */
  lemma SignMatters(c: bv32, b: bv8, n: nat)
    requires b >= 0x80 && n == BPB
    ensures Steps(R(), POLY, Xor(c, SignExtended(b)), n) == Xor(Steps(R(), POLY, Xor(c, Wide(b)), n), 0x00ffffff)
  {
    SignParts(b);
    Associates(c, Wide(b), 0xffffff00);
    PartsStep(POLY, Xor(c, SignExtended(b)), Xor(c, Wide(b)), 0xffffff00, 0x00ffffff, n);
  }
}
