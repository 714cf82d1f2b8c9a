/** The stream cipher of the Buffalo firmware container: `bcrypt_init`, `bcrypt_process` and
    `bcrypt_buf`. */
module Cipher {

  type Bytes = seq<bv8>

  /** The values of unsigned chars. */
  type Chars = seq<int>

  const BCRYPT_DEFAULT_STATE_LEN := 256
  const BCRYPT_MAX_KEYLEN := 254

  /** The remainder of a division by a length that is not constant. Nothing negative is divided. */
  function Mod(a: int, n: nat): (r: nat)
    requires n > 0
    ensures r < n
    decreases a
  {
    if a < 0 then 0 else if a < n then a else Mod(a - n, n)
  }

  lemma {:induction false} ModIsRemainder(a: nat, n: nat) returns (q: nat)
    requires n > 0
    ensures a == q * n + Mod(a, n)
    decreases a
  {
    q := 0;
    if a >= n {
      q := ModIsRemainder(a - n, n);
      q := q + 1;
    }
  }

  /** `struct bcrypt_ctx`. */
  datatype Ctx = Ctx(i: int, j: int, state: Chars)

  /** An index fits an unsigned char and the state. */
  predicate Wf(c: Ctx) {
    0 <= c.i < 256 && 0 <= c.j < 256 && (c.state != [] ==> c.i < |c.state| && c.j < |c.state|)
  }

  /** The state at first; long states repeat the 256 byte values. */
  function Identity(n: nat): (s: Chars)
    ensures |s| == n
  {
    seq(n, i => i % 256)
  }

  function Swapped(s: Chars, a: nat, b: nat): (t: Chars)
    requires a < |s| && b < |s|
    ensures |t| == |s|
  {
    s[a := s[b]][b := s[a]]
  }

  /** The key byte of round i: the key is repeated. */
  function KeyIndex(m: nat, i: nat): (j: nat)
    requires m > 0
    ensures j < m
  {
    if i == 0 then 0 else Mod(KeyIndex(m, i - 1) + 1, m)
  }

  /** The key, repeated to n bytes. */
  function Repeated(key: Chars, n: nat): (r: Chars)
    requires key != []
    ensures |r| == n && forall i :: 0 <= i < n ==> r[i] == key[KeyIndex(|key|, i)]
  {
    seq(n, i requires 0 <= i < n => key[KeyIndex(|key|, i)])
  }

  /** The last position drawn by the key schedule, and the state. */
  datatype Mix = Mix(k: int, state: Chars)

  /** Round i of the key schedule, with key byte k. */
  function Round(k: int, i: nat, r: Mix): (r': Mix)
    requires i < |r.state| && 0 <= r.k
    ensures |r'.state| == |r.state| && 0 <= r'.k < |r.state|
  {
    var p := Mod(r.k + k + r.state[i], |r.state|);
    Mix(p, Swapped(r.state, i, p))
  }

  /** After i rounds with the given key bytes. */
  function Scheduled(s: Chars, keys: Chars, i: nat): (r: Mix)
    requires i <= |s| == |keys|
    ensures |r.state| == |s| && 0 <= r.k
  {
    if i == 0 then Mix(0, s) else Round(keys[i - 1], i - 1, Scheduled(s, keys, i - 1))
  }

  /** The state after the key schedule. */
  function Keyed(key: Chars, len: nat): (s: Chars)
    requires key != []
    ensures |s| == len
  {
    Scheduled(Identity(len), Repeated(key, len), len).state
  }

  function Next(c: Ctx): (c': Ctx)
    requires Wf(c) && c.state != []
    ensures Wf(c') && |c'.state| == |c.state|
  {
    var i := Mod(c.i + 1, |c.state|) % 256;
    var j := Mod(c.j + c.state[i], |c.state|) % 256;
    Ctx(i, j, Swapped(c.state, i, j))
  }

  /** The context after n bytes. */
  function Run(c: Ctx, n: nat): (c': Ctx)
    requires Wf(c) && (c.state != [] || n == 0)
    ensures Wf(c') && |c'.state| == |c.state|
  {
    if n == 0 then c else Next(Run(c, n - 1))
  }

  function KeyByte(c: Ctx): int
    requires Wf(c) && c.state != []
  {
    c.state[Mod(c.state[c.i] + c.state[c.j], |c.state|)]
  }

  /** The key bytes depend on nothing that is encrypted with them. */
  function Keystream(c: Ctx, n: nat): (s: Chars)
    requires Wf(c) && (c.state != [] || n == 0)
    ensures |s| == n
  {
    if n == 0 then [] else Keystream(c, n - 1) + [KeyByte(Run(c, n))]
  }

  function Xor(x: bv8, k: int): bv8 { x ^ ((k % 256) as bv8) }

  function Xored(x: Bytes, y: Chars): (z: Bytes)
    requires |x| == |y|
    ensures |z| == |x|
  {
    seq(|x|, i requires 0 <= i < |x| => Xor(x[i], y[i]))
  }

  /** The context at the start of a text of n bytes. */
  function Initial(seed: int, key: Chars, n: nat, longState: bool): (c: Ctx)
    ensures Wf(c) && (c.state != [] || n == 0)
  {
    var len := if longState then n else BCRYPT_DEFAULT_STATE_LEN;
    Ctx(0, 0, Keyed([seed] + key, len))
  }

  /** `bcrypt_buf` on values. */
  function Crypt(seed: int, key: Chars, text: Bytes, longState: bool): (r: Bytes)
    ensures |r| == |text|
  {
    Xored(text, Keystream(Initial(seed, key, |text|, longState), |text|))
  }

  lemma XorTwice(x: bv8, k: int)
    ensures Xor(Xor(x, k), k) == x
  {}

  /** Encrypting with the same seed and key decrypts, whatever the state length. */
  lemma CryptTwice(seed: int, key: Chars, text: Bytes, longState: bool)
    ensures Crypt(seed, key, Crypt(seed, key, text, longState), longState) == text
  {
    var k := Keystream(Initial(seed, key, |text|, longState), |text|);
    forall i | 0 <= i < |text| ensures Xored(Xored(text, k), k)[i] == text[i] {
      XorTwice(text[i], k[i]);
    }
  }

  // ----- the state is only rearranged -----

  predicate Holds(s: Chars, m: multiset<int>) { multiset(s) == m }

  lemma SwappedPermutes(s: Chars, a: nat, b: nat, m: multiset<int>)
    requires a < |s| && b < |s| && Holds(s, m)
    ensures Holds(Swapped(s, a, b), m)
  {}

  lemma SchedulePermutes(s: Chars, keys: Chars, i: nat, m: multiset<int>)
    requires i <= |s| == |keys| && Holds(s, m)
    ensures Holds(Scheduled(s, keys, i).state, m)
  {
    var r := Mix(0, s);
    for n := 0 to i
      invariant r == Scheduled(s, keys, n) && Holds(r.state, m)
    {
      var d := r;
      r := Round(keys[n], n, d);
      RoundPermutes(keys[n], n, d, m, r);
    }
  }

  lemma RoundPermutes(k: int, i: nat, r: Mix, m: multiset<int>, r': Mix)
    requires i < |r.state| && 0 <= r.k && Holds(r.state, m) && r' == Round(k, i, r)
    ensures Holds(r'.state, m)
  {
    SwappedPermutes(r.state, i, Round(k, i, r).k, m);
  }

  lemma NextPermutes(c: Ctx, c': Ctx, m: multiset<int>)
    requires Wf(c) && c.state != [] && Holds(c.state, m) && c' == Next(c)
    ensures Holds(c'.state, m)
  {
    SwappedPermutes(c.state, c'.i, c'.j, m);
  }

  lemma RunPermutes(c: Ctx, n: nat, m: multiset<int>)
    requires Wf(c) && (c.state != [] || n == 0) && Holds(c.state, m)
    ensures Holds(Run(c, n).state, m)
  {
    var r := c;
    for k := 0 to n
      invariant r == Run(c, k) && Holds(r.state, m)
    {
      var d := r;
      r := Next(d);
      NextPermutes(d, r, m);
    }
  }

  /** At every byte of every text the state is a rearrangement of what it was made from. */
  lemma StatePermutes(seed: int, key: Chars, n: nat, longState: bool, k: nat)
    requires k <= n
    ensures Holds(Run(Initial(seed, key, n, longState), k).state,
                  multiset(Identity(if longState then n else BCRYPT_DEFAULT_STATE_LEN)))
  {
    var len := if longState then n else BCRYPT_DEFAULT_STATE_LEN;
    SchedulePermutes(Identity(len), Repeated([seed] + key, len), len, multiset(Identity(len)));
    RunPermutes(Initial(seed, key, n, longState), k, multiset(Identity(len)));
  }

  /** So all of its values fit a byte. */
  lemma StateBytes(seed: int, key: Chars, n: nat, longState: bool, k: nat, v: int)
    requires k <= n && v in Run(Initial(seed, key, n, longState), k).state
    ensures 0 <= v < 256
  {
    StatePermutes(seed, key, n, longState, k);
    assert v in multiset(Run(Initial(seed, key, n, longState), k).state);
    assert v in Identity(if longState then n else BCRYPT_DEFAULT_STATE_LEN);
  }

  // ----- the cipher in memory -----

  /** b with the bytes from off on replaced. */
  function Splice(b: Bytes, off: nat, x: Bytes): (r: Bytes)
    requires off + |x| <= |b|
    ensures |r| == |b|
  {
    b[..off] + x + b[off + |x|..]
  }

  class Bcrypt {
    var i: int
    var j: int
    const state: array<int>

    ghost function View(): Ctx
      reads this, state
    {
      Ctx(i, j, state[..])
    }

    /** `bcrypt_init`. */
    constructor (key: Chars, stateLen: nat)
      requires key != []
      ensures fresh(state) && View() == Ctx(0, 0, Keyed(key, stateLen))
    {
      i, j := 0, 0;
      state := new int[stateLen](n => n % 256);
      new;
      assert state[..] == Identity(stateLen);
      Schedule(key);
    }

    /** The key schedule. */
    method Schedule(key: Chars)
      requires key != [] && state[..] == Identity(state.Length)
      modifies state
      ensures state[..] == Keyed(key, state.Length)
    {
      var n, m, k := 0, 0, 0;
      ghost var s, keys := state[..], Repeated(key, state.Length);
      while n < state.Length
        invariant n <= state.Length && m == KeyIndex(|key|, n)
        invariant Mix(k, state[..]) == Scheduled(s, keys, n)
      {
        k := DoRound(key[m], n, k);
        n, m := n + 1, Mod(m + 1, |key|);
      }
    }

    /** One round of the key schedule. */
    method DoRound(b: int, n: nat, k: nat) returns (k': nat)
      requires n < state.Length
      modifies state
      ensures Mix(k', state[..]) == Round(b, n, Mix(k, old(state[..])))
    {
      var t := state[n];
      k' := Mod(k + b + t, state.Length);
      state[n] := state[k'];
      state[k'] := t;
    }

    /** One turn of the loop of `bcrypt_process`. */
    method Step() returns (b: int)
      requires Wf(View()) && state.Length > 0
      modifies this, state
      ensures View() == Next(old(View())) && b == KeyByte(View())
    {
      i := Mod(i + 1, state.Length) % 256;
      j := Mod(j + state[i], state.Length) % 256;
      var t := state[j];
      state[j] := state[i];
      state[i] := t;
      assert state[..] == Swapped(old(state[..]), i, j);
      b := state[Mod(state[i] + state[j], state.Length)];
    }

    /** k bytes of a text that stands at src[so..] were encrypted to dst[d..], where the rest of
        the text is still unchanged. */
    ghost predicate Progress(src: array<bv8>, so: nat, dst: array<bv8>, d: nat, k: nat,
                             was: Bytes, text: Bytes, c: Ctx)
      reads this, state, src, dst
    {
      && Wf(c) && (c.state != [] || text == []) && k <= |text| && View() == Run(c, k)
      && Processed(dst[..], was, d, text, c, k) && Left(src[..], so, text, k)
    }

    lemma ProgressStart(src: array<bv8>, so: nat, dst: array<bv8>, d: nat, was: Bytes, text: Bytes, c: Ctx)
      requires Wf(c) && c == View() && (c.state != [] || text == []) && was == dst[..]
      requires so + |text| <= src.Length && d + |text| <= dst.Length && text == src[so..so + |text|]
      ensures Progress(src, so, dst, d, 0, was, text, c)
    {
      ProcessedNone(was, d, text, c);
    }

    /** Encrypts byte k. */
    method PutByte(src: array<bv8>, so: nat, dst: array<bv8>, d: nat, k: nat,
                   ghost was: Bytes, ghost text: Bytes, ghost c: Ctx)
      requires Progress(src, so, dst, d, k, was, text, c) && k < |text|
      requires state as object != src as object && state as object != dst as object && (src == dst ==> d <= so)
      modifies this, state, dst
      ensures Progress(src, so, dst, d, k + 1, was, text, c)
    {
      ProcessedPush(dst[..], was, d, text, c, k);
      ghost var b0, s0 := dst[..], src[..];
      var b := Step();
      dst[d + k] := Xor(src[so + k], b);
      assert dst[..] == b0[d + k := Xor(text[k], KeyByte(Run(c, k + 1)))];
      assert src[..] == if src == dst then s0[d + k := dst[d + k]] else s0;
    }

    /** `bcrypt_process`. Source and destination may overlap, if the destination is not behind. */
    method Process(src: array<bv8>, so: nat, dst: array<bv8>, d: nat, len: nat)
      requires Wf(View()) && (state.Length > 0 || len == 0)
      requires so + len <= src.Length && d + len <= dst.Length && (src == dst ==> d <= so)
      requires state as object != src as object && state as object != dst as object
      modifies this, state, dst
      ensures View() == Run(old(View()), len)
      ensures dst[..] == Splice(old(dst[..]), d, Xored(old(src[so..so + len]), Keystream(old(View()), len)))
    {
      ghost var c, text, was := View(), src[so..so + len], dst[..];
      ProcessAll(src, so, dst, d, len, was, text, c);
    }

    method ProcessAll(src: array<bv8>, so: nat, dst: array<bv8>, d: nat, len: nat,
                      ghost was: Bytes, ghost text: Bytes, ghost c: Ctx)
      requires Wf(c) && c == View() && (c.state != [] || text == []) && was == dst[..]
      requires so + len <= src.Length && d + len <= dst.Length && (src == dst ==> d <= so)
      requires text == src[so..so + len]
      requires state as object != src as object && state as object != dst as object
      modifies this, state, dst
      ensures View() == Run(c, len) && dst[..] == Splice(was, d, Xored(text, Keystream(c, len)))
    {
      var k := 0;
      ProgressStart(src, so, dst, d, was, text, c);
      while k < len
        invariant k <= len && Progress(src, so, dst, d, k, was, text, c)
      {
        PutByte(src, so, dst, d, k, was, text, c);
        k := k + 1;
      }
      ProcessedAll(dst[..], was, d, text, c);
    }
  }

  /** From byte k on the text still stands at so. */
  ghost predicate Left(b: Bytes, so: nat, text: Bytes, k: nat) {
    so + |text| <= |b| && forall m :: k <= m < |text| ==> b[so + m] == text[m]
  }

  /** The first k bytes of the text were encrypted to off. */
  ghost predicate Processed(b: Bytes, was: Bytes, off: nat, text: Bytes, c: Ctx, k: nat)
    requires Wf(c) && (c.state != [] || k == 0)
  {
    k <= |text| && off + |text| <= |was| && b == Splice(was, off, Xored(text[..k], Keystream(c, k)))
  }

  lemma ProcessedNone(was: Bytes, off: nat, text: Bytes, c: Ctx)
    requires Wf(c) && off + |text| <= |was|
    ensures Processed(was, was, off, text, c, 0)
  {}

  lemma ProcessedAll(b: Bytes, was: Bytes, off: nat, text: Bytes, c: Ctx)
    requires Wf(c) && (c.state != [] || text == []) && Processed(b, was, off, text, c, |text|)
    ensures b == Splice(was, off, Xored(text, Keystream(c, |text|)))
  {
    assert text[..|text|] == text;
  }

  lemma ProcessedPush(b: Bytes, was: Bytes, off: nat, text: Bytes, c: Ctx, k: nat)
    requires Wf(c) && c.state != [] && Processed(b, was, off, text, c, k) && k < |text|
    ensures Processed(b[off + k := Xor(text[k], KeyByte(Run(c, k + 1)))], was, off, text, c, k + 1)
  {
    XoredPush(text, k, Keystream(c, k), KeyByte(Run(c, k + 1)));
    SplicePush(was, off, Xored(text[..k], Keystream(c, k)), Xor(text[k], KeyByte(Run(c, k + 1))));
  }

  lemma XoredPush(text: Bytes, k: nat, key: Chars, b: int)
    requires k < |text| && |key| == k
    ensures Xored(text[..k + 1], key + [b]) == Xored(text[..k], key) + [Xor(text[k], b)]
  {}

  lemma SplicePush(b: Bytes, off: nat, x: Bytes, v: bv8)
    requires off + |x| < |b|
    ensures Splice(b, off, x + [v]) == Splice(b, off, x)[off + |x| := v]
  {}

  /** `bcrypt_buf`. */
  method BcryptBuf(seed: int, key: Chars, src: array<bv8>, so: nat, dst: array<bv8>, d: nat, len: nat, longState: bool)
    requires |key| <= BCRYPT_MAX_KEYLEN
    requires so + len <= src.Length && d + len <= dst.Length && (src == dst ==> d <= so)
    modifies dst
    ensures dst[..] == Splice(old(dst[..]), d, Crypt(seed, key, old(src[so..so + len]), longState))
  {
    var ctx := new Bcrypt([seed] + key, if longState then len else BCRYPT_DEFAULT_STATE_LEN);
    ctx.Process(src, so, dst, d, len);
  }
}
