/** Name compression of the mDNS responder (section 4.1.4 of RFC 1035): `mdns_encode_name`,
    `uncompress_nlabel` and `label_len`. */
module Names {

  datatype Option<+T> = None | Some(value: T)

  /** ints are the integers from 0 to 255. */
  type Label = seq<int>

  /** A name as the list of its labels, without the root. */
  type Name = seq<Label>

  /** Names are handled as C strings, so labels contain no zero byte. */
  predicate ValidLabel(l: Label) {
    1 <= |l| <= 63 && forall i :: 0 <= i < |l| ==> 0 < l[i] < 256
  }

  predicate ValidName(n: Name) { forall i :: 0 <= i < |n| ==> ValidLabel(n[i]) }

  /** The uncompressed form: length-prefixed labels and the root. */
  function Wire(n: Name): seq<int> {
    if n == [] then [0] else [|n[0]|] + n[0] + Wire(n[1..])
  }

  /** Comparing the uncompressed forms is comparing the names (`cmp_nlabel`). */
  lemma {:induction false} WireInjective(m: Name, n: Name)
    requires ValidName(m) && ValidName(n)
    ensures Wire(m) == Wire(n) <==> m == n
  {
    if m != [] && n != [] && Wire(m) == Wire(n) {
      assert Wire(m)[0] == |m[0]| && Wire(n)[0] == |n[0]|;
      assert m[0] == Wire(m)[1..1 + |m[0]|] == n[0];
      assert Wire(m[1..]) == Wire(m)[1 + |m[0]|..] == Wire(n[1..]);
      WireInjective(m[1..], n[1..]);
      assert m == [m[0]] + m[1..] && n == [n[0]] + n[1..];
    }
  }

  predicate IsPointer(b: int) { b >= 192 }

  /** The offset in the two bytes of a compression pointer. */
  function Target(hi: int, lo: int): int { hi % 64 * 256 + lo }

  // ----- what the bytes of a packet say -----

  ghost predicate Covers(used: iset<nat>, lo: int, hi: int) {
    forall i :: lo <= i < hi ==> i in used
  }

  /** Label l stands literally at q, on bytes that belong to encoded names. */
  ghost predicate LiteralAt(b: seq<int>, used: iset<nat>, q: int, l: Label) {
    && 0 <= q && q + |l| < |b| && b[q] == |l| && b[q + 1..q + 1 + |l|] == l
    && Covers(used, q, q + |l| + 1)
  }

  /** Where the first label at off stands: at off itself or where the pointer there leads. */
  function LabelPos(b: seq<int>, off: nat): int
    requires off + 1 < |b|
  {
    if IsPointer(b[off]) then Target(b[off], b[off + 1]) else off
  }

  /** Label l is the first of a name at off: it stands there literally, or a pointer there leads
      strictly backwards to where it does. */
  ghost predicate HeadAt(b: seq<int>, used: iset<nat>, off: nat, l: Label) {
    && off + 1 < |b| && off in used
    && (IsPointer(b[off]) ==> off + 1 in used && LabelPos(b, off) < off)
    && LiteralAt(b, used, LabelPos(b, off), l)
  }

  /** The bytes at off spell the name n: its first label, and behind where that stands literally
      the rest. */
  ghost predicate Spells(b: seq<int>, used: iset<nat>, off: nat, n: Name)
    decreases |n|
  {
    if n == [] then off < |b| && b[off] == 0 && off in used
    else HeadAt(b, used, off, n[0]) && Spells(b, used, LabelPos(b, off) + 1 + |n[0]|, n[1..])
  }

  /** The used bytes of b are in b'. */
  ghost predicate SameUsed(b: seq<int>, b': seq<int>, used: iset<nat>) {
    forall i :: i in used && i < |b| ==> i < |b'| && b'[i] == b[i]
  }

  lemma HeadKept(b: seq<int>, b': seq<int>, used: iset<nat>, used': iset<nat>, off: nat, l: Label)
    requires HeadAt(b, used, off, l) && l != [] && used <= used' && SameUsed(b, b', used)
    ensures HeadAt(b', used', off, l) && LabelPos(b', off) == LabelPos(b, off)
  {
    var q := LabelPos(b, off);
    assert q + 1 in used && q + |l| in used;
    forall k | 0 <= k < |l| ensures b'[q + 1 + k] == l[k] {
      assert q + 1 + k in used && b[q + 1 + k] == b[q + 1..q + 1 + |l|][k];
    }
  }

  /** Other bytes of the packet do not matter. */
  lemma {:induction false} SpellsKept(b: seq<int>, b': seq<int>, used: iset<nat>, used': iset<nat>, off: nat, n: Name)
    requires ValidName(n) && Spells(b, used, off, n) && used <= used' && SameUsed(b, b', used)
    ensures Spells(b', used', off, n)
    decreases |n|
  {
    if n != [] {
      HeadKept(b, b', used, used', off, n[0]);
      SpellsKept(b, b', used, used', LabelPos(b, off) + 1 + |n[0]|, n[1..]);
    }
  }

  // ----- label_len -----

  /** Length of the name field at off, up to the root or the first pointer. */
  function FieldLen(b: seq<int>, off: nat): nat
    decreases if off < |b| then |b| - off else 0
  {
    if off >= |b| then 0
    else if b[off] <= 0 then 1
    else if IsPointer(b[off]) then 2
    else 1 + b[off] + FieldLen(b, off + 1 + b[off])
  }

  method LabelLen(b: array<int>, pktLen: nat, off: nat) returns (len: nat)
    requires pktLen <= b.Length
    ensures len == FieldLen(b[..pktLen], off)
  {
    len := 0;
    var p := off;
    while p < pktLen
      invariant len + FieldLen(b[..pktLen], p) == FieldLen(b[..pktLen], off)
      decreases pktLen - p
    {
      if b[p] <= 0 {
        return len + 1;
      } else if IsPointer(b[p]) {
        return len + 2;
      }
      len := len + b[p] + 1;
      p := p + b[p] + 1;
    }
  }

  // ----- mdns_encode_name -----

  /** An entry of the compression list: the rest of a name, and where it was written. */
  datatype Comp = Comp(rest: Name, pos: nat)

  /** An offset that fits a pointer. */
  const POINTER_LIMIT := 0x4000

  /** An entry names a rest that is spelled, from a literal label on, where it says; unless a
      pointer cannot lead there. */
  ghost predicate CompOk(b: seq<int>, used: iset<nat>, end: nat, c: Comp) {
    c.rest != [] ==>
      && ValidName(c.rest) && c.pos < end
      && (c.pos < POINTER_LIMIT ==>
            && c.pos + 1 < |b| && !IsPointer(b[c.pos])
            && Spells(b, used, c.pos, c.rest))
  }

  ghost predicate Near(comp: seq<Comp>) {
    forall c :: c in comp ==> c.pos < POINTER_LIMIT
  }

  predicate Between(lo: nat, k: nat, hi: nat) { lo <= k < hi }

  ghost function Range(lo: nat, hi: nat): iset<nat> {
    iset k: nat | Between(lo, k, hi)
  }

  ghost predicate CompsOk(b: seq<int>, used: iset<nat>, end: nat, comp: seq<Comp>) {
    comp == [] || (CompsOk(b, used, end, comp[..|comp| - 1]) && CompOk(b, used, end, comp[|comp| - 1]))
  }

  ghost predicate NamesOk(b: seq<int>, used: iset<nat>, names: seq<(nat, Name)>) {
    names == [] ||
    (NamesOk(b, used, names[..|names| - 1]) && ValidName(names[|names| - 1].1)
     && Spells(b, used, names[|names| - 1].0, names[|names| - 1].1))
  }

  /** Everything recorded about the packet is right. */
  ghost predicate PacketOk(b: seq<int>, used: iset<nat>, end: nat, comp: seq<Comp>, names: seq<(nat, Name)>) {
    && (forall u :: u in used ==> u < end) && end <= |b|
    && CompsOk(b, used, end, comp) && NamesOk(b, used, names)
  }

  lemma {:induction false} CompsOkAt(b: seq<int>, used: iset<nat>, end: nat, comp: seq<Comp>, c: Comp)
    requires CompsOk(b, used, end, comp) && c in comp
    ensures CompOk(b, used, end, c)
  {
    if c != comp[|comp| - 1] { CompsOkAt(b, used, end, comp[..|comp| - 1], c); }
  }

  lemma {:induction false} CompsOkAppend(b: seq<int>, used: iset<nat>, end: nat, x: seq<Comp>, y: seq<Comp>)
    requires CompsOk(b, used, end, x) && CompsOk(b, used, end, y)
    ensures CompsOk(b, used, end, x + y)
  {
    if y == [] {
      assert x + y == x;
    } else {
      assert (x + y)[..|x + y| - 1] == x + y[..|y| - 1];
      CompsOkAppend(b, used, end, x, y[..|y| - 1]);
    }
  }

  /** Every recorded name is spelled where it was encoded. */
  lemma {:induction false} NamesOkAt(b: seq<int>, used: iset<nat>, names: seq<(nat, Name)>, k: nat)
    requires NamesOk(b, used, names) && k < |names|
    ensures ValidName(names[k].1) && Spells(b, used, names[k].0, names[k].1)
  {
    if k < |names| - 1 { NamesOkAt(b, used, names[..|names| - 1], k); }
  }

  lemma NamesOkPush(b: seq<int>, used: iset<nat>, names: seq<(nat, Name)>, off: nat, name: Name)
    requires NamesOk(b, used, names) && ValidName(name) && Spells(b, used, off, name)
    ensures NamesOk(b, used, names + [(off, name)])
  {
    assert (names + [(off, name)])[..|names|] == names;
  }

  // ----- which rests of names the compression list holds -----

  predicate IsSuffix(r: Name, n: Name) { |r| <= |n| && n[|n| - |r|..] == r }

  /** r is the rest of a name that was encoded. */
  ghost predicate Known(written: seq<Name>, r: Name) { exists n :: n in written && IsSuffix(r, n) }

  ghost predicate Holds(comp: seq<Comp>, r: Name) { exists c :: c in comp && c.rest == r }

  /** The list holds the rests of all encoded names, and no other. */
  ghost predicate ListOk(comp: seq<Comp>, written: seq<Name>) {
    forall r: Name :: r != [] ==> (Holds(comp, r) <==> Known(written, r))
  }

  /** The labels of name from k on are the longest rest of it that is known. */
  ghost predicate LongestKnown(written: seq<Name>, name: Name, k: nat) {
    && k < |name| && Known(written, name[k..])
    && forall j :: 0 <= j < k ==> !Known(written, name[j..])
  }

  ghost predicate NothingKnown(written: seq<Name>, name: Name) {
    forall j :: 0 <= j < |name| ==> !Known(written, name[j..])
  }

  /** No rest of name longer than that from i on is in the list. */
  ghost predicate NoneHeld(comp: seq<Comp>, name: Name, i: nat) {
    i <= |name| && forall j :: 0 <= j < i ==> !Holds(comp, name[j..])
  }

  /** The len bytes at off are the labels of name before k and a pointer. */
  predicate CutAt(b: seq<int>, off: nat, len: nat, name: Name, k: nat) {
    && k <= |name| && off + len <= |b| && 2 <= len == |Wire(name)| - |Wire(name[k..])| + 2
    && b[off..off + len - 2] == Wire(name)[..len - 2] && IsPointer(b[off + len - 2])
  }

  predicate InFull(b: seq<int>, off: nat, len: nat, name: Name) {
    off + len <= |b| && b[off..off + len] == Wire(name)
  }

  /** The len bytes at off are name with its longest known rest replaced by a pointer, or in full if
      none is known. */
  ghost predicate Compressed(b: seq<int>, off: nat, len: nat, written: seq<Name>, name: Name) {
    && (forall k: nat :: LongestKnown(written, name, k) ==> CutAt(b, off, len, name, k))
    && (NothingKnown(written, name) ==> InFull(b, off, len, name))
  }

  /** A packet under construction, with its compression list. */
  class Packet {
    const buf: array<int>
    var comp: seq<Comp>
    /** The bytes that belong to encoded names, all below `end`. */
    ghost var used: iset<nat>
    ghost var end: nat
    /** The names encoded while every entry of the list could be pointed at, and where. */
    ghost var names: seq<(nat, Name)>
    /** All names that were encoded. */
    ghost var written: seq<Name>

    ghost predicate Valid()
      reads this, buf
    {
      PacketOk(buf[..], used, end, comp, names) && ListOk(comp, written)
    }

    /** Every entry of the compression list can be pointed at. */
    ghost predicate Addressable()
      reads this
    {
      Near(comp)
    }

    constructor (buf: array<int>)
      ensures this.buf == buf && Valid() && Addressable() && names == [] && written == [] && end == 0
    {
      this.buf := buf;
      comp := [Comp([], 0)];
      used, end, names, written := iset{}, 0, [], [];
      new;
      CompsOkPush(buf[..], used, end, [], Comp([], 0), comp);
    }

    /** The first entry of the compression list for this rest of a name. */
    method FindComp(rest: Name) returns (r: Option<Comp>)
      requires rest != []
      ensures r.Some? ==> r.value in comp && r.value.rest == rest
      ensures r.None? ==> forall c :: c in comp ==> c.rest != rest
    {
      for i := 0 to |comp|
        invariant forall j :: 0 <= j < i ==> comp[j].rest != rest
      {
        if comp[i].rest == rest {
          return Some(comp[i]);
        }
      }
      r := None;
    }

    /** `strncpy` of one length-prefixed label. */
    method PutLabel(p: nat, l: Label)
      requires ValidLabel(l) && p + |l| < buf.Length
      modifies buf
      ensures buf[p] == |l| && buf[p + 1..p + 1 + |l|] == l
      ensures forall i :: 0 <= i < buf.Length && !(p <= i <= p + |l|) ==> buf[i] == old(buf[i])
    {
      buf[p] := |l|;
      forall i | 0 <= i < |l| {
        buf[p + 1 + i] := l[i];
      }
    }

    /** Copies label i behind those before it and enters the rest of the name into the list. */
    method PutNext(off: nat, name: Name, i: nat, p: nat)
      requires ValidName(name) && i < |name| && off + |Wire(name)| <= buf.Length
      requires p == off + Offset(name, i) && Chain(buf[..], off, name, i)
      modifies this`comp, buf
      ensures Chain(buf[..], off, name, i + 1) && p + |name[i]| + 1 <= buf.Length
      ensures comp == old(comp) + [Entry(name, off, i)]
      ensures forall k :: 0 <= k < buf.Length && !(p <= k <= p + |name[i]|) ==> buf[k] == old(buf[k])
    {
      OffsetFits(name, i);
      ghost var b := buf[..];
      PutLabel(p, name[i]);
      ChainGrows(b, buf[..], off, name, i);
      comp := comp + [Comp(name[i..], p)];
    }

    /** The loop of `mdns_encode_name`: copies labels until the rest of the name is in the
        compression list, or nothing is left. */
    method PutLabels(off: nat, name: Name) returns (i: nat, p: nat, found: Option<Comp>)
      requires ValidName(name) && off + |Wire(name)| <= buf.Length
      modifies this`comp, buf
      ensures i <= |name| && p == off + Offset(name, i)
      ensures Chain(buf[..], off, name, i)
      ensures comp == old(comp) + Suffixes(name, off, i)
      ensures found.None? ==> i == |name|
      ensures found.Some? ==> i < |name| && found.value in old(comp) && found.value.rest == name[i..]
      ensures NoneHeld(old(comp), name, i)
      ensures forall k :: 0 <= k < buf.Length && !(off <= k < p) ==> buf[k] == old(buf[k])
    {
      i, p, found := 0, off, None;
      while i < |name|
        invariant i <= |name| && p == off + Offset(name, i)
        invariant Chain(buf[..], off, name, i)
        invariant comp == old(comp) + Suffixes(name, off, i)
        invariant found.None? && NoneHeld(old(comp), name, i)
        invariant forall k :: 0 <= k < buf.Length && !(off <= k < p) ==> buf[k] == old(buf[k])
      {
        found := FindComp(name[i..]);
        if found.Some? {
          SuffixesAreLonger(name, off, i);
          return;
        }
        NoneHeldNext(old(comp), comp, name, i);
        PutNext(off, name, i, p);
        p := p + |name[i]| + 1;
        i := i + 1;
      }
    }

    /** Writes a pointer or the root at p. */
    method PutEnd(p: nat, found: Option<Comp>) returns (n: nat)
      requires p + (if found.Some? then 2 else 1) <= buf.Length
      modifies buf
      ensures n == if found.Some? then 2 else 1
      ensures found.None? ==> buf[p] == 0
      ensures found.Some? ==>
                && IsPointer(buf[p])
                && (found.value.pos < POINTER_LIMIT ==> Target(buf[p], buf[p + 1]) == found.value.pos)
      ensures forall k :: 0 <= k < buf.Length && !(p <= k < p + n) ==> buf[k] == old(buf[k])
    {
      if found.Some? {
        var pos := found.value.pos % POINTER_LIMIT;
        buf[p] := 0xC0 + pos / 256;
        buf[p + 1] := pos % 256;
        n := 2;
      } else {
        buf[p] := 0;
        n := 1;
      }
    }

    /** Both parts of `mdns_encode_name`. */
    method WriteName(off: nat, name: Name) returns (len: nat, ghost i: nat, ghost found: Option<Comp>)
      requires ValidName(name) && off + |Wire(name)| <= buf.Length
      modifies this`comp, buf
      ensures i <= |name| && len == EncodedLen(name, i, found) <= |Wire(name)|
      ensures Written(buf[..], off, name, i, found)
      ensures found.Some? ==> found.value in old(comp)
      ensures comp == old(comp) + Suffixes(name, off, i)
      ensures NoneHeld(old(comp), name, i)
      ensures forall k :: 0 <= k < buf.Length && !(off <= k < off + len) ==> buf[k] == old(buf[k])
    {
      var n, p, c := PutLabels(off, name);
      i, found := n, c;
      OffsetFits(name, i);
      ghost var b := buf[..];
      var m := PutEnd(p, c);
      EndWritten(b, buf[..], off, name, i, found, p);
      len := p + m - off;
    }

    /** `mdns_encode_name` at or behind the end of all names encoded so far, with room for the
        uncompressed form. Of the longest rest of the name that was encoded before only a pointer is
        written. */
    method EncodeName(off: nat, name: Name) returns (len: nat)
      requires Valid() && ValidName(name) && off >= end && off + |Wire(name)| <= buf.Length
      modifies this, buf
      ensures Valid()
      ensures len <= |Wire(name)| && end == off + len && written == old(written) + [name]
      ensures Compressed(buf[..], off, len, old(written), name)
      ensures FieldLen(buf[..], off) == len
      ensures forall k :: 0 <= k < buf.Length && !(off <= k < off + len) ==> buf[k] == old(buf[k])
      ensures names == if old(Addressable()) then old(names) + [(off, name)] else old(names)
      ensures old(Addressable()) && off + len <= POINTER_LIMIT ==> Addressable()
    {
      ghost var b0 := buf[..];
      ghost var i, found;
      len, i, found := WriteName(off, name);
      CutExactly(old(comp), written, buf[..], off, name, i, found);
      ListGrows(old(comp), written, off, name, i, found);
      Record(b0, old(comp), off, name, i, found);
    }

    /** Records an encoded name. */
    ghost method Record(b0: seq<int>, comp0: seq<Comp>, off: nat, name: Name, i: nat, found: Option<Comp>)
      requires PacketOk(b0, used, end, comp0, names) && ValidName(name) && end <= off
      requires |b0| == buf.Length && forall k :: 0 <= k < |b0| && k < off ==> buf[k] == b0[k]
      requires i <= |name| && Written(buf[..], off, name, i, found)
      requires found.Some? ==> found.value in comp0
      requires comp == comp0 + Suffixes(name, off, i) && ListOk(comp, written + [name])
      modifies this`used, this`end, this`names, this`written
      ensures Valid() && written == old(written) + [name] && end == off + EncodedLen(name, i, found)
      ensures FieldLen(buf[..], off) == EncodedLen(name, i, found)
      ensures names == if Near(comp0) then old(names) + [(off, name)] else old(names)
      ensures Near(comp0) && end <= POINTER_LIMIT ==> Addressable()
    {
      var end' := off + EncodedLen(name, i, found);
      var used' := used + Range(off, end');
      Encoded(b0, buf[..], used, end, comp0, names, off, name, i, found, used', end');
      WrittenFieldLen(buf[..], off, name, i, found);
      SuffixesInside(name, off, i);
      used, end, written := used', end', written + [name];
      if Near(comp0) {
        NamesOkPush(buf[..], used, names, off, name);
        names := names + [(off, name)];
      }
    }

    /** Writes any byte that does not belong to a name. */
    method PutByte(k: nat, v: int)
      requires Valid() && k < buf.Length && k !in used
      modifies buf
      ensures Valid() && buf[..] == old(buf[..])[k := v]
    {
      ghost var b0 := buf[..];
      buf[k] := v;
      PacketKept(b0, buf[..], used, used, end, end, comp, names);
    }
  }

  /** Offset of label i from the start of an uncompressed name. */
  function Offset(name: Name, i: nat): nat
    requires i <= |name|
  {
    if i == 0 then 0 else Offset(name, i - 1) + 1 + |name[i - 1]|
  }

  /** The entry added for label k. */
  function Entry(name: Name, off: nat, k: nat): Comp
    requires k < |name|
  {
    Comp(name[k..], off + Offset(name, k))
  }

  /** The entries added for the first i labels. */
  function Suffixes(name: Name, off: nat, i: nat): seq<Comp>
    requires i <= |name|
  {
    if i == 0 then [] else Suffixes(name, off, i - 1) + [Entry(name, off, i - 1)]
  }

  lemma {:induction false} SuffixesAreLonger(name: Name, off: nat, i: nat)
    requires i < |name|
    ensures forall c :: c in Suffixes(name, off, i) ==> |c.rest| > |name[i..]|
    ensures |Suffixes(name, off, i)| == i
    decreases i
  {
    if i > 0 { SuffixesAreLonger(name, off, i - 1); }
  }

  /** The first i labels stand one behind the other from off on. */
  ghost predicate Chain(b: seq<int>, off: nat, name: Name, i: nat)
    requires i <= |name|
  {
    i == 0 || (Chain(b, off, name, i - 1) && LabelAt(b, off + Offset(name, i - 1), name[i - 1]))
  }

  ghost predicate LabelAt(b: seq<int>, q: nat, l: Label) {
    q + |l| < |b| && b[q] == |l| && b[q + 1..q + 1 + |l|] == l
  }

  lemma {:induction false} ChainKept(b: seq<int>, b': seq<int>, off: nat, name: Name, i: nat)
    requires i <= |name| && Chain(b, off, name, i)
    requires |b'| == |b| && forall k :: 0 <= k < off + Offset(name, i) && k < |b| ==> b'[k] == b[k]
    ensures Chain(b', off, name, i)
  {
    if i > 0 {
      var q, l := off + Offset(name, i - 1), name[i - 1];
      assert b'[q + 1..q + 1 + |l|] == b[q + 1..q + 1 + |l|];
      ChainKept(b, b', off, name, i - 1);
    }
  }

  lemma ChainGrows(b: seq<int>, b': seq<int>, off: nat, name: Name, i: nat)
    requires i < |name| && Chain(b, off, name, i) && LabelAt(b', off + Offset(name, i), name[i])
    requires |b'| == |b| && forall k :: 0 <= k < off + Offset(name, i) && k < |b| ==> b'[k] == b[k]
    ensures Chain(b', off, name, i + 1)
  {
    ChainKept(b, b', off, name, i);
  }

  lemma {:induction false} OffsetFits(name: Name, i: nat)
    requires i <= |name| && ValidName(name)
    ensures Offset(name, i) + |Wire(name[i..])| == |Wire(name)|
    ensures i < |name| ==> |Wire(name[i..])| >= |name[i]| + 2
  {
    if i > 0 {
      OffsetFits(name, i - 1);
      assert name[i - 1..][1..] == name[i..];
    } else {
      assert name[0..] == name;
    }
    if i < |name| { assert name[i..][0] == name[i]; WireNotEmpty(name[i..][1..]); }
  }

  lemma WireNotEmpty(n: Name)
    ensures |Wire(n)| >= 1
  {}

  /** A literal label in front of a spelled name. */
  lemma LiteralSpells(b: seq<int>, used: iset<nat>, q: nat, l: Label, n: Name, n': Name)
    requires LabelAt(b, q, l) && ValidLabel(l) && n' == [l] + n
    requires Covers(used, q, q + |l| + 1)
    requires Spells(b, used, q + 1 + |l|, n)
    ensures q + 1 < |b| && 1 <= b[q] <= 63 && Spells(b, used, q, n')
  {
    assert n'[1..] == n && n'[0] == l;
    assert q in used;
  }

  /** Label k of a chain. */
  lemma {:induction false} ChainAt(b: seq<int>, off: nat, name: Name, i: nat, k: nat)
    requires k < i <= |name| && Chain(b, off, name, i)
    ensures LabelAt(b, off + Offset(name, k), name[k]) && Offset(name, k + 1) <= Offset(name, i)
    decreases i
  {
    if k < i - 1 { ChainAt(b, off, name, i - 1, k); }
  }

  /** What follows label k of a chain is spelled behind it, and so is the label with it. */
  lemma ChainStep(b: seq<int>, used: iset<nat>, off: nat, name: Name, i: nat, k: nat, next: Name, this_: Name)
    requires k < i <= |name| && ValidName(name) && Chain(b, off, name, i)
    requires Covers(used, off, off + Offset(name, i))
    requires Spells(b, used, off + Offset(name, k + 1), next) && this_ == [name[k]] + next
    ensures Spells(b, used, off + Offset(name, k), this_)
    ensures off + Offset(name, k) + 1 < |b| && 1 <= b[off + Offset(name, k)] <= 63
  {
    ChainAt(b, off, name, i, k);
    LiteralSpells(b, used, off + Offset(name, k), name[k], next, this_);
  }

  lemma TailOf(name: Name, k: nat)
    requires k < |name|
    ensures name[k..] == [name[k]] + name[k + 1..]
  {}

  lemma ChainTail(b: seq<int>, used: iset<nat>, off: nat, name: Name, i: nat, k: nat)
    requires k < i <= |name| && ValidName(name) && Chain(b, off, name, i)
    requires Covers(used, off, off + Offset(name, i))
    requires Spells(b, used, off + Offset(name, k + 1), name[k + 1..])
    ensures Spells(b, used, off + Offset(name, k), name[k..])
    ensures off + Offset(name, k) + 1 < |b| && 1 <= b[off + Offset(name, k)] <= 63
  {
    TailOf(name, k);
    ChainStep(b, used, off, name, i, k, name[k + 1..], name[k..]);
  }

  lemma {:induction false} ChainSpells(b: seq<int>, used: iset<nat>, off: nat, name: Name, i: nat, k: nat)
    requires k <= i <= |name| && ValidName(name) && Chain(b, off, name, i)
    requires Covers(used, off, off + Offset(name, i))
    requires Spells(b, used, off + Offset(name, i), name[i..])
    ensures Spells(b, used, off + Offset(name, k), name[k..])
    ensures k < i ==> off + Offset(name, k) + 1 < |b| && 1 <= b[off + Offset(name, k)] <= 63
    decreases i - k
  {
    if k < i {
      ChainSpells(b, used, off, name, i, k + 1);
      ChainTail(b, used, off, name, i, k);
    }
  }

  lemma {:induction false} ChainFieldLen(b: seq<int>, off: nat, name: Name, i: nat)
    requires i <= |name| && ValidName(name) && Chain(b, off, name, i)
    ensures FieldLen(b, off) == Offset(name, i) + FieldLen(b, off + Offset(name, i))
  {
    if i > 0 {
      ChainFieldLen(b, off, name, i - 1);
      assert ValidLabel(name[i - 1]);
    }
  }

  lemma CompKept(b: seq<int>, b': seq<int>, used: iset<nat>, used': iset<nat>, end: nat, end': nat, c: Comp)
    requires CompOk(b, used, end, c) && end <= end'
    requires |b'| == |b| && used <= used' && SameUsed(b, b', used)
    ensures CompOk(b', used', end', c)
  {
    if c.rest != [] && c.pos < POINTER_LIMIT {
      SpellsKept(b, b', used, used', c.pos, c.rest);
    }
  }

  lemma {:induction false} PacketKept(b: seq<int>, b': seq<int>, used: iset<nat>, used': iset<nat>, end: nat, end': nat,
                                      comp: seq<Comp>, names: seq<(nat, Name)>)
    requires PacketOk(b, used, end, comp, names) && end <= end' <= |b'|
    requires |b'| == |b| && used <= used' && SameUsed(b, b', used)
    requires forall u :: u in used' ==> u < end'
    ensures PacketOk(b', used', end', comp, names)
    decreases |comp| + |names|
  {
    if comp != [] {
      CompKept(b, b', used, used', end, end', comp[|comp| - 1]);
      PacketKept(b, b', used, used', end, end', comp[..|comp| - 1], names);
    } else if names != [] {
      SpellsKept(b, b', used, used', names[|names| - 1].0, names[|names| - 1].1);
      PacketKept(b, b', used, used', end, end', comp, names[..|names| - 1]);
    }
  }

  /** The end of an encoded name spells what is left of it. */
  lemma EndSpells(b: seq<int>, used: iset<nat>, end: nat, p: nat, rest: Name, found: Option<Comp>)
    requires p + (if found.Some? then 1 else 0) < |b| && p in used
    requires found.None? ==> rest == [] && b[p] == 0
    requires found.Some? ==>
      && rest != [] && found.value.rest == rest && found.value.pos < POINTER_LIMIT && found.value.pos < p
      && CompOk(b, used, end, found.value)
      && p + 1 in used && IsPointer(b[p]) && Target(b[p], b[p + 1]) == found.value.pos
    ensures Spells(b, used, p, rest)
  {}

  /** An entry that an encoded name adds is right. */
  lemma NewComp(b: seq<int>, used: iset<nat>, end: nat, off: nat, name: Name, i: nat, k: nat)
    requires k < i <= |name| && ValidName(name) && Chain(b, off, name, i)
    requires Covers(used, off, off + Offset(name, i))
    requires Spells(b, used, off + Offset(name, i), name[i..]) && off + Offset(name, i) <= end
    ensures CompOk(b, used, end, Entry(name, off, k))
  {
    ChainSpells(b, used, off, name, i, k);
    OffsetBelow(name, k, i);
    EntryIs(b, used, end, off, name, k);
  }

  lemma EntryIs(b: seq<int>, used: iset<nat>, end: nat, off: nat, name: Name, k: nat)
    requires k < |name| && ValidName(name) && Spells(b, used, off + Offset(name, k), name[k..])
    requires off + Offset(name, k) < end && off + Offset(name, k) + 1 < |b| && b[off + Offset(name, k)] <= 63
    ensures CompOk(b, used, end, Entry(name, off, k))
  {}

  lemma CompsOkPush(b: seq<int>, used: iset<nat>, end: nat, comp: seq<Comp>, c: Comp, comp': seq<Comp>)
    requires CompsOk(b, used, end, comp) && CompOk(b, used, end, c) && comp' == comp + [c]
    ensures CompsOk(b, used, end, comp')
  {
    assert comp'[..|comp|] == comp;
  }

  ghost predicate EntriesOk(b: seq<int>, used: iset<nat>, end: nat, off: nat, name: Name, i: nat)
    requires i <= |name|
  {
    forall k: nat :: k < i ==> CompOk(b, used, end, Entry(name, off, k))
  }

  lemma {:induction false} SuffixesOk(b: seq<int>, used: iset<nat>, end: nat, off: nat, name: Name, i: nat, k: nat)
    requires k <= i <= |name| && EntriesOk(b, used, end, off, name, i)
    ensures CompsOk(b, used, end, Suffixes(name, off, k))
    decreases k
  {
    if k > 0 {
      SuffixesOk(b, used, end, off, name, i, k - 1);
      CompsOkPush(b, used, end, Suffixes(name, off, k - 1), Entry(name, off, k - 1), Suffixes(name, off, k));
    }
  }

  lemma NewComps(b: seq<int>, used: iset<nat>, end: nat, off: nat, name: Name, i: nat)
    requires i <= |name| && ValidName(name) && Chain(b, off, name, i)
    requires Covers(used, off, off + Offset(name, i))
    requires Spells(b, used, off + Offset(name, i), name[i..]) && off + Offset(name, i) <= end
    ensures EntriesOk(b, used, end, off, name, i)
  {
    forall k: nat | k < i ensures CompOk(b, used, end, Entry(name, off, k)) {
      NewComp(b, used, end, off, name, i, k);
    }
  }

  /** Entries beyond the reach of pointers promise nothing. */
  lemma FarComps(b: seq<int>, used: iset<nat>, end: nat, off: nat, name: Name, i: nat)
    requires i <= |name| && ValidName(name) && off >= POINTER_LIMIT && off + Offset(name, i) <= end
    ensures EntriesOk(b, used, end, off, name, i)
  {
    forall k: nat | k < i ensures CompOk(b, used, end, Entry(name, off, k)) {
      OffsetBelow(name, k, i);
    }
  }

  lemma {:induction false} OffsetBelow(name: Name, k: nat, i: nat)
    requires k < i <= |name|
    ensures Offset(name, k) < Offset(name, i)
    decreases i
  {
    if k < i - 1 { OffsetBelow(name, k, i - 1); }
  }

  /** Length of the bytes written for a name whose first i labels were copied. */
  function EncodedLen(name: Name, i: nat, found: Option<Comp>): nat
    requires i <= |name|
  {
    Offset(name, i) + if found.Some? then 2 else 1
  }

  /** The first i labels of the name stand at off, followed by its end. */
  ghost predicate Written(b: seq<int>, off: nat, name: Name, i: nat, found: Option<Comp>)
    requires i <= |name|
  {
    var p := off + Offset(name, i);
    && off + EncodedLen(name, i, found) <= |b| && Chain(b, off, name, i)
    && match found
       case None => i == |name| && b[p] == 0
       case Some(c) => i < |name| && c.rest == name[i..] && IsPointer(b[p])
                       && (c.pos < POINTER_LIMIT ==> Target(b[p], b[p + 1]) == c.pos)
  }

  /** The end at p completes a chain. */
  lemma EndWritten(b0: seq<int>, b: seq<int>, off: nat, name: Name, i: nat, found: Option<Comp>, p: nat)
    requires i <= |name| && Chain(b0, off, name, i) && p == off + Offset(name, i)
    requires |b| == |b0| && forall k :: 0 <= k < p && k < |b| ==> b[k] == b0[k]
    requires p + (if found.Some? then 2 else 1) <= |b|
    requires found.None? ==> i == |name| && b[p] == 0
    requires found.Some? ==>
      && i < |name| && found.value.rest == name[i..] && IsPointer(b[p])
      && (found.value.pos < POINTER_LIMIT ==> Target(b[p], b[p + 1]) == found.value.pos)
    ensures Written(b, off, name, i, found)
  {
    ChainKept(b0, b, off, name, i);
  }

  lemma WrittenFieldLen(b: seq<int>, off: nat, name: Name, i: nat, found: Option<Comp>)
    requires ValidName(name) && i <= |name| && Written(b, off, name, i, found)
    ensures FieldLen(b, off) == EncodedLen(name, i, found)
  {
    ChainFieldLen(b, off, name, i);
  }

  lemma WrittenEnd(b: seq<int>, used: iset<nat>, end: nat, off: nat, name: Name, i: nat, found: Option<Comp>, p: nat)
    requires i <= |name| && Written(b, off, name, i, found) && p == off + Offset(name, i)
    requires Covers(used, off, off + EncodedLen(name, i, found))
    requires found.Some? ==>
      found.value.pos < POINTER_LIMIT && found.value.pos < off && CompOk(b, used, end, found.value)
    ensures Spells(b, used, p, name[i..]) && Covers(used, off, p)
  {
    assert p in used && (found.Some? ==> p + 1 in used);
    EndSpells(b, used, end, p, name[i..], found);
  }

  lemma FromStart(b: seq<int>, used: iset<nat>, off: nat, name: Name)
    requires Spells(b, used, off + Offset(name, 0), name[0..])
    ensures Spells(b, used, off, name)
  {
    assert name[0..] == name;
  }

  /** A written name is spelled, and so are the rests it adds to the list, if its pointer can
      hold the offset. */
  lemma WrittenSpells(b: seq<int>, used: iset<nat>, end: nat, off: nat, name: Name, i: nat, found: Option<Comp>)
    requires ValidName(name) && i <= |name| && Written(b, off, name, i, found)
    requires Covers(used, off, off + EncodedLen(name, i, found))
    requires found.Some? ==>
      found.value.pos < POINTER_LIMIT && found.value.pos < off && CompOk(b, used, end, found.value)
    requires off + EncodedLen(name, i, found) <= end
    ensures Spells(b, used, off, name) && CompsOk(b, used, end, Suffixes(name, off, i))
  {
    WrittenEnd(b, used, end, off, name, i, found, off + Offset(name, i));
    ChainWhole(b, used, end, off, name, i);
  }

  /** What follows the labels of a chain is spelled behind them; so the name is spelled from its
      start, and the entries for its labels are right. */
  lemma ChainWhole(b: seq<int>, used: iset<nat>, end: nat, off: nat, name: Name, i: nat)
    requires i <= |name| && ValidName(name) && Chain(b, off, name, i)
    requires Covers(used, off, off + Offset(name, i))
    requires Spells(b, used, off + Offset(name, i), name[i..]) && off + Offset(name, i) <= end
    ensures Spells(b, used, off, name) && CompsOk(b, used, end, Suffixes(name, off, i))
  {
    assert EntriesOk(b, used, end, off, name, i) by { NewComps(b, used, end, off, name, i); }
    assert CompsOk(b, used, end, Suffixes(name, off, i)) by { SuffixesOk(b, used, end, off, name, i, i); }
    assert Spells(b, used, off, name) by {
      ChainSpells(b, used, off, name, i, 0);
      FromStart(b, used, off, name);
    }
  }

  /** After a name was written, everything recorded is still right, the new entries are right,
      and the name is spelled, unless its pointer could not hold the offset. */
  lemma Encoded(b0: seq<int>, b: seq<int>, used: iset<nat>, end: nat, comp: seq<Comp>, names: seq<(nat, Name)>,
                off: nat, name: Name, i: nat, found: Option<Comp>, used': iset<nat>, end': nat)
    requires PacketOk(b0, used, end, comp, names) && ValidName(name) && end <= off
    requires |b| == |b0| && forall k :: k in used && k < |b0| ==> b[k] == b0[k]
    requires i <= |name| && Written(b, off, name, i, found)
    requires found.Some? ==> found.value in comp
    requires used <= used' && end' == off + EncodedLen(name, i, found)
    requires Covers(used', off, end')
    requires forall j :: j in used' ==> j < end'
    ensures PacketOk(b, used', end', comp + Suffixes(name, off, i), names)
    ensures found.None? || found.value.pos < POINTER_LIMIT ==> Spells(b, used', off, name)
  {
    PacketKept(b0, b, used, used', end, end', comp, names);
    if found.Some? {
      CompsOkAt(b0, used, end, comp, found.value);
      CompsOkAt(b, used', end', comp, found.value);
    }
    if found.Some? && found.value.pos >= POINTER_LIMIT {
      FarComps(b, used', end', off, name, i);
      SuffixesOk(b, used', end', off, name, i, i);
    } else {
      WrittenSpells(b, used', end', off, name, i, found);
    }
    CompsOkAppend(b, used', end', comp, Suffixes(name, off, i));
  }

  lemma {:induction false} SuffixesInside(name: Name, off: nat, i: nat)
    requires i <= |name|
    ensures forall c :: c in Suffixes(name, off, i) ==> off <= c.pos < off + Offset(name, i)
    decreases i
  {
    if i > 0 { SuffixesInside(name, off, i - 1); }
  }

  // ----- what is compressed -----

  lemma {:induction false} SuffixesAre(name: Name, off: nat, i: nat)
    requires i <= |name|
    ensures forall k :: 0 <= k < i ==> Entry(name, off, k) in Suffixes(name, off, i)
    ensures forall c :: c in Suffixes(name, off, i) ==> exists k :: 0 <= k < i && c == Entry(name, off, k)
  {
    if i > 0 { SuffixesAre(name, off, i - 1); }
  }

  lemma SuffixTransitive(a: Name, b: Name, c: Name)
    requires IsSuffix(a, b) && IsSuffix(b, c)
    ensures IsSuffix(a, c)
  {
    assert c[|c| - |a|..] == c[|c| - |b|..][|b| - |a|..];
  }

  lemma NoneHeldNext(comp0: seq<Comp>, comp: seq<Comp>, name: Name, i: nat)
    requires NoneHeld(comp0, name, i) && i < |name| && comp0 <= comp
    requires forall c :: c in comp ==> c.rest != name[i..]
    ensures NoneHeld(comp0, name, i + 1)
  {
    forall c | c in comp0 ensures c.rest != name[i..] {
      assert c in comp;
    }
  }

  /** After a name was encoded the list holds its rests, too. */
  lemma ListGrows(comp: seq<Comp>, written: seq<Name>, off: nat, name: Name, i: nat, found: Option<Comp>)
    requires ListOk(comp, written) && i <= |name|
    requires if found.Some? then found.value in comp && i < |name| && found.value.rest == name[i..] else i == |name|
    ensures ListOk(comp + Suffixes(name, off, i), written + [name])
  {
    if found.Some? { assert Holds(comp, name[i..]); }
    forall r: Name | r != []
      ensures Holds(comp + Suffixes(name, off, i), r) <==> Known(written + [name], r)
    {
      if Holds(comp + Suffixes(name, off, i), r) { HeldIsKnown(comp, written, off, name, i, r); }
      if Known(written + [name], r) { KnownIsHeld(comp, written, off, name, i, r); }
    }
  }

  lemma KnownIsHeld(comp: seq<Comp>, written: seq<Name>, off: nat, name: Name, i: nat, r: Name)
    requires ListOk(comp, written) && i <= |name| && (i < |name| ==> Holds(comp, name[i..]))
    requires r != [] && Known(written + [name], r)
    ensures Holds(comp + Suffixes(name, off, i), r)
  {
    var n :| n in written + [name] && IsSuffix(r, n);
    if n == name && |name| - |r| < i {
      SuffixesAre(name, off, i);
      assert Entry(name, off, |name| - |r|) in comp + Suffixes(name, off, i);
    } else {
      if n == name { RestIsKnown(written, name, i, r); }
      assert Holds(comp, r);
      var c :| c in comp && c.rest == r;
      assert c in comp + Suffixes(name, off, i);
    }
  }

  lemma RestIsKnown(written: seq<Name>, name: Name, i: nat, r: Name)
    requires i < |name| && Known(written, name[i..]) && IsSuffix(r, name) && i + |r| <= |name|
    ensures Known(written, r)
  {
    var n :| n in written && IsSuffix(name[i..], n);
    SuffixTransitive(r, name[i..], n);
  }

  lemma HeldIsKnown(comp: seq<Comp>, written: seq<Name>, off: nat, name: Name, i: nat, r: Name)
    requires ListOk(comp, written) && i <= |name| && r != [] && Holds(comp + Suffixes(name, off, i), r)
    ensures Known(written + [name], r)
  {
    SuffixesAre(name, off, i);
    var c :| c in comp + Suffixes(name, off, i) && c.rest == r;
    if c in comp {
      assert Holds(comp, r);
      var n :| n in written && IsSuffix(r, n);
      assert n in written + [name];
    } else {
      assert name in written + [name] && IsSuffix(r, name);
    }
  }

  lemma {:induction false} WireFrom(name: Name, k: nat)
    requires k <= |name|
    ensures Offset(name, k) <= |Wire(name)| && Wire(name)[Offset(name, k)..] == Wire(name[k..])
  {
    if k > 0 {
      WireFrom(name, k - 1);
      TailOf(name, k - 1);
      var w := Wire(name[k - 1..]);
      assert name[k - 1..][1..] == name[k..];
      assert w == [|name[k - 1]|] + name[k - 1] + Wire(name[k..]);
      assert w[1 + |name[k - 1]|..] == Wire(name[k..]);
      assert Wire(name)[Offset(name, k)..] == w[1 + |name[k - 1]|..];
    } else {
      assert name[0..] == name;
    }
  }

  /** One more label of the uncompressed form. */
  lemma WireStep(name: Name, i: nat)
    requires 0 < i <= |name|
    ensures Offset(name, i) <= |Wire(name)|
    ensures Wire(name)[..Offset(name, i)] == Wire(name)[..Offset(name, i - 1)] + ([|name[i - 1]|] + name[i - 1])
  {
    var p, l, w := Offset(name, i - 1), name[i - 1], Wire(name);
    WireFrom(name, i);
    WireFrom(name, i - 1);
    assert name[i - 1..][1..] == name[i..];
    assert w[p..] == [|l|] + l + Wire(name[i..]);
    Joined(w, p, [|l|] + l, Wire(name[i..]));
  }

  lemma Joined(w: seq<int>, p: nat, x: seq<int>, y: seq<int>)
    requires p <= |w| && w[p..] == x + y
    ensures p + |x| <= |w| && w[..p + |x|] == w[..p] + x
  {
    assert w == w[..p] + w[p..];
  }

  lemma LabelBytes(b: seq<int>, off: nat, p: nat, l: Label)
    requires LabelAt(b, off + p, l)
    ensures b[off..off + p + 1 + |l|] == b[off..off + p] + ([|l|] + l)
  {
    assert b[off..off + p + 1 + |l|] == b[off..off + p] + ([b[off + p]] + b[off + p + 1..off + p + 1 + |l|]);
  }

  /** Copied labels are the start of the uncompressed form. */
  lemma {:induction false} ChainIsWire(b: seq<int>, off: nat, name: Name, i: nat)
    requires i <= |name| && Chain(b, off, name, i) && off + Offset(name, i) <= |b|
    ensures Offset(name, i) <= |Wire(name)| && b[off..off + Offset(name, i)] == Wire(name)[..Offset(name, i)]
  {
    WireFrom(name, i);
    if i > 0 {
      ChainIsWire(b, off, name, i - 1);
      WireStep(name, i);
      LabelBytes(b, off, Offset(name, i - 1), name[i - 1]);
    }
  }

  /** Where a name is cut, and what is written of it. */
  lemma CutExactly(comp: seq<Comp>, written: seq<Name>, b: seq<int>, off: nat, name: Name, i: nat, found: Option<Comp>)
    requires ListOk(comp, written) && i <= |name| && Written(b, off, name, i, found) && ValidName(name)
    requires found.Some? ==> found.value in comp
    requires NoneHeld(comp, name, i)
    ensures Compressed(b, off, EncodedLen(name, i, found), written, name)
  {
    forall j | 0 <= j < i ensures !Known(written, name[j..]) {
      assert name[j..] != [];
    }
    if found.Some? {
      assert Holds(comp, name[i..]);
      CutWritten(b, off, name, i, found);
    } else {
      FullWritten(b, off, name, found);
    }
  }

  lemma CutWritten(b: seq<int>, off: nat, name: Name, i: nat, found: Option<Comp>)
    requires ValidName(name) && i <= |name| && Written(b, off, name, i, found) && found.Some?
    ensures CutAt(b, off, EncodedLen(name, i, found), name, i)
  {
    OffsetFits(name, i);
    ChainIsWire(b, off, name, i);
  }

  lemma FullWritten(b: seq<int>, off: nat, name: Name, found: Option<Comp>)
    requires ValidName(name) && Written(b, off, name, |name|, found) && found.None?
    ensures InFull(b, off, EncodedLen(name, |name|, found), name)
  {
    var p := Offset(name, |name|);
    ChainIsWire(b, off, name, |name|);
    WireFrom(name, |name|);
    assert Wire(name) == Wire(name)[..p] + [0];
    assert b[off..off + p + 1] == b[off..off + p] + [b[off + p]];
  }
}
