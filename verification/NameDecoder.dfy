/** The decoder of compressed names, `uncompress_nlabel` (section 4.1.4 of RFC 1035). */
module NameDecoder {

  import opened Names

  /** What `strncpy` makes of the bytes: zeros from the first zero on. */
  function CStr(s: seq<int>): (r: seq<int>)
    ensures |r| == |s|
  {
    if s == [] then [] else if s[0] == 0 then Zeros(|s|) else [s[0]] + CStr(s[1..])
  }

  function Zeros(n: nat): (r: seq<int>)
    ensures |r| == n && forall i :: 0 <= i < n ==> r[i] == 0
  {
    if n == 0 then [] else [0] + Zeros(n - 1)
  }

  lemma {:induction false} CStrKeeps(s: seq<int>)
    requires forall i :: 0 <= i < |s| ==> s[i] != 0
    ensures CStr(s) == s
  {
    if s != [] { CStrKeeps(s[1..]); }
  }

  /** Where the label that a byte at p leads to stands, if all of it is inside the packet. */
  function Found(b: seq<int>, p: nat): (q: Option<nat>)
    requires p < |b|
    ensures q.Some? ==> q.value < |b| && 0 <= b[q.value] < |b| - q.value
  {
    if IsPointer(b[p]) && p + 1 >= |b| then None else
    var q := if IsPointer(b[p]) then Target(b[p], b[p + 1]) else p;
    if 0 <= q < |b| && 0 <= b[q] < |b| - q then Some(q) else None
  }

  /** How the decoding of a name ends: with its text; because bytes outside of the packet are needed;
      or not within the labels that it is given. */
  datatype Decoding = Done(text: seq<int>) | Outside | Unfinished

  /** What a decoder of at most `budget` labels finds at p. */
  function Decoded(b: seq<int>, p: nat, budget: nat): Decoding
    decreases budget
  {
    if p >= |b| || b[p] == 0 then Done([0])
    else if budget == 0 then Unfinished
    else match Found(b, p)
      case None => Outside
      case Some(q) => Behind(CStr(b[q..q + b[q] + 1]), Decoded(b, q + b[q] + 1, budget - 1))
  }

  function Behind(front: seq<int>, o: Decoding): Decoding {
    if o.Done? then Done(front + o.text) else o
  }

  // ----- when the decoder ends -----

  /** A decoding that ends does not need the rest of its budget. */
  lemma {:induction false} MoreBudget(b: seq<int>, p: nat, k: nat, n: nat)
    requires k <= n && Decoded(b, p, k) != Unfinished
    ensures Decoded(b, p, n) == Decoded(b, p, k)
    decreases k
  {
    if k > 0 && p < |b| && b[p] != 0 && Found(b, p).Some? {
      var q := Found(b, p).value;
      MoreBudget(b, q + b[q] + 1, k - 1, n - 1);
    }
  }

  /** A decoding takes exactly m labels. */
  predicate Takes(b: seq<int>, p: nat, m: nat) {
    Decoded(b, p, m) != Unfinished && (m > 0 ==> Decoded(b, p, m - 1) == Unfinished)
  }

  /** It meets that many different positions of the packet: from each of them fewer labels are left
      than from the one before. */
  lemma {:induction false} Visited(b: seq<int>, p: nat, m: nat) returns (s: set<nat>)
    requires Takes(b, p, m)
    ensures |s| == m && forall x :: x in s ==> x < |b| && Decoded(b, x, m) != Unfinished
    decreases m
  {
    s := {};
    if m > 0 {
      var rest: set<nat> := {};
      if Found(b, p).Some? {
        var q := Found(b, p).value;
        rest := Visited(b, q + b[q] + 1, m - 1);
      }
      assert p !in rest;
      s := rest + {p};
      forall x | x in s ensures Decoded(b, x, m) != Unfinished {
        if x != p { MoreBudget(b, x, m - 1, m); }
      }
    }
  }

  lemma {:induction false} BelowSize(s: set<nat>, n: nat)
    requires forall x :: x in s ==> x < n
    ensures |s| <= n
  {
    if n > 0 {
      BelowSize(s - {n - 1}, n - 1);
    } else {
      assert s == {};
    }
  }

  /** The least budget with which a decoding ends. */
  lemma {:induction false} LeastBudget(b: seq<int>, p: nat, n: nat) returns (m: nat)
    requires Decoded(b, p, n) != Unfinished
    ensures m <= n && Takes(b, p, m)
  {
    if n > 0 && Decoded(b, p, n - 1) != Unfinished {
      m := LeastBudget(b, p, n - 1);
    } else {
      m := n;
    }
  }

  /** If a decoding ends at all, it ends within as many labels as the packet has bytes. */
  lemma EndsWithin(b: seq<int>, p: nat, n: nat)
    requires Decoded(b, p, n) != Unfinished
    ensures Decoded(b, p, |b|) == Decoded(b, p, n)
  {
    var m := LeastBudget(b, p, n);
    var s := Visited(b, p, m);
    BelowSize(s, |b|);
    MoreBudget(b, p, m, |b|);
    MoreBudget(b, p, m, n);
  }

  /** So the decoder never ends if and only if it does not end within that many. */
  lemma NeverEndsExactly(b: seq<int>, p: nat)
    ensures Decoded(b, p, |b|) == Unfinished <==> forall n :: Decoded(b, p, n) == Unfinished
  {
    forall n | Decoded(b, p, |b|) == Unfinished ensures Decoded(b, p, n) == Unfinished {
      if Decoded(b, p, n) != Unfinished { EndsWithin(b, p, n); }
    }
  }

  /** A packet on which it never ends: the label "a" and behind it a pointer to that label, which leads
      strictly backwards to a literal label. Decoding goes on behind the label, at the pointer. */
  lemma {:induction false} BackwardLoop(n: nat)
    ensures Decoded([1, 97, 192, 0], 0, n) == Decoded([1, 97, 192, 0], 2, n) == Unfinished
  {
    var b := [1, 97, 192, 0];
    assert Found(b, 0) == Some(0) && Found(b, 2) == Some(0);
    if n > 0 { BackwardLoop(n - 1); }
  }

  // ----- the loops -----

  /** A walk from off has decoded `front` and stands at p. */
  predicate Walk(b: seq<int>, off: nat, budget: nat, front: seq<int>, p: nat, left: nat) {
    Decoded(b, off, budget) == Behind(front, Decoded(b, p, left))
  }

  lemma WalkStart(b: seq<int>, off: nat, budget: nat)
    ensures Walk(b, off, budget, [], off, budget)
  {
    var o := Decoded(b, off, budget);
    if o.Done? { assert [] + o.text == o.text; }
  }

  /** One label of a walk. */
  lemma WalkStep(b: seq<int>, off: nat, budget: nat, front: seq<int>, p: nat, left: nat, q: nat)
    requires Walk(b, off, budget, front, p, left) && p < |b| && b[p] != 0 && left > 0 && Found(b, p) == Some(q)
    ensures Walk(b, off, budget, front + CStr(b[q..q + b[q] + 1]), q + b[q] + 1, left - 1)
  {
    var o := Decoded(b, q + b[q] + 1, left - 1);
    if o.Done? {
      assert front + (CStr(b[q..q + b[q] + 1]) + o.text) == front + CStr(b[q..q + b[q] + 1]) + o.text;
    }
  }

  lemma WalkOn(b: seq<int>, off: nat, budget: nat, front: seq<int>, p: nat, left: nat, q: nat)
    returns (front': seq<int>)
    requires Walk(b, off, budget, front, p, left) && p < |b| && b[p] != 0 && left > 0 && Found(b, p) == Some(q)
    ensures |front'| == |front| + b[q] + 1 && Walk(b, off, budget, front', q + b[q] + 1, left - 1)
  {
    WalkStep(b, off, budget, front, p, left, q);
    front' := front + CStr(b[q..q + b[q] + 1]);
  }

  lemma WalkEnd(b: seq<int>, off: nat, budget: nat, front: seq<int>, p: nat, left: nat)
    requires Walk(b, off, budget, front, p, left) && (p >= |b| || b[p] == 0)
    ensures Decoded(b, off, budget) == Done(front + [0])
  {}

  lemma WalkStuck(b: seq<int>, off: nat, budget: nat, front: seq<int>, p: nat, left: nat)
    requires Walk(b, off, budget, front, p, left) && p < |b| && b[p] != 0 && (left == 0 || Found(b, p).None?)
    ensures Decoded(b, off, budget) == if left == 0 then Unfinished else Outside
  {}

  /** A walk that gets to its end has room for the label it stands at. */
  lemma WalkRoom(b: seq<int>, off: nat, budget: nat, front: seq<int>, p: nat, left: nat)
    requires Walk(b, off, budget, front, p, left) && p < |b| && b[p] != 0 && Decoded(b, off, budget).Done?
    ensures left > 0 && Found(b, p).Some?
    ensures |front| + b[Found(b, p).value] + 1 < |Decoded(b, off, budget).text|
  {
    var q := Found(b, p).value;
    DecodedNotEmpty(b, q + b[q] + 1, left - 1);
  }

  lemma DecodedNotEmpty(b: seq<int>, p: nat, left: nat)
    ensures Decoded(b, p, left).Done? ==> |Decoded(b, p, left).text| > 0
  {}

  lemma {:induction false} CStrSplit(s: seq<int>, i: nat)
    requires i <= |s| && (i < |s| ==> s[i] == 0) && forall k :: 0 <= k < i ==> s[k] != 0
    ensures CStr(s) == s[..i] + Zeros(|s| - i)
  {
    if i > 0 {
      CStrSplit(s[1..], i - 1);
      assert s[..i] == [s[0]] + s[1..][..i - 1];
    }
  }

  method StrNCpy(dst: array<int>, d: nat, src: array<int>, p: nat, n: nat)
    requires d + n <= dst.Length && p + n <= src.Length && dst != src
    modifies dst
    ensures dst[..d + n] == old(dst[..d]) + CStr(src[p..p + n])
  {
    ghost var s, front := src[p..p + n], dst[..d];
    var i := 0;
    while i < n && src[p + i] != 0
      invariant i <= n && src[p..p + n] == s && forall k :: 0 <= k < i ==> s[k] != 0
      invariant dst[..d + i] == front + s[..i]
    {
      PushSame(front, s, i, src[p + i]);
      dst[d + i] := src[p + i];
      assert dst[..d + i + 1] == dst[..d + i] + [src[p + i]];
      i := i + 1;
    }
    assert i < n ==> s[i] == src[p + i];
    CStrSplit(s, i);
    PutZeros(dst, d + i, n - i);
    Together(front, s[..i], Zeros(n - i));
  }

  lemma PushSame(front: seq<int>, s: seq<int>, i: nat, x: int)
    requires i < |s| && x == s[i]
    ensures front + s[..i] + [x] == front + s[..i + 1]
  {}

  lemma Together(a: seq<int>, b: seq<int>, c: seq<int>)
    ensures a + b + c == a + (b + c)
  {}

  method PutZeros(dst: array<int>, d: nat, n: nat)
    requires d + n <= dst.Length
    modifies dst
    ensures dst[..d + n] == old(dst[..d]) + Zeros(n)
  {
    forall k | d <= k < d + n {
      dst[k] := 0;
    }
  }

  /** What comes of a call: a name with its final zero; no name because the offset lies behind the
      packet; a read outside of the packet; or no return at all. */
  datatype Outcome = Text(text: seq<int>) | Null | ReadsOutside | NeverEnds

  /** `uncompress_nlabel`: measures the name, then copies it to a string of just that size. Where the
      original would not return, this says so. */
  method Uncompress(b: array<int>, pktLen: nat, off: nat) returns (r: Outcome)
    requires pktLen <= b.Length
    ensures off >= pktLen <==> r == Null
    ensures off < pktLen ==> (r == NeverEnds <==> forall n :: Decoded(b[..pktLen], off, n) == Unfinished)
    ensures forall n :: off < pktLen && Decoded(b[..pktLen], off, n) != Unfinished ==>
              r == if Decoded(b[..pktLen], off, n).Done? then Text(Decoded(b[..pktLen], off, n).text) else ReadsOutside
  {
    if off >= pktLen {
      return Null;
    }
    ghost var s := b[..pktLen];
    NeverEndsExactly(s, off);
    forall n | Decoded(s, off, n) != Unfinished ensures Decoded(s, off, n) == Decoded(s, off, pktLen) {
      EndsWithin(s, off, n);
    }
    var ends, len := Measure(b, pktLen, off, pktLen);
    if len.None? {
      return if ends then ReadsOutside else NeverEnds;
    }
    var str := Copy(b, pktLen, off, pktLen, len.value);
    r := Text(str[..]);
  }

  /** Where the label for the byte at p stands. */
  method FindLabel(b: array<int>, pktLen: nat, p: nat) returns (q: Option<nat>)
    requires p < pktLen <= b.Length
    ensures q == Found(b[..pktLen], p)
  {
    var at := p as int;
    if IsPointer(b[p]) {
      if p + 1 >= pktLen {
        return None;
      }
      at := Target(b[p], b[p + 1]);
    }
    q := if 0 <= at < pktLen && 0 <= b[at] < pktLen - at then Some(at) else None;
  }

  /** The number of bytes that the decoded labels need, if all of them are inside the packet and the
      walk ends within `budget` labels. */
  method Measure(b: array<int>, pktLen: nat, off: nat, budget: nat) returns (ends: bool, len: Option<nat>)
    requires pktLen <= b.Length
    ensures match Decoded(b[..pktLen], off, budget)
            case Done(t) => ends && len.Some? && |t| == len.value + 1
            case Outside => ends && len.None?
            case Unfinished => !ends && len.None?
  {
    ghost var s := b[..pktLen];
    ghost var front: seq<int> := [];
    var n: nat, p: nat, left: nat := 0, off, budget;
    WalkStart(s, off, budget);
    while p < pktLen && b[p] != 0
      invariant Walk(s, off, budget, front, p, left) && n == |front|
      decreases left
    {
      var q := FindLabel(b, pktLen, p);
      if left == 0 || q.None? {
        WalkStuck(s, off, budget, front, p, left);
        return left > 0, None;
      }
      front := WalkOn(s, off, budget, front, p, left, q.value);
      n := n + b[q.value] + 1;
      p, left := q.value + b[q.value] + 1, left - 1;
    }
    WalkEnd(s, off, budget, front, p, left);
    ends, len := true, Some(n);
  }

  method Copy(b: array<int>, pktLen: nat, off: nat, budget: nat, len: nat) returns (str: array<int>)
    requires pktLen <= b.Length
    requires Decoded(b[..pktLen], off, budget).Done? && |Decoded(b[..pktLen], off, budget).text| == len + 1
    ensures fresh(str) && Decoded(b[..pktLen], off, budget) == Done(str[..])
  {
    ghost var s := b[..pktLen];
    str := new int[len + 1];
    var sp: nat, p: nat := 0, off;
    ghost var left: nat := budget;
    WalkStart(s, off, budget);
    assert str[..0] == [];
    while p < pktLen && b[p] != 0
      invariant sp <= len && b[..pktLen] == s && Walk(s, off, budget, str[..sp], p, left)
      decreases left
    {
      sp, p := CopyNext(b, pktLen, p, str, sp, s, off, budget, left);
      left := left - 1;
    }
    WalkEnd(s, off, budget, str[..sp], p, left);
    PutEnd(str, sp);
  }

  /** `*sp = '\0'` */
  method PutEnd(str: array<int>, sp: nat)
    requires sp + 1 == str.Length
    modifies str
    ensures str[..] == old(str[..sp]) + [0]
  {
    str[sp] := 0;
  }

  /** One round of the loop above. */
  method CopyNext(b: array<int>, pktLen: nat, p: nat, str: array<int>, sp: nat,
                  ghost s: seq<int>, ghost off: nat, ghost budget: nat, ghost left: nat)
    returns (sp': nat, p': nat)
    requires p < pktLen <= b.Length && str != b && b[..pktLen] == s && b[p] != 0 && sp < str.Length
    requires Walk(s, off, budget, str[..sp], p, left)
    requires Decoded(s, off, budget).Done? && |Decoded(s, off, budget).text| == str.Length
    modifies str
    ensures left > 0 && sp' < str.Length && Walk(s, off, budget, str[..sp'], p', left - 1)
  {
    WalkRoom(s, off, budget, str[..sp], p, left);
    WalkStep(s, off, budget, str[..sp], p, left, Found(s, p).value);
    assert s[p] == b[p] && s[Found(s, p).value] == b[Found(s, p).value];
    sp', p' := CopyLabel(b, pktLen, p, str, sp);
  }

  /** Appends the label for the byte at p to the string. */
  method CopyLabel(b: array<int>, pktLen: nat, p: nat, str: array<int>, sp: nat) returns (sp': nat, p': nat)
    requires p < pktLen <= b.Length && str != b && Found(b[..pktLen], p).Some?
    requires sp + b[Found(b[..pktLen], p).value] < str.Length
    modifies str
    ensures p' == Found(b[..pktLen], p).value + b[Found(b[..pktLen], p).value] + 1
    ensures sp' == sp + b[Found(b[..pktLen], p).value] + 1 <= str.Length
    ensures str[..sp'] == old(str[..sp]) + CStr(b[..pktLen][Found(b[..pktLen], p).value..p'])
  {
    var q := FindLabel(b, pktLen, p);
    var llen := b[q.value] + 1;
    StrNCpy(str, sp, b, q.value, llen);
    assert b[..pktLen][q.value..q.value + llen] == b[q.value..q.value + llen];
    sp', p' := sp + llen, q.value + llen;
  }

  /** A decoder gets back the name that is spelled, byte for byte. */
  lemma {:induction false} SpelledIsDecoded(b: seq<int>, used: iset<nat>, off: nat, name: Name, budget: nat)
    requires ValidName(name) && Spells(b, used, off, name) && |name| <= budget
    ensures Decoded(b, off, budget) == Done(Wire(name))
    decreases |name|
  {
    if name != [] {
      SpelledLabel(b, used, off, name, budget);
      SpelledIsDecoded(b, used, LabelPos(b, off) + 1 + |name[0]|, name[1..], budget - 1);
    }
  }

  lemma SpelledLabel(b: seq<int>, used: iset<nat>, off: nat, name: Name, budget: nat)
    requires ValidName(name) && name != [] && Spells(b, used, off, name) && budget > 0
    ensures Decoded(b, off, budget)
         == Behind([|name[0]|] + name[0], Decoded(b, LabelPos(b, off) + 1 + |name[0]|, budget - 1))
  {
    var q, l := LabelPos(b, off), name[0];
    assert ValidLabel(l) && LiteralAt(b, used, q, l);
    assert b[q..q + |l| + 1] == [|l|] + l;
    CStrKeeps([|l|] + l);
  }

  /** Every name encoded into a packet below 2^14 is decoded to itself wherever it was encoded,
      in any part of the packet that holds all names. */
  lemma Readable(packet: Packet, k: nat, pktLen: nat, budget: nat)
    requires packet.Valid() && k < |packet.names| && |packet.names[k].1| <= budget
    requires packet.end <= pktLen <= packet.buf.Length
    ensures packet.names[k].0 < pktLen
    ensures Decoded(packet.buf[..pktLen], packet.names[k].0, budget) == Done(Wire(packet.names[k].1))
  {
    var b, at := packet.buf[..], packet.names[k];
    NamesOkAt(b, packet.used, packet.names, k);
    assert b[..pktLen] == packet.buf[..pktLen];
    SpellsKept(b, b[..pktLen], packet.used, packet.used, at.0, at.1);
    SpelledIsDecoded(b[..pktLen], packet.used, at.0, at.1, budget);
  }

  /** So the decoder returns on every encoded name, and returns that name. */
  method DecodeEncoded(packet: Packet, ghost k: nat, off: nat, pktLen: nat) returns (r: Outcome)
    requires packet.Valid() && k < |packet.names| && packet.names[k].0 == off
    requires packet.end <= pktLen <= packet.buf.Length
    ensures r == Text(Wire(packet.names[k].1))
  {
    ghost var n := |packet.names[k].1|;
    Readable(packet, k, pktLen, n);
    r := Uncompress(packet.buf, pktLen, off);
    assert Decoded(packet.buf[..pktLen], off, n) == Done(Wire(packet.names[k].1));
  }
}
