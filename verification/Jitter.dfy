/** The AirPlay jitter buffer: packets with 16-bit sequence numbers are put into 512 slots and
    taken out in order. */
module Jitter {

  const BUFFER_FRAMES := 512
  const SEQ := 0x10000

  /** What a slot holds: decoded samples, or zeros. */
  datatype Sound = Silence | Decoded(samples: seq<int>)

  /** A difference as a signed 16-bit number. */
  function Signed(d: int): int {
    if d % SEQ < 0x8000 then d % SEQ else d % SEQ - SEQ
  }

  // ----- the buffer -----

  datatype State = State(read: int, write: int, buffering: bool, synced: bool, ready: seq<bool>, data: seq<Sound>) {
    predicate Wf() { |ready| == BUFFER_FRAMES && |data| == BUFFER_FRAMES }

    function Fill(): int { Signed(write - read) }

    function Store(seqno: int, f: Sound): State
      requires Wf()
    {
      this.(ready := ready[seqno % BUFFER_FRAMES := true], data := data[seqno % BUFFER_FRAMES := f])
    }
  }

  datatype Event = Put(seqno: int, samples: seq<int>) | Get | Flush

  /** What an event does towards the network or the player. */
  datatype Out = Nothing | Resend(first: int, last: int) | Played(seqno: int, sound: Sound)

  function Synced(s: State, seqno: int): State {
    if s.synced then s else s.(write := (seqno - 1) % SEQ, read := seqno, synced := true)
  }

  /** `player_put_packet` as one step. */
  function PutStep(s: State, seqno: int, samples: seq<int>, startFill: int): State
    requires s.Wf()
  {
    var s := Synced(s, seqno);
    var newer := Signed(seqno - s.write) > 0;
    var late := Signed(seqno - s.read) > 0;
    var s := if newer then s.(write := seqno) else s;
    var fill := s.Fill();
    var s := if newer || late then s.Store(seqno, Decoded(samples)) else s;
    if s.buffering && fill >= startFill then s.(buffering := false) else s
  }

  function PutOut(s: State, seqno: int): Out {
    var s := Synced(s, seqno);
    if Signed(seqno - s.write) > 1 then Resend((s.write + 1) % SEQ, (seqno - 1) % SEQ) else Nothing
  }

  predicate Underrun(s: State) { s.Fill() < 1 || !s.synced }

  /** The number that the next frame is read at; an overrun restarts behind the newest packet. */
  function ReadAt(s: State, startFill: int): int {
    if s.Fill() >= BUFFER_FRAMES then (s.write - startFill) % SEQ else s.read
  }

  /** `buffer_get_frame`. */
  function GetStep(s: State, startFill: int): State
    requires s.Wf()
  {
    if s.buffering then s
    else if Underrun(s) then s.(buffering := true)
    else
      var read := ReadAt(s, startFill);
      var i := read % BUFFER_FRAMES;
      s.(read := (read + 1) % SEQ, data := if s.ready[i] then s.data else s.data[i := Silence],
         ready := s.ready[i := false])
  }

  function GetOut(s: State, startFill: int): Out
    requires s.Wf()
  {
    if s.buffering || Underrun(s) then Nothing
    else
      var read := ReadAt(s, startFill);
      Played(read, if s.ready[read % BUFFER_FRAMES] then s.data[read % BUFFER_FRAMES] else Silence)
  }

  /** `ab_resync`. */
  function FlushStep(s: State): State {
    s.(ready := seq(BUFFER_FRAMES, _ => false), synced := false, buffering := true)
  }

  function Step(s: State, e: Event, startFill: int): State
    requires s.Wf()
  {
    match e
    case Put(n, f) => PutStep(s, n % SEQ, f, startFill)
    case Get => GetStep(s, startFill)
    case Flush => FlushStep(s)
  }

  function StepOut(s: State, e: Event, startFill: int): Out
    requires s.Wf()
  {
    match e
    case Put(n, _) => PutOut(s, n % SEQ)
    case Get => GetOut(s, startFill)
    case Flush => Nothing
  }

  lemma ExpectedIsNewer(d: int)
    ensures d % SEQ == 1 <==> Signed(d) == 1
  {}

  /** The buffer in memory. */
  class AudioBuffer {
    const ready: array<bool>
    const data: array<Sound>
    var abRead: int
    var abWrite: int
    var abBuffering: bool
    var abSynced: bool

    ghost predicate Valid() {
      ready.Length == BUFFER_FRAMES && data.Length == BUFFER_FRAMES
    }

    ghost function View(): (s: State)
      requires Valid()
      reads this, ready, data
      ensures s.Wf()
    {
      State(abRead, abWrite, abBuffering, abSynced, ready[..], data[..])
    }

    /** `init_buffer`. */
    constructor ()
      ensures Valid() && View() == FlushStep(View()) && fresh(ready) && fresh(data)
      ensures 0 <= abRead < SEQ && 0 <= abWrite < SEQ
    {
      ready := new bool[BUFFER_FRAMES];
      data := new Sound[BUFFER_FRAMES];
      abRead, abWrite := 0, 0;
      new;
      Resync();
    }

    method Resync()
      requires Valid()
      modifies this, ready
      ensures View() == FlushStep(old(View()))
    {
      for i := 0 to BUFFER_FRAMES
        invariant unchanged(this) && forall j :: 0 <= j < i ==> !ready[j]
      {
        ready[i] := false;
      }
      abSynced := false;
      abBuffering := true;
    }

    method PutPacket(seqno: int, samples: seq<int>, startFill: int) returns (out: Out)
      requires Valid() && 0 <= seqno < SEQ
      modifies this, ready, data
      ensures View() == PutStep(old(View()), seqno, samples, startFill)
      ensures out == PutOut(old(View()), seqno)
    {
      var hit;
      hit, out := TakeIn(seqno);
      var fill := Signed(abWrite - abRead);
      if hit {
        StoreAt(seqno, samples);
      }
      if abBuffering && fill >= startFill {
        abBuffering := false;
      }
    }

    method StoreAt(seqno: int, samples: seq<int>)
      requires Valid()
      modifies ready, data
      ensures View() == old(View()).Store(seqno, Decoded(samples))
    {
      data[seqno % BUFFER_FRAMES] := Decoded(samples);
      ready[seqno % BUFFER_FRAMES] := true;
    }

    /** Decides whether there is a place for a packet, and which packets to ask for. */
    method TakeIn(seqno: int) returns (hit: bool, out: Out)
      requires Valid() && 0 <= seqno < SEQ
      modifies this`abRead, this`abWrite, this`abSynced
      ensures var s := Synced(old(View()), seqno);
              && out == PutOut(old(View()), seqno)
              && View() == (if Signed(seqno - s.write) > 0 then s.(write := seqno) else s)
              && hit == (Signed(seqno - s.write) > 0 || Signed(seqno - s.read) > 0)
    {
      out := Nothing;
      if !abSynced {
        abWrite := (seqno - 1) % SEQ;
        abRead := seqno;
        abSynced := true;
      }
      ExpectedIsNewer(seqno - abWrite);
      hit := true;
      if (seqno - abWrite) % SEQ == 1 {
        abWrite := seqno;
      } else if Signed(seqno - abWrite) > 0 {
        out := Resend((abWrite + 1) % SEQ, (seqno - 1) % SEQ);
        abWrite := seqno;
      } else if Signed(seqno - abRead) > 0 {
      } else {
        hit := false;
      }
    }

    method GetFrame(startFill: int) returns (out: Out)
      requires Valid()
      modifies this, ready, data
      ensures View() == Step(old(View()), Get, startFill)
      ensures out == StepOut(old(View()), Get, startFill)
    {
      if abBuffering {
        return Nothing;
      }
      var fill := Signed(abWrite - abRead);
      if fill < 1 || !abSynced {
        abBuffering := true;
        return Nothing;
      }
      if fill >= BUFFER_FRAMES {
        abRead := (abWrite - startFill) % SEQ;
      }
      var read := abRead;
      abRead := (abRead + 1) % SEQ;
      var i := read % BUFFER_FRAMES;
      if !ready[i] {
        data[i] := Silence;
      }
      ready[i] := false;
      out := Played(read, data[i]);
    }
  }

  // ----- the same without wrapping and without slots -----

  /** Packets under unbounded numbers from lo, the next to be played, to hi, the newest. */
  datatype Ideal = Ideal(on: bool, lo: int, hi: int, frames: map<int, Sound>, buffering: bool)

  /** The unbounded number closest to the newest packet that a sequence number stands for. */
  function Number(hi: int, seqno: int): int { hi + Signed(seqno - hi) }

  function IdealPut(m: Ideal, seqno: int, samples: seq<int>, startFill: int): Ideal {
    var m :=
      if !m.on then Ideal(true, seqno, seqno, map[seqno := Decoded(samples)], m.buffering)
      else
        var n := Number(m.hi, seqno);
        if n <= m.lo && n <= m.hi then m
        else m.(hi := if n > m.hi then n else m.hi, frames := m.frames[n := Decoded(samples)]);
    if m.buffering && m.hi - m.lo >= startFill then m.(buffering := false) else m
  }

  function IdealStep(m: Ideal, e: Event, startFill: int): Ideal {
    match e
    case Put(n, f) => IdealPut(m, n % SEQ, f, startFill)
    case Get =>
      if m.buffering then m
      else if !m.on || m.lo >= m.hi then m.(buffering := true)
      else m.(lo := m.lo + 1, frames := m.frames - {m.lo})
    case Flush => Ideal(false, m.lo, m.hi, map[], true)
  }

  /** Asks for the numbers between the newest packet and the one put; plays the lowest number. */
  function IdealOut(m: Ideal, e: Event): Out {
    match e
    case Put(seqno, _) =>
      var n := Number(m.hi, seqno % SEQ);
      if m.on && n > m.hi + 1 then Resend((m.hi + 1) % SEQ, (n - 1) % SEQ) else Nothing
    case Get =>
      if m.buffering || !m.on || m.lo >= m.hi then Nothing
      else Played(m.lo % SEQ, if m.lo in m.frames then m.frames[m.lo] else Silence)
    case Flush => Nothing
  }

  // ----- refinement -----

  /** The number out of 512 in a row from lo on that belongs to slot i. */
  function At(lo: int, i: int): int { lo + (i - lo) % BUFFER_FRAMES }

  /** Slot i holds the packet of the number that belongs to it, or none. */
  predicate SlotOk(s: State, m: Ideal, i: int)
    requires s.Wf() && 0 <= i < BUFFER_FRAMES
  {
    && (s.ready[i] <==> At(m.lo, i) in m.frames)
    && (s.ready[i] ==> s.data[i] == m.frames[At(m.lo, i)])
  }

  ghost predicate SlotsOk(s: State, m: Ideal)
    requires s.Wf()
  {
    forall i :: 0 <= i < BUFFER_FRAMES ==> SlotOk(s, m, i)
  }

  ghost predicate Sim(s: State, m: Ideal) {
    && s.Wf() && s.synced == m.on && s.buffering == m.buffering
    && if !m.on then s.buffering && m.frames == map[] && (forall i :: 0 <= i < BUFFER_FRAMES ==> !s.ready[i])
       else
         && s.read == m.lo % SEQ && s.write == m.hi % SEQ && m.lo <= m.hi < m.lo + BUFFER_FRAMES
         && (forall n :: n in m.frames ==> m.lo <= n <= m.hi)
         && SlotsOk(s, m)
  }

  lemma SignedExact(a: int, b: int, x: int, y: int)
    requires a % SEQ == x % SEQ && b % SEQ == y % SEQ && -0x8000 <= x - y < 0x8000
    ensures Signed(a - b) == x - y
  {
    var j, k := a / SEQ - x / SEQ, b / SEQ - y / SEQ;
    assert a - b == x - y + (j - k) * SEQ;
  }

  lemma NumberExact(hi: int, seqno: int)
    ensures Number(hi, seqno) % SEQ == seqno % SEQ
    ensures -0x8000 <= Number(hi, seqno) - hi < 0x8000
  {
    var d := seqno - hi;
    assert d == d / SEQ * SEQ + d % SEQ;
    var k := if d % SEQ < 0x8000 then d / SEQ else d / SEQ + 1;
    assert Number(hi, seqno) == seqno - k * SEQ;
    ModShift(seqno, k);
  }

  lemma ModShift(n: int, k: int)
    ensures (n - k * SEQ) % SEQ == n % SEQ
  {
    var q := n / SEQ - k;
    assert n - k * SEQ == q * SEQ + n % SEQ;
  }

  lemma SlotOf(n: int)
    ensures n % SEQ % BUFFER_FRAMES == n % BUFFER_FRAMES
  {
    var q := n / SEQ;
    assert n == q * 128 * BUFFER_FRAMES + n % SEQ;
  }

  lemma AtExact(lo: int, n: int, i: int)
    requires lo <= n < lo + BUFFER_FRAMES && 0 <= i < BUFFER_FRAMES
    ensures At(lo, i) == n <==> i == n % BUFFER_FRAMES
  {}

  lemma AtNext(lo: int, i: int)
    requires 0 <= i < BUFFER_FRAMES
    ensures At(lo + 1, i) == if i == lo % BUFFER_FRAMES then lo + BUFFER_FRAMES else At(lo, i)
  {}

  /** Numbers and indices after a packet was taken in, before it is stored. */
  lemma PutIndices(s: State, m: Ideal, seqno: int)
    requires Sim(s, m) && m.on && 0 <= seqno < SEQ
    ensures Signed(seqno - s.write) == Number(m.hi, seqno) - m.hi
    ensures Number(m.hi, seqno) <= m.hi ==> Signed(seqno - s.read) == Number(m.hi, seqno) - m.lo
    ensures Number(m.hi, seqno) % SEQ == seqno
    ensures Number(m.hi, seqno) - m.hi < 0x8000
  {
    var n := Number(m.hi, seqno);
    NumberExact(m.hi, seqno);
    SignedExact(seqno, s.write, n, m.hi);
    if n <= m.hi {
      SignedExact(seqno, s.read, n, m.lo);
    }
  }

  lemma StoreKeeps(s: State, m: Ideal, n: int, f: Sound, hi: int)
    requires s.Wf() && m.lo <= n <= hi < m.lo + BUFFER_FRAMES && SlotsOk(s, m)
    ensures SlotsOk(s.Store(n % SEQ, f), m.(hi := hi, frames := m.frames[n := f]))
  {
    SlotOf(n);
    var t, m' := s.Store(n % SEQ, f), m.(hi := hi, frames := m.frames[n := f]);
    forall i | 0 <= i < BUFFER_FRAMES ensures SlotOk(t, m', i) {
      assert SlotOk(s, m, i);
      AtExact(m.lo, n, i);
    }
  }

  /** The slots do not depend on the other parts of the state. */
  lemma SlotsSame(s: State, m: Ideal, s': State, m': Ideal)
    requires s.Wf() && SlotsOk(s, m) && s'.ready == s.ready && s'.data == s.data
    requires m'.lo == m.lo && m'.frames == m.frames
    ensures SlotsOk(s', m')
  {
    forall i | 0 <= i < BUFFER_FRAMES ensures SlotOk(s', m', i) {
      assert SlotOk(s, m, i);
    }
  }

  /** The first packet. */
  lemma FirstPut(s: State, m: Ideal, seqno: int, samples: seq<int>, startFill: int)
    requires Sim(s, m) && !m.on && 0 <= seqno < SEQ
    ensures Sim(PutStep(s, seqno, samples, startFill), IdealPut(m, seqno, samples, startFill))
    ensures PutOut(s, seqno) == Nothing
  {
    var t, m' := PutStep(s, seqno, samples, startFill), IdealPut(m, seqno, samples, startFill);
    SignedExact(seqno, (seqno - 1) % SEQ, seqno, seqno - 1);
    SignedExact(seqno, seqno, seqno, seqno);
    forall i | 0 <= i < BUFFER_FRAMES ensures SlotOk(t, m', i) {
      AtExact(seqno, seqno, i);
    }
  }

  /** The fill level tells how many packets are waiting, unless it overran. */
  lemma FillExact(write: int, read: int, lo: int, hi: int)
    requires write == hi % SEQ && read == lo % SEQ && lo <= hi < lo + BUFFER_FRAMES + 0x8000
    ensures 0 <= Signed(write - read) < BUFFER_FRAMES <==> hi - lo < BUFFER_FRAMES
    ensures hi - lo < BUFFER_FRAMES ==> Signed(write - read) == hi - lo
  {
    if hi - lo < 0x8000 {
      SignedExact(write, read, hi, lo);
    } else {
      SignedExact(write, read, hi - SEQ, lo);
    }
  }

  predicate Fits(s: State) { s.synced ==> 0 <= s.Fill() < BUFFER_FRAMES }

  lemma NextPut(s: State, m: Ideal, seqno: int, samples: seq<int>, startFill: int)
    requires Sim(s, m) && m.on && 0 <= seqno < SEQ && Fits(PutStep(s, seqno, samples, startFill))
    ensures Sim(PutStep(s, seqno, samples, startFill), IdealPut(m, seqno, samples, startFill))
  {
    PutIndices(s, m, seqno);
    var n := Number(m.hi, seqno);
    var hi := if n > m.hi then n else m.hi;
    var t := PutStep(s, seqno, samples, startFill);
    assert t.write == hi % SEQ && t.read == s.read;
    FillExact(t.write, t.read, m.lo, hi);
    if n > m.hi || n > m.lo {
      StoreKeeps(s, m, n, Decoded(samples), hi);
      SlotsSame(s.Store(n % SEQ, Decoded(samples)), m.(hi := hi, frames := m.frames[n := Decoded(samples)]),
                t, IdealPut(m, seqno, samples, startFill));
    } else {
      SlotsSame(s, m, t, IdealPut(m, seqno, samples, startFill));
    }
  }

  lemma ResendSame(s: State, m: Ideal, seqno: int, samples: seq<int>)
    requires Sim(s, m) && m.on
    ensures PutOut(s, seqno % SEQ) == IdealOut(m, Put(seqno, samples))
  {
    PutIndices(s, m, seqno % SEQ);
    var n := Number(m.hi, seqno % SEQ);
    ModAdd(n, seqno % SEQ, -1);
    ModAdd(m.hi, s.write, 1);
  }

  lemma ModAdd(a: int, b: int, d: int)
    requires a % SEQ == b % SEQ
    ensures (a + d) % SEQ == (b + d) % SEQ
  {
    ModShift(a + d, a / SEQ - b / SEQ);
  }

  lemma GetSim(s: State, m: Ideal, startFill: int)
    requires Sim(s, m)
    ensures Sim(GetStep(s, startFill), IdealStep(m, Get, startFill))
    ensures GetOut(s, startFill) == IdealOut(m, Get)
  {
    if !s.buffering {
      FillExact(s.write, s.read, m.lo, m.hi);
      if m.lo < m.hi {
        GetPlays(s, m, startFill);
      } else {
        SlotsSame(s, m, GetStep(s, startFill), IdealStep(m, Get, startFill));
      }
    }
  }

  lemma GetPlays(s: State, m: Ideal, startFill: int)
    requires Sim(s, m) && !s.buffering && m.lo < m.hi && s.Fill() == m.hi - m.lo
    ensures Sim(GetStep(s, startFill), IdealStep(m, Get, startFill))
    ensures GetOut(s, startFill) == IdealOut(m, Get)
  {
    var t, m' := GetStep(s, startFill), IdealStep(m, Get, startFill);
    ModAdd(m.lo, s.read, 1);
    SlotOf(m.lo);
    var r := m.lo % BUFFER_FRAMES;
    assert SlotOk(s, m, r);
    AtExact(m.lo, m.lo, r);
    assert m.lo + BUFFER_FRAMES !in m.frames;
    forall i | 0 <= i < BUFFER_FRAMES ensures SlotOk(t, m', i) {
      assert SlotOk(s, m, i);
      AtNext(m.lo, i);
      AtExact(m.lo, m.lo, i);
    }
    assert SlotsOk(t, m');
  }

  /** While the fill level stays below 512 each event has the same effect as without wrapping. */
  lemma StepSim(s: State, m: Ideal, e: Event, startFill: int)
    requires Sim(s, m) && Fits(Step(s, e, startFill))
    ensures Sim(Step(s, e, startFill), IdealStep(m, e, startFill))
    ensures StepOut(s, e, startFill) == IdealOut(m, e)
  {
    match e
    case Put(n, f) =>
      if m.on {
        NextPut(s, m, n % SEQ, f, startFill);
        ResendSame(s, m, n, f);
      } else {
        FirstPut(s, m, n % SEQ, f, startFill);
      }
    case Get => GetSim(s, m, startFill);
    case Flush =>
  }

  // ----- all runs -----

  function After(s: State, run: seq<Event>, startFill: int): (t: State)
    requires s.Wf()
    ensures t.Wf()
  {
    if run == [] then s else Step(After(s, run[..|run| - 1], startFill), run[|run| - 1], startFill)
  }

  function Outs(s: State, run: seq<Event>, startFill: int): seq<Out>
    requires s.Wf()
  {
    if run == [] then []
    else Outs(s, run[..|run| - 1], startFill)
         + [StepOut(After(s, run[..|run| - 1], startFill), run[|run| - 1], startFill)]
  }

  function IdealAfter(run: seq<Event>, startFill: int): Ideal {
    if run == [] then Ideal(false, 0, 0, map[], true)
    else IdealStep(IdealAfter(run[..|run| - 1], startFill), run[|run| - 1], startFill)
  }

  function IdealOuts(run: seq<Event>, startFill: int): seq<Out> {
    if run == [] then []
    else IdealOuts(run[..|run| - 1], startFill)
         + [IdealOut(IdealAfter(run[..|run| - 1], startFill), run[|run| - 1])]
  }

  /** The fill level stays below 512 all the time. */
  predicate AlwaysFits(s: State, run: seq<Event>, startFill: int)
    requires s.Wf()
  {
    run == [] || (AlwaysFits(s, run[..|run| - 1], startFill) && Fits(After(s, run, startFill)))
  }

  /** From the state left by `init_buffer`, with whatever is in its memory, every run that fits
      plays and asks for the same as the ideal buffer. */
  lemma {:induction false} Refines(s: State, run: seq<Event>, startFill: int)
    requires s.Wf() && s == FlushStep(s) && AlwaysFits(s, run, startFill)
    ensures Sim(After(s, run, startFill), IdealAfter(run, startFill))
    ensures Outs(s, run, startFill) == IdealOuts(run, startFill)
    decreases |run|
  {
    if run != [] {
      var front := run[..|run| - 1];
      Refines(s, front, startFill);
      StepSim(After(s, front, startFill), IdealAfter(front, startFill), run[|run| - 1], startFill);
    } else {
      assert s.ready == seq(BUFFER_FRAMES, _ => false);
    }
  }

  /** In the ideal buffer a packet under number n was put under that number, modulo 2^16. */
  lemma {:induction false} FrameWasPut(run: seq<Event>, startFill: int, n: int) returns (k: nat)
    requires n in IdealAfter(run, startFill).frames
    ensures k < |run| && run[k].Put? && run[k].seqno % SEQ == n % SEQ
    ensures IdealAfter(run, startFill).frames[n] == Decoded(run[k].samples)
    decreases |run|
  {
    var m, e := IdealAfter(run[..|run| - 1], startFill), run[|run| - 1];
    if e.Put? && n == (if m.on then Number(m.hi, e.seqno % SEQ) else e.seqno % SEQ)
       && !(m.on && n <= m.lo && n <= m.hi) {
      k := |run| - 1;
      if m.on { NumberExact(m.hi, e.seqno % SEQ); }
    } else {
      k := FrameWasPut(run[..|run| - 1], startFill, n);
    }
  }

  /** Whatever is played other than silence is the packet that was put under the number played. */
  lemma PlayedWasPut(s: State, run: seq<Event>, startFill: int) returns (k: nat)
    requires s.Wf() && s == FlushStep(s) && AlwaysFits(s, run, startFill)
    requires StepOut(After(s, run, startFill), Get, startFill).Played?
    requires StepOut(After(s, run, startFill), Get, startFill).sound != Silence
    ensures k < |run| && run[k].Put?
    ensures StepOut(After(s, run, startFill), Get, startFill)
         == Played(run[k].seqno % SEQ, Decoded(run[k].samples))
  {
    Refines(s, run, startFill);
    var m := IdealAfter(run, startFill);
    GetSim(After(s, run, startFill), m, startFill);
    k := FrameWasPut(run, startFill, m.lo);
  }

  // ----- all runs, whether they fit or not -----

  /** Packet seqno gets into its slot. */
  predicate Stores(s: State, seqno: int) {
    var s := Synced(s, seqno);
    Signed(seqno - s.write) > 0 || Signed(seqno - s.read) > 0
  }

  /** Event k of a run puts a packet into slot i. */
  predicate StoredIn(s: State, run: seq<Event>, startFill: int, k: nat, i: int)
    requires s.Wf() && k < |run|
  {
    && run[k].Put? && run[k].seqno % SEQ % BUFFER_FRAMES == i
    && Stores(After(s, run[..k], startFill), run[k].seqno % SEQ)
  }

  /** No packet after that of event k was put into slot i. */
  ghost predicate LastStored(s: State, run: seq<Event>, startFill: int, k: nat, i: int)
    requires s.Wf()
  {
    && k < |run| && StoredIn(s, run, startFill, k, i)
    && forall j :: k < j < |run| ==> !StoredIn(s, run, startFill, j, i)
  }

  lemma FlushClears(s: State, i: int)
    requires 0 <= i < BUFFER_FRAMES
    ensures !FlushStep(s).ready[i]
  {
    assert FlushStep(s).ready == seq(BUFFER_FRAMES, _ => false);
  }

  /** What one event leaves in slot i, if it is ready: the packet put, or what was there. */
  lemma SlotAfter(s: State, e: Event, startFill: int, i: int)
    requires s.Wf() && 0 <= i < BUFFER_FRAMES && Step(s, e, startFill).ready[i]
    ensures var t := Step(s, e, startFill);
            if e.Put? && e.seqno % SEQ % BUFFER_FRAMES == i && Stores(s, e.seqno % SEQ)
            then t.data[i] == Decoded(e.samples)
            else s.ready[i] && t.data[i] == s.data[i]
  {
    FlushClears(s, i);
  }

  /** An event that puts nothing into a slot leaves the packet stored there last as it is. */
  lemma LastStoredKept(s: State, run: seq<Event>, startFill: int, k: nat, i: int)
    requires s.Wf() && run != [] && LastStored(s, run[..|run| - 1], startFill, k, i)
    requires !StoredIn(s, run, startFill, |run| - 1, i)
    ensures LastStored(s, run, startFill, k, i)
  {
    forall j | k <= j < |run| - 1
      ensures StoredIn(s, run, startFill, j, i) == StoredIn(s, run[..|run| - 1], startFill, j, i)
    {
      assert run[..|run| - 1][..j] == run[..j];
    }
  }

  /** A slot that is ready holds the packet put into it last, in every run. */
  lemma {:induction false} ReadyIsLastStored(s: State, run: seq<Event>, startFill: int, i: int) returns (k: nat)
    requires s.Wf() && s == FlushStep(s) && 0 <= i < BUFFER_FRAMES && After(s, run, startFill).ready[i]
    ensures LastStored(s, run, startFill, k, i)
    ensures After(s, run, startFill).data[i] == Decoded(run[k].samples)
    decreases |run|
  {
    FlushClears(s, i);
    var last := |run| - 1;
    SlotAfter(After(s, run[..last], startFill), run[last], startFill, i);
    if StoredIn(s, run, startFill, last, i) {
      k := last;
    } else {
      k := ReadyIsLastStored(s, run[..last], startFill, i);
      LastStoredKept(s, run, startFill, k, i);
    }
  }

  /** Event k of a run empties slot i: it plays it, or everything is flushed. */
  predicate EmptiedIn(s: State, run: seq<Event>, startFill: int, k: nat, i: int)
    requires s.Wf() && k < |run|
  {
    Empties(After(s, run[..k], startFill), run[k], startFill, i)
  }

  predicate Empties(s: State, e: Event, startFill: int, i: int)
    requires s.Wf()
  {
    match e
    case Put(_, _) => false
    case Get => GetOut(s, startFill).Played? && GetOut(s, startFill).seqno % BUFFER_FRAMES == i
    case Flush => true
  }

  lemma SlotStays(s: State, e: Event, startFill: int, i: int)
    requires s.Wf() && 0 <= i < BUFFER_FRAMES && !Empties(s, e, startFill, i)
    requires s.ready[i] || (e.Put? && e.seqno % SEQ % BUFFER_FRAMES == i && Stores(s, e.seqno % SEQ))
    ensures Step(s, e, startFill).ready[i]
  {}

  /** A packet that was stored stays ready until it is played or flushed, in every run. */
  lemma {:induction false} StoredStaysReady(s: State, run: seq<Event>, startFill: int, k: nat, i: int)
    requires s.Wf() && 0 <= i < BUFFER_FRAMES && k < |run| && StoredIn(s, run, startFill, k, i)
    requires forall j :: k < j < |run| ==> !EmptiedIn(s, run, startFill, j, i)
    ensures After(s, run, startFill).ready[i]
    decreases |run|
  {
    var last := |run| - 1;
    if k < last {
      var front := run[..last];
      assert front[..k] == run[..k];
      forall j | k < j < last ensures !EmptiedIn(s, front, startFill, j, i) {
        assert front[..j] == run[..j] && !EmptiedIn(s, run, startFill, j, i);
      }
      StoredStaysReady(s, front, startFill, k, i);
      assert !EmptiedIn(s, run, startFill, last, i);
    }
    SlotStays(After(s, run[..last], startFill), run[last], startFill, i);
  }

  /** So a packet is played: if it is the last one stored into its slot and that was not emptied since,
      the frame read from the slot is that packet. */
  lemma StoredIsPlayed(s: State, run: seq<Event>, startFill: int, k: nat, i: int)
    requires s.Wf() && s == FlushStep(s) && 0 <= i < BUFFER_FRAMES && LastStored(s, run, startFill, k, i)
    requires forall j :: k < j < |run| ==> !EmptiedIn(s, run, startFill, j, i)
    requires GetOut(After(s, run, startFill), startFill).Played?
    requires GetOut(After(s, run, startFill), startFill).seqno % BUFFER_FRAMES == i
    ensures GetOut(After(s, run, startFill), startFill).sound == Decoded(run[k].samples)
  {
    StoredStaysReady(s, run, startFill, k, i);
    var k' := ReadyIsLastStored(s, run, startFill, i);
    assert k' == k by {
      assert StoredIn(s, run, startFill, k', i) && StoredIn(s, run, startFill, k, i);
    }
  }

  /** A packet newer than all others is always stored. */
  lemma NewPacketStored(s: State, seqno: int, samples: seq<int>, startFill: int)
    requires s.Wf() && s.synced && 0 < Signed(seqno - s.write)
    ensures var t := PutStep(s, seqno, samples, startFill);
            && t.ready[seqno % BUFFER_FRAMES] && t.data[seqno % BUFFER_FRAMES] == Decoded(samples)
            && t.write == seqno && t.read == s.read
  {}

  /** Exactly the packets missing between the newest and one that comes g numbers later than expected are
      asked for, across a wraparound too, and none for a packet that is not newer. */
  lemma GapIsAskedFor(s: State, g: int)
    requires s.synced && 0 <= s.write < SEQ && -0x8000 < g < 0x7fff
    ensures PutOut(s, (s.write + 1 + g) % SEQ)
         == if g > 0 then Resend((s.write + 1) % SEQ, (s.write + g) % SEQ) else Nothing
  {
    var seqno := (s.write + 1 + g) % SEQ;
    SignedExact(seqno, s.write, s.write + 1 + g, s.write);
    ModAdd(seqno, s.write + 1 + g, -1);
  }

  /** Playing starts with the packet that fills the buffer up to the start level, and stops, with nothing
      played, when the buffer is found empty. */
  lemma StartAndStop(s: State, seqno: int, samples: seq<int>, startFill: int)
    requires s.Wf()
    ensures var t := PutStep(s, seqno, samples, startFill); t.buffering <==> s.buffering && t.Fill() < startFill
    ensures s.buffering ==> GetStep(s, startFill) == s && GetOut(s, startFill) == Nothing
    ensures !s.buffering ==>
              && (GetStep(s, startFill).buffering <==> s.Fill() < 1 || !s.synced)
              && (GetOut(s, startFill) == Nothing <==> GetStep(s, startFill).buffering)
  {}

  /** A frame that is not silent is the packet stored last under a number congruent to the one read
      modulo 512, in every run; so it is the right one exactly if it was put under the number read. */
  lemma PlayedIsLastStored(s: State, run: seq<Event>, startFill: int) returns (k: nat)
    requires s.Wf() && s == FlushStep(s)
    requires GetOut(After(s, run, startFill), startFill).Played?
    requires GetOut(After(s, run, startFill), startFill).sound != Silence
    ensures var out := GetOut(After(s, run, startFill), startFill);
            && LastStored(s, run, startFill, k, out.seqno % BUFFER_FRAMES)
            && out.sound == Decoded(run[k].samples)
            && (out == Played(run[k].seqno % SEQ, Decoded(run[k].samples)) <==> run[k].seqno % SEQ == out.seqno)
  {
    k := ReadyIsLastStored(s, run, startFill, GetOut(After(s, run, startFill), startFill).seqno % BUFFER_FRAMES);
  }

  /** It can be a wrong one once the fill level reaches 512: with a start fill of 88, packet 0 is
      played as number 512, which was never put. */
  lemma OverrunPlaysStale(s: State)
    requires s.Wf() && s == FlushStep(s)
    ensures StepOut(After(s, [Put(0, [7]), Put(600, [8])], 88), Get, 88) == Played(512, Decoded([7]))
  {
    var run := [Put(0, [7]), Put(600, [8])];
    assert run[..1] == [Put(0, [7])] && run[..1][..0] == [];
    var s1 := PutStep(s, 0, [7], 88);
    assert After(s, run[..1], 88) == s1;
    assert After(s, run, 88) == PutStep(s1, 600, [8], 88);
  }

  /** A late packet, with one of the numbers from the next to be played to the newest, gets into its
      slot if and only if it is not the next one, although that is not too late either. */
  lemma LatePacket(s: State, seqno: int, samples: seq<int>, startFill: int)
    requires s.Wf() && s.synced && 0 <= s.read < SEQ && 0 <= seqno < SEQ
    requires 0 <= Signed(seqno - s.read) <= s.Fill() < BUFFER_FRAMES
    ensures var t, stored := PutStep(s, seqno, samples, startFill), s.Store(seqno, Decoded(samples));
            && t.read == s.read && t.write == s.write
            && (if seqno != s.read then t.ready == stored.ready && t.data == stored.data
                else t.ready == s.ready && t.data == s.data)
  {
    var d := Signed(seqno - s.read);
    var f := s.Fill();
    var j, k := (seqno - s.read - d) / SEQ, (s.write - s.read - f) / SEQ;
    assert seqno - s.write == d - f + (j - k) * SEQ;
    ModShift(seqno - s.write, j - k);
  }

  /** The next frame is then silent. */
  lemma NextPacketDropped(s: State, samples: seq<int>, startFill: int)
    requires s.Wf() && s.synced && 0 <= s.read < SEQ && !s.buffering && 0 < s.Fill() < BUFFER_FRAMES
    requires !s.ready[s.read % BUFFER_FRAMES]
    ensures GetOut(PutStep(s, s.read, samples, startFill), startFill) == Played(s.read, Silence)
  {
    LatePacket(s, s.read, samples, startFill);
  }
}
