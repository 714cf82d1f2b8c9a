/** The command ring of ated: a dispatcher thread that accepts packets, a worker thread that
    serves them, and the lock between them. */
module Ring {

  const CMD_QUEUE_SIZE := 16
  const PKT_BUF_SIZE := 1600

  type Bytes = seq<int>

  /** `struct cmd_queue`. */
  datatype Ring = Ring(arr: seq<Bytes>, len: seq<int>, served: nat, unServed: nat) {
    predicate Wf() {
      && |arr| == CMD_QUEUE_SIZE && |len| == CMD_QUEUE_SIZE
      && served < CMD_QUEUE_SIZE && unServed < CMD_QUEUE_SIZE
      && forall i :: 0 <= i < CMD_QUEUE_SIZE ==> |arr[i]| == PKT_BUF_SIZE
    }

    predicate Full() { (unServed + 1) % CMD_QUEUE_SIZE == served }

    predicate Empty() { served == unServed }

    /** `thread_insert_q`. */
    function Inserted(pkt: Bytes): Ring
      requires Wf() && |pkt| <= PKT_BUF_SIZE
    {
      this.(arr := arr[unServed := pkt + arr[unServed][|pkt|..]])
    }

    function Committed(n: int): Ring
      requires Wf()
    {
      this.(len := len[unServed := n], unServed := (unServed + 1) % CMD_QUEUE_SIZE)
    }

    /** The worker writes the slot that it serves. */
    function Written(i: nat, bytes: Bytes): Ring
      requires Wf() && i < CMD_QUEUE_SIZE && |bytes| == PKT_BUF_SIZE
    {
      this.(arr := arr[i := bytes])
    }

    function Retired(): Ring
      requires Wf()
    {
      this.(arr := arr[served := seq(PKT_BUF_SIZE, _ => 0)], len := len[served := -1],
            served := (served + 1) % CMD_QUEUE_SIZE)
    }
  }

  // ----- the two threads -----

  datatype Holder = Free | Dispatcher | Worker

  /** Where the dispatcher is in `task_dispatcher`. */
  datatype DState = Idle | Wanting(pkt: Bytes) | Testing(pkt: Bytes) | Inserting(pkt: Bytes) | Leaving

  /** Where the worker is in `pkt_proc_logic`; `mine` is what it last saw or wrote in its slot. */
  datatype WState =
    | Start
    | Looking
    | Waiting
    | Took(slot: nat, n: int)
    | ToServe(slot: nat, n: int)
    | Serving(slot: nat, mine: Bytes)
    | Replied(slot: nat)
    | Retiring
    | Ending

  /** The ring, the lock, both threads, and the history: the packets accepted and the packets
      served in order, how many were retired, the replies sent and the replies made. */
  datatype Sys = Sys(ring: Ring, lock: Holder, d: DState, w: WState,
                     accepted: seq<Bytes>, log: seq<Bytes>, retired: nat, sent: seq<Bytes>, made: seq<Bytes>)

  datatype Action =
    | Receive(pkt: Bytes)
    | LockToInsert
    | Refuse
    | Insert
    | Commit
    | UnlockInserted
    | LockToLook
    | Wait
    | Wake
    | Take
    | UnlockTaken
    | Read
    | Write(bytes: Bytes)
    | Reply
    | LockToRetire
    | Retire
    | UnlockRetired

  predicate Enabled(s: Sys, a: Action) {
    match a
    case Receive(pkt) => s.d.Idle? && 0 < |pkt| <= PKT_BUF_SIZE
    case LockToInsert => s.d.Wanting? && s.lock.Free?
    case Refuse => s.d.Testing? && s.ring.Full()
    case Insert => s.d.Testing? && !s.ring.Full()
    case Commit => s.d.Inserting?
    case UnlockInserted => s.d.Leaving?
    case LockToLook => s.w.Start? && s.lock.Free?
    case Wait => s.w.Looking? && s.ring.Empty()
    case Wake => s.w.Waiting? && s.lock.Free?
    case Take => s.w.Looking? && !s.ring.Empty()
    case UnlockTaken => s.w.Took?
    case Read => s.w.ToServe?
    case Write(bytes) => s.w.Serving? && |bytes| == PKT_BUF_SIZE
    case Reply => s.w.Serving?
    case LockToRetire => s.w.Replied? && s.lock.Free?
    case Retire => s.w.Retiring?
    case UnlockRetired => s.w.Ending?
  }

  /** The sizes of the arrays and of what is copied to them. */
  predicate Shaped(s: Sys) {
    && s.ring.Wf()
    && (s.d.Wanting? || s.d.Testing? || s.d.Inserting? ==> |s.d.pkt| <= PKT_BUF_SIZE)
    && (s.w.Took? || s.w.ToServe? || s.w.Serving? ==> s.w.slot < CMD_QUEUE_SIZE)
  }

  function Prefix(bytes: Bytes, n: int): Bytes {
    if n < 0 then [] else if n < |bytes| then bytes[..n] else bytes
  }

  /** The effect of an action that can happen. `Read` hands the first n bytes of the slot to the
      command handler, `Reply` sends whatever is in the slot by then. */
  function Apply(s: Sys, a: Action): (t: Sys)
    requires Shaped(s) && Enabled(s, a)
    ensures Shaped(t)
  {
    match a
    case Receive(pkt) => s.(d := Wanting(pkt))
    case LockToInsert => s.(lock := Dispatcher, d := Testing(s.d.pkt))
    case Refuse => s.(d := Leaving)
    case Insert => s.(ring := s.ring.Inserted(s.d.pkt), d := Inserting(s.d.pkt))
    case Commit => s.(ring := s.ring.Committed(|s.d.pkt|), d := Leaving, accepted := s.accepted + [s.d.pkt])
    case UnlockInserted => s.(lock := Free, d := Idle)
    case LockToLook => s.(lock := Worker, w := Looking)
    case Wait => s.(lock := Free, w := Waiting)
    case Wake => s.(lock := Worker, w := Looking)
    case Take => s.(w := Took(s.ring.served, s.ring.len[s.ring.served]))
    case UnlockTaken => s.(lock := Free, w := ToServe(s.w.slot, s.w.n))
    case Read => s.(w := Serving(s.w.slot, s.ring.arr[s.w.slot]),
                    log := s.log + [Prefix(s.ring.arr[s.w.slot], s.w.n)])
    case Write(bytes) => s.(ring := s.ring.Written(s.w.slot, bytes), w := Serving(s.w.slot, bytes))
    case Reply => s.(w := Replied(s.w.slot), sent := s.sent + [s.ring.arr[s.w.slot]], made := s.made + [s.w.mine])
    case LockToRetire => s.(lock := Worker, w := Retiring)
    case Retire => s.(ring := s.ring.Retired(), w := Ending, retired := s.retired + 1)
    case UnlockRetired => s.(lock := Free, w := Start)
  }

  /** The slots are cleared at the start, the lengths are not. */
  function InitRing(len: seq<int>): Ring {
    Ring(seq(CMD_QUEUE_SIZE, _ => seq(PKT_BUF_SIZE, _ => 0)), len, 0, 0)
  }

  function Init(len: seq<int>): Sys { Sys(InitRing(len), Free, Idle, Start, [], [], 0, [], []) }

  // ----- the invariant -----

  predicate Holds(ring: Ring, i: nat, pkt: Bytes)
    requires ring.Wf() && i < CMD_QUEUE_SIZE
  {
    |pkt| <= PKT_BUF_SIZE && ring.len[i] == |pkt| && ring.arr[i][..|pkt|] == pkt
  }

  /** The accepted packets from number lo on are in the ring. */
  predicate Stored(ring: Ring, accepted: seq<Bytes>, lo: nat)
    requires ring.Wf()
  {
    forall k :: lo <= k < |accepted| ==> Holds(ring, k % CMD_QUEUE_SIZE, accepted[k])
  }

  /** Packets that were read, retired or not. */
  function Begun(s: Sys): nat { s.retired + if s.w.Serving? || s.w.Replied? || s.w.Retiring? then 1 else 0 }

  predicate DispatcherInside(d: DState) { d.Testing? || d.Inserting? || d.Leaving? }

  predicate WorkerInside(w: WState) { w.Looking? || w.Took? || w.Retiring? || w.Ending? }

  /** The indices count the accepted and the retired packets, and at most 15 are outstanding. */
  predicate Indexed(s: Sys) {
    && s.ring.Wf()
    && s.ring.served == s.retired % CMD_QUEUE_SIZE && s.ring.unServed == |s.accepted| % CMD_QUEUE_SIZE
    && s.retired <= |s.accepted| <= s.retired + CMD_QUEUE_SIZE - 1
  }

  predicate DispatcherOk(s: Sys)
    requires Indexed(s)
  {
    && (s.lock.Dispatcher? <==> DispatcherInside(s.d))
    && (s.d.Wanting? || s.d.Testing? || s.d.Inserting? ==> 0 < |s.d.pkt| <= PKT_BUF_SIZE)
    && (s.d.Inserting? ==> !s.ring.Full() && s.ring.arr[s.ring.unServed][..|s.d.pkt|] == s.d.pkt)
  }

  predicate WorkerOk(s: Sys)
    requires Indexed(s)
  {
    && (s.lock.Worker? <==> WorkerInside(s.w))
    && (s.w.Took? || s.w.ToServe? ==>
          s.w.slot == s.ring.served && s.retired < |s.accepted| && s.w.n == s.ring.len[s.w.slot])
    && (s.w.Serving? ==> s.w.slot == s.ring.served && s.ring.arr[s.w.slot] == s.w.mine)
    && Begun(s) <= |s.accepted|
  }

  predicate Inv(s: Sys) {
    && Indexed(s) && DispatcherOk(s) && WorkerOk(s)
    && Stored(s.ring, s.accepted, Begun(s))
    && s.log == s.accepted[..Begun(s)]
    && s.sent == s.made
  }

  lemma ModDistinct(j: nat, k: nat)
    requires j < k < j + CMD_QUEUE_SIZE
    ensures j % CMD_QUEUE_SIZE != k % CMD_QUEUE_SIZE
  {}

  lemma ModNext(k: nat)
    ensures (k + 1) % CMD_QUEUE_SIZE == (k % CMD_QUEUE_SIZE + 1) % CMD_QUEUE_SIZE
  {}

  /** The tests of the two threads tell a full and an empty ring. */
  lemma FullExactly(s: Sys)
    requires Indexed(s)
    ensures s.ring.Full() <==> |s.accepted| == s.retired + CMD_QUEUE_SIZE - 1
    ensures s.ring.Empty() <==> |s.accepted| == s.retired
  {
    ModNext(|s.accepted|);
    if |s.accepted| + 1 < s.retired + CMD_QUEUE_SIZE {
      ModDistinct(s.retired, |s.accepted| + 1);
    } else {
      assert |s.accepted| + 1 == s.retired + CMD_QUEUE_SIZE;
    }
    if s.retired < |s.accepted| {
      ModDistinct(s.retired, |s.accepted|);
    }
  }

  predicate Missing(accepted: seq<Bytes>, lo: nat, i: nat) {
    forall k :: lo <= k < |accepted| ==> k % CMD_QUEUE_SIZE != i
  }

  /** Changing a slot that holds none of the outstanding packets loses none. */
  lemma StoredKept(ring: Ring, ring': Ring, accepted: seq<Bytes>, lo: nat, i: nat)
    requires ring.Wf() && ring'.Wf() && Stored(ring, accepted, lo) && i < CMD_QUEUE_SIZE
    requires forall j :: 0 <= j < CMD_QUEUE_SIZE && j != i ==>
               ring'.arr[j] == ring.arr[j] && ring'.len[j] == ring.len[j]
    requires Missing(accepted, lo, i)
    ensures Stored(ring', accepted, lo)
  {
    forall k | lo <= k < |accepted| ensures Holds(ring', k % CMD_QUEUE_SIZE, accepted[k]) {
      assert Holds(ring, k % CMD_QUEUE_SIZE, accepted[k]);
    }
  }

  lemma StoredPush(ring: Ring, accepted: seq<Bytes>, lo: nat, pkt: Bytes)
    requires ring.Wf() && Stored(ring, accepted, lo) && Holds(ring, |accepted| % CMD_QUEUE_SIZE, pkt)
    ensures Stored(ring, accepted + [pkt], lo)
  {
    forall k | lo <= k < |accepted + [pkt]| ensures Holds(ring, k % CMD_QUEUE_SIZE, (accepted + [pkt])[k]) {
      if k < |accepted| {
        assert Holds(ring, k % CMD_QUEUE_SIZE, accepted[k]);
      }
    }
  }

  /** The slot to insert to is free, and so is the slot that is served, once it was read. */
  lemma SlotsFree(s: Sys)
    requires Inv(s)
    ensures !s.ring.Full() ==> Missing(s.accepted, Begun(s), s.ring.unServed)
    ensures Begun(s) > s.retired ==> Missing(s.accepted, Begun(s), s.ring.served)
    ensures !s.ring.Full() && s.retired < |s.accepted| ==> s.ring.served != s.ring.unServed
  {
    FullExactly(s);
    if !s.ring.Full() {
      forall k | Begun(s) <= k < |s.accepted| ensures k % CMD_QUEUE_SIZE != s.ring.unServed {
        ModDistinct(k, |s.accepted|);
      }
    }
    if Begun(s) > s.retired {
      forall k | Begun(s) <= k < |s.accepted| ensures k % CMD_QUEUE_SIZE != s.ring.served {
        ModDistinct(s.retired, k);
      }
    }
  }

  lemma InitHolds(len: seq<int>)
    requires |len| == CMD_QUEUE_SIZE
    ensures Inv(Init(len))
  {}

  lemma InsertKeeps(s: Sys)
    requires Inv(s) && Enabled(s, Insert)
    ensures Inv(Apply(s, Insert))
  {
    SlotsFree(s);
    StoredKept(s.ring, Apply(s, Insert).ring, s.accepted, Begun(s), s.ring.unServed);
  }

  lemma CommitKeeps(s: Sys)
    requires Inv(s) && Enabled(s, Commit)
    ensures Inv(Apply(s, Commit))
  {
    SlotsFree(s);
    FullExactly(s);
    ModNext(|s.accepted|);
    var ring' := Apply(s, Commit).ring;
    StoredKept(s.ring, ring', s.accepted, Begun(s), s.ring.unServed);
    StoredPush(ring', s.accepted, Begun(s), s.d.pkt);
  }

  lemma ReadKeeps(s: Sys)
    requires Inv(s) && Enabled(s, Read)
    ensures Inv(Apply(s, Read))
  {
    var pkt, slot := s.accepted[s.retired], s.ring.arr[s.w.slot];
    assert Holds(s.ring, s.retired % CMD_QUEUE_SIZE, pkt);
    assert Prefix(slot, s.w.n) == slot[..|pkt|] == pkt;
    assert s.accepted[..s.retired + 1] == s.accepted[..s.retired] + [pkt];
  }

  lemma WriteKeeps(s: Sys, bytes: Bytes)
    requires Inv(s) && Enabled(s, Write(bytes))
    ensures Inv(Apply(s, Write(bytes)))
  {
    SlotsFree(s);
    StoredKept(s.ring, Apply(s, Write(bytes)).ring, s.accepted, Begun(s), s.w.slot);
  }

  lemma RetireKeeps(s: Sys)
    requires Inv(s) && Enabled(s, Retire)
    ensures Inv(Apply(s, Retire))
  {
    SlotsFree(s);
    ModNext(s.retired);
    StoredKept(s.ring, Apply(s, Retire).ring, s.accepted, Begun(s), s.ring.served);
  }

  /** Every action of either thread keeps the invariant. */
  lemma StepKeeps(s: Sys, a: Action)
    requires Inv(s) && Enabled(s, a)
    ensures Inv(Apply(s, a))
  {
    FullExactly(s);
    match a
    case Insert => InsertKeeps(s);
    case Commit => CommitKeeps(s);
    case Read => ReadKeeps(s);
    case Write(bytes) => WriteKeeps(s, bytes);
    case Retire => RetireKeeps(s);
    case _ =>
  }

  // ----- all runs -----

  /** The actions can happen one after the other, from the start. */
  predicate Possible(len: seq<int>, run: seq<Action>)
    decreases |run|, 0
  {
    if run == [] then |len| == CMD_QUEUE_SIZE
    else Possible(len, run[..|run| - 1]) && Enabled(After(len, run[..|run| - 1]), run[|run| - 1])
  }

  /** The state after an interleaving of the two threads. */
  function After(len: seq<int>, run: seq<Action>): (s: Sys)
    requires Possible(len, run)
    ensures Shaped(s)
    decreases |run|, 1
  {
    if run == [] then Init(len) else Apply(After(len, run[..|run| - 1]), run[|run| - 1])
  }

  lemma {:induction false} AlwaysInv(len: seq<int>, run: seq<Action>)
    requires Possible(len, run)
    ensures Inv(After(len, run))
    decreases |run|
  {
    if run == [] {
      InitHolds(len);
    } else {
      AlwaysInv(len, run[..|run| - 1]);
      StepKeeps(After(len, run[..|run| - 1]), run[|run| - 1]);
    }
  }

  /** In every interleaving the packets are served once each and in the order they were accepted,
      complete and unchanged; at most 15 are outstanding; the threads are never both in their
      critical sections; a reply is what the worker left in its slot, so nothing else wrote to
      the slot meanwhile. */
  lemma Safety(len: seq<int>, run: seq<Action>)
    requires Possible(len, run)
    ensures After(len, run).log <= After(len, run).accepted
    ensures After(len, run).retired <= |After(len, run).log| <= After(len, run).retired + 1
    ensures |After(len, run).accepted| <= After(len, run).retired + 15
    ensures !(DispatcherInside(After(len, run).d) && WorkerInside(After(len, run).w))
    ensures After(len, run).sent == After(len, run).made
  {
    AlwaysInv(len, run);
  }

  /** A packet is refused exactly when 15 are outstanding, and the worker waits exactly when none
      is. */
  lemma RefusedExactly(len: seq<int>, run: seq<Action>)
    requires Possible(len, run)
    ensures Enabled(After(len, run), Refuse) <==>
            After(len, run).d.Testing? && |After(len, run).accepted| == After(len, run).retired + 15
    ensures Enabled(After(len, run), Wait) <==>
            After(len, run).w.Looking? && After(len, run).accepted == After(len, run).log
  {
    AlwaysInv(len, run);
    FullExactly(After(len, run));
  }

  // ----- the arrays -----

  function Row(a: array2<int>, i: nat): Bytes
    requires i < a.Length0
    reads a
  {
    seq(a.Length1, j requires 0 <= j < a.Length1 reads a => a[i, j])
  }

  /** `struct cmd_queue` in memory, with what the threads do to it inside the lock. */
  class CmdQueue {
    const cmdArr: array2<int>
    const cmdLen: array<int>
    var served: nat
    var unServed: nat

    ghost predicate Valid()
      reads this
    {
      && cmdArr.Length0 == CMD_QUEUE_SIZE && cmdArr.Length1 == PKT_BUF_SIZE && cmdLen.Length == CMD_QUEUE_SIZE
      && served < CMD_QUEUE_SIZE && unServed < CMD_QUEUE_SIZE
    }

    ghost function View(): (r: Ring)
      requires Valid()
      reads this, cmdArr, cmdLen
      ensures r.Wf()
    {
      Ring(seq(CMD_QUEUE_SIZE, i requires 0 <= i < CMD_QUEUE_SIZE reads this, cmdArr => Row(cmdArr, i)),
           cmdLen[..], served, unServed)
    }

    /** The part of `multi_proc_init` that empties the queue. */
    constructor ()
      ensures Valid() && View() == InitRing(cmdLen[..]) && fresh(cmdArr) && fresh(cmdLen)
    {
      cmdArr := new int[CMD_QUEUE_SIZE, PKT_BUF_SIZE]((i, j) => 0);
      cmdLen := new int[CMD_QUEUE_SIZE];
      served, unServed := 0, 0;
      new;
      forall i | 0 <= i < CMD_QUEUE_SIZE ensures Row(cmdArr, i) == seq(PKT_BUF_SIZE, _ => 0) {}
      assert View().arr == InitRing(cmdLen[..]).arr;
    }

    /** `thread_insert_q`. */
    method InsertQ(pkt: Bytes) returns (len: nat)
      requires Valid() && |pkt| <= PKT_BUF_SIZE
      modifies cmdArr
      ensures View() == old(View()).Inserted(pkt) && len == |pkt|
    {
      ghost var was := View();
      FillRow(cmdArr, unServed, pkt);
      assert View().arr == was.Inserted(pkt).arr;
      len := |pkt|;
    }

    /** The critical section of `task_dispatcher`. */
    method Dispatch(pkt: Bytes) returns (accepted: bool)
      requires Valid() && |pkt| <= PKT_BUF_SIZE
      modifies this`unServed, cmdArr, cmdLen
      ensures Valid() && accepted == !old(View()).Full()
      ensures View() == if accepted then old(View()).Inserted(pkt).Committed(|pkt|) else old(View())
    {
      accepted := (unServed + 1) % CMD_QUEUE_SIZE != served;
      if accepted {
        var len := InsertQ(pkt);
        cmdLen[unServed] := |pkt|;
        unServed := (unServed + 1) % CMD_QUEUE_SIZE;
        assert View().arr == old(View()).Inserted(pkt).arr;
      }
    }

    /** The second critical section of `pkt_proc_logic`. */
    method RetireServed()
      requires Valid()
      modifies this`served, cmdArr, cmdLen
      ensures Valid() && View() == old(View()).Retired()
    {
      ghost var was := View();
      ghost var zeros := seq(PKT_BUF_SIZE, _ => 0);
      FillRow(cmdArr, served, seq(PKT_BUF_SIZE, _ => 0));
      assert zeros + was.arr[served][|zeros|..] == zeros;
      cmdLen[served] := -1;
      served := (served + 1) % CMD_QUEUE_SIZE;
      assert View().arr == was.Retired().arr;
    }
  }

  /** `memcpy` or `memset` to the start of a slot. */
  method FillRow(a: array2<int>, i: nat, bytes: Bytes)
    requires i < a.Length0 && |bytes| <= a.Length1
    modifies a
    ensures Row(a, i) == bytes + old(Row(a, i))[|bytes|..]
    ensures forall k :: 0 <= k < a.Length0 && k != i ==> Row(a, k) == old(Row(a, k))
  {
    forall j | 0 <= j < |bytes| {
      a[i, j] := bytes[j];
    }
  }
}
