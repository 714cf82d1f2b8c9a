/** Reply lists of the mDNS responder: which records answer a query, which of the answers are
    known already (section 7.1 of RFC 6762), and which records are added to them. */
module Related {

  import opened Names

  datatype RrType = A | PTR | TXT | AAAA | SRV | NSEC | ANY | OtherType(code: int)

  datatype Data =
    | Host
    | Host6
    | PtrName(name: Name)
    | PtrEntry(entry: Record)
    | Service(target: Name)
    | Text
    | Next
    | OtherData(code: int)

  /** A record never changes once a reply is made up. Records are told apart by reference. */
  class Record {
    const name: Name
    const ttl: nat
    const data: Data

    constructor (name: Name, ttl: nat, data: Data)
      ensures this.name == name && this.ttl == ttl && this.data == data
    {
      this.name, this.ttl, this.data := name, ttl, data;
    }

    function Type(): RrType {
      match data
      case Host => A
      case Host6 => AAAA
      case PtrName(_) => PTR
      case PtrEntry(_) => PTR
      case Service(_) => SRV
      case Text => TXT
      case Next => NSEC
      case OtherData(c) => OtherType(c)
    }

    function Target(): Name
      requires Type() == PTR
    {
      match data
      case PtrName(n) => n
      case PtrEntry(e) => e.name
    }
  }

  datatype Group = Group(name: Name, rr: seq<Record>)

  datatype Question = Question(name: Name, rtype: RrType, unicast: bool)

  // ----- lists of records -----

  function Elems(list: seq<Record>): set<Record> { set r | r in list }

  ghost predicate NoDup(list: seq<Record>) {
    forall i, j :: 0 <= i < j < |list| ==> list[i] != list[j]
  }

  function Append(list: seq<Record>, r: Record): seq<Record> {
    if r in list then list else list + [r]
  }

  function AppendAll(list: seq<Record>, rs: seq<Record>): (r: seq<Record>)
    ensures list <= r
    decreases rs
  {
    if rs == [] then list else AppendAll(Append(list, rs[0]), rs[1..])
  }

  /** Appending adds every record that is missing, once. */
  lemma {:induction false} AppendAllElems(list: seq<Record>, rs: seq<Record>)
    ensures Elems(AppendAll(list, rs)) == Elems(list) + Elems(rs)
    ensures NoDup(list) ==> NoDup(AppendAll(list, rs))
    decreases rs
  {
    if rs == [] {
    } else {
      AppendAllElems(Append(list, rs[0]), rs[1..]);
      assert Elems(Append(list, rs[0])) == Elems(list) + {rs[0]};
      assert rs == [rs[0]] + rs[1..];
      assert Elems(rs) == {rs[0]} + Elems(rs[1..]);
    }
  }

  lemma {:induction false} AppendAllTwice(list: seq<Record>, x: seq<Record>, y: seq<Record>)
    ensures AppendAll(AppendAll(list, x), y) == AppendAll(list, x + y)
    decreases x
  {
    if x == [] {
      assert x + y == y;
    } else {
      assert (x + y)[0] == x[0] && (x + y)[1..] == x[1..] + y;
      AppendAllTwice(Append(list, x[0]), x[1..], y);
    }
  }

  /** `rr_list_append`. */
  method ListAppend(list: seq<Record>, r: Record) returns (list': seq<Record>, added: nat)
    ensures list' == Append(list, r) && added == |list'| - |list|
  {
    for i := 0 to |list|
      invariant r !in list[..i]
    {
      if list[i] == r {
        return list, 0;
      }
    }
    list', added := list + [r], 1;
  }

  // ----- populate_answers -----

  function FindGroup(groups: seq<Group>, name: Name): seq<Record> {
    if groups == [] then []
    else if groups[0].name == name then groups[0].rr
    else FindGroup(groups[1..], name)
  }

  predicate Wanted(r: Record, name: Name, rtype: RrType) {
    !(rtype == ANY && r.Type() == NSEC) && (rtype == r.Type() || rtype == ANY) && r.name == name
  }

  function Filtered(rr: seq<Record>, name: Name, rtype: RrType): (s: seq<Record>)
    ensures forall r :: r in rr && Wanted(r, name, rtype) ==> r in s
    ensures forall r :: r in s ==> r in rr && Wanted(r, name, rtype)
  {
    if rr == [] then []
    else if Wanted(rr[0], name, rtype) then [rr[0]] + Filtered(rr[1..], name, rtype)
    else Filtered(rr[1..], name, rtype)
  }

  /** The records that answer a name and a type. */
  function Matching(groups: seq<Group>, name: Name, rtype: RrType): seq<Record> {
    Filtered(FindGroup(groups, name), name, rtype)
  }

  method Populate(groups: seq<Group>, list: seq<Record>, name: Name, rtype: RrType)
    returns (list': seq<Record>, num: nat)
    ensures list' == AppendAll(list, Matching(groups, name, rtype)) && num == |list'| - |list|
  {
    var g := 0;
    while g < |groups| && groups[g].name != name
      invariant g <= |groups| && FindGroup(groups[g..], name) == FindGroup(groups, name)
    {
      g := g + 1;
    }
    if g == |groups| {
      return list, 0;
    }
    assert groups[g..][0].rr == groups[g].rr;
    list', num := AppendWanted(list, groups[g].rr, name, rtype);
  }

  method AppendWanted(list: seq<Record>, rr: seq<Record>, name: Name, rtype: RrType)
    returns (list': seq<Record>, num: nat)
    ensures list' == AppendAll(list, Filtered(rr, name, rtype)) && num == |list'| - |list|
  {
    list', num := list, 0;
    var i := 0;
    while i < |rr|
      invariant i <= |rr| && num == |list'| - |list|
      invariant AppendAll(list', Filtered(rr[i..], name, rtype)) == AppendAll(list, Filtered(rr, name, rtype))
    {
      FilteredStep(rr, i, name, rtype, list');
      var added;
      list', added := AppendIfWanted(list', rr[i], name, rtype);
      num := num + added;
      i := i + 1;
    }
  }

  method AppendIfWanted(list: seq<Record>, r: Record, name: Name, rtype: RrType)
    returns (list': seq<Record>, added: nat)
    ensures list' == (if Wanted(r, name, rtype) then Append(list, r) else list) && added == |list'| - |list|
  {
    if !(rtype == ANY && r.Type() == NSEC) && (rtype == r.Type() || rtype == ANY) && name == r.name {
      list', added := ListAppend(list, r);
    } else {
      list', added := list, 0;
    }
  }

  lemma FilteredStep(rr: seq<Record>, i: nat, name: Name, rtype: RrType, list: seq<Record>)
    requires i < |rr|
    ensures AppendAll(list, Filtered(rr[i..], name, rtype))
         == AppendAll(if Wanted(rr[i], name, rtype) then Append(list, rr[i]) else list,
                      Filtered(rr[i + 1..], name, rtype))
  {
    assert rr[i..][1..] == rr[i + 1..];
  }

  /** All records of the database. */
  function Universe(groups: seq<Group>): set<Record> {
    if groups == [] then {} else Elems(groups[0].rr) + Universe(groups[1..])
  }

  lemma {:induction false} MatchingInside(groups: seq<Group>, name: Name, rtype: RrType)
    ensures Elems(Matching(groups, name, rtype)) <= Universe(groups)
  {
    if groups == [] {
    } else if groups[0].name != name {
      MatchingInside(groups[1..], name, rtype);
    }
  }

  // ----- add_related_rr -----

  /** The records related to a record, in the order they are looked up. */
  function RelatedTo(groups: seq<Group>, r: Record): seq<Record> {
    match r.Type()
    case PTR => Matching(groups, r.Target(), ANY)
    case SRV => Matching(groups, r.data.target, ANY) + Matching(groups, r.name, TXT)
    case A => Matching(groups, r.name, NSEC)
    case AAAA => Matching(groups, r.name, NSEC)
    case _ => []
  }

  lemma RelatedInside(groups: seq<Group>, r: Record)
    ensures Elems(RelatedTo(groups, r)) <= Universe(groups)
  {
    match r.Type()
    case PTR => MatchingInside(groups, r.Target(), ANY);
    case SRV =>
      MatchingInside(groups, r.data.target, ANY);
      MatchingInside(groups, r.name, TXT);
    case A => MatchingInside(groups, r.name, NSEC);
    case AAAA => MatchingInside(groups, r.name, NSEC);
    case _ =>
  }

  function AllRelated(groups: seq<Group>, list: seq<Record>): seq<Record> {
    if list == [] then []
    else AllRelated(groups, list[..|list| - 1]) + RelatedTo(groups, list[|list| - 1])
  }

  /** The set has with a record all records related to it. */
  ghost predicate Closed(groups: seq<Group>, s: set<Record>) {
    forall r {:trigger RelatedTo(groups, r)} :: r in s ==> Elems(RelatedTo(groups, r)) <= s
  }

  ghost predicate ClosedUpTo(groups: seq<Group>, list: seq<Record>, n: nat)
    requires n <= |list|
  {
    forall k :: 0 <= k < n ==> Elems(RelatedTo(groups, list[k])) <= Elems(list)
  }

  // ----- which records that are -----

  /** r is in the group of that name; only the first one counts. */
  ghost predicate Listed(groups: seq<Group>, name: Name, r: Record) {
    exists i :: 0 <= i < |groups| && FirstGroup(groups, name, i) && r in groups[i].rr
  }

  ghost predicate FirstGroup(groups: seq<Group>, name: Name, i: nat)
    requires i < |groups|
  {
    groups[i].name == name && forall j :: 0 <= j < i ==> groups[j].name != name
  }

  lemma {:induction false} FindGroupIs(groups: seq<Group>, name: Name, r: Record)
    ensures r in FindGroup(groups, name) <==> Listed(groups, name, r)
  {
    if groups != [] {
      FindGroupIs(groups[1..], name, r);
      if groups[0].name == name {
        assert FirstGroup(groups, name, 0);
      } else {
        if Listed(groups[1..], name, r) {
          var i :| 0 <= i < |groups[1..]| && FirstGroup(groups[1..], name, i) && r in groups[1..][i].rr;
          assert forall j :: 0 < j < |groups| ==> groups[j] == groups[1..][j - 1];
          assert FirstGroup(groups, name, i + 1);
        }
        if Listed(groups, name, r) {
          var i :| 0 <= i < |groups| && FirstGroup(groups, name, i) && r in groups[i].rr;
          assert forall j :: 0 <= j < |groups[1..]| ==> groups[1..][j] == groups[j + 1];
          assert FirstGroup(groups[1..], name, i - 1);
        }
      }
    }
  }

  /** A record answers a name and a type if both are its own; all types but NSEC answer ANY. */
  ghost predicate Fits(groups: seq<Group>, r: Record, name: Name, rtype: RrType) {
    Listed(groups, name, r) && r.name == name && (r.Type() == rtype || (rtype == ANY && !r.data.Next?))
  }

  lemma MatchingExactly(groups: seq<Group>, name: Name, rtype: RrType, r: Record)
    ensures r in Matching(groups, name, rtype) <==> Fits(groups, r, name, rtype)
  {
    FindGroupIs(groups, name, r);
  }

  /** Why r is added for a: it has the name that a pointer leads to, or that of the host of a service;
      or it is the text of that service; or it says that an address has no others. */
  ghost predicate Leads(groups: seq<Group>, a: Record, r: Record) {
    match a.data
    case PtrName(n) => Listed(groups, n, r) && r.name == n && !r.data.Next?
    case PtrEntry(e) => Listed(groups, e.name, r) && r.name == e.name && !r.data.Next?
    case Service(target) =>
      || (Listed(groups, target, r) && r.name == target && !r.data.Next?)
      || (Listed(groups, a.name, r) && r.name == a.name && r.data.Text?)
    case Host => Listed(groups, a.name, r) && r.name == a.name && r.data.Next?
    case Host6 => Listed(groups, a.name, r) && r.name == a.name && r.data.Next?
    case _ => false
  }

  lemma RelatedExactly(groups: seq<Group>, a: Record, r: Record)
    ensures r in RelatedTo(groups, a) <==> Leads(groups, a, r)
  {
    match a.data
    case PtrName(n) => MatchingExactly(groups, n, ANY, r);
    case PtrEntry(e) => MatchingExactly(groups, e.name, ANY, r);
    case Service(target) =>
      MatchingExactly(groups, target, ANY, r);
      MatchingExactly(groups, a.name, TXT, r);
    case Host => MatchingExactly(groups, a.name, NSEC, r);
    case Host6 => MatchingExactly(groups, a.name, NSEC, r);
    case _ =>
  }

  /** Whatever an answer or an added record leads to is added. */
  ghost predicate Complete(groups: seq<Group>, ans: seq<Record>, list: seq<Record>) {
    forall a, i, j :: a in ans + list && 0 <= i < |groups| && 0 <= j < |groups[i].rr| ==>
      (Leads(groups, a, groups[i].rr[j]) ==> groups[i].rr[j] in list)
  }

  /** Every added record is one that an answer, or a record added before it, leads to. */
  ghost predicate Grounded(groups: seq<Group>, ans: seq<Record>, list: seq<Record>) {
    forall k :: 0 <= k < |list| ==> Reason(groups, ans, list, k)
  }

  ghost predicate Reason(groups: seq<Group>, ans: seq<Record>, list: seq<Record>, k: nat)
    requires k < |list|
  {
    exists a :: a in ans + list[..k] && Leads(groups, a, list[k])
  }

  lemma {:induction false} AllRelatedFrom(groups: seq<Group>, list: seq<Record>, r: Record)
    ensures r in AllRelated(groups, list) <==> exists a :: a in list && Leads(groups, a, r)
  {
    if list != [] {
      var front, last := list[..|list| - 1], list[|list| - 1];
      AllRelatedFrom(groups, front, r);
      RelatedExactly(groups, last, r);
      assert forall a :: a in list <==> a in front || a == last;
    }
  }

  /** What was appended is behind what was there. */
  lemma {:induction false} AppendedAt(list: seq<Record>, rs: seq<Record>, k: nat)
    requires |list| <= k < |AppendAll(list, rs)|
    ensures AppendAll(list, rs)[k] in rs
    decreases rs
  {
    if rs != [] {
      var list' := Append(list, rs[0]);
      if k < |list'| {
        assert list' <= AppendAll(list', rs[1..]);
      } else {
        AppendedAt(list', rs[1..], k);
      }
    }
  }

  lemma GroundedAppend(groups: seq<Group>, ans: seq<Record>, list: seq<Record>, rs: seq<Record>)
    requires Grounded(groups, ans, list)
    requires forall r :: r in rs ==> exists a :: a in ans + list && Leads(groups, a, r)
    ensures Grounded(groups, ans, AppendAll(list, rs))
  {
    var list' := AppendAll(list, rs);
    forall k | 0 <= k < |list'| ensures Reason(groups, ans, list', k) {
      if k < |list| {
        assert Reason(groups, ans, list, k) && list'[..k] == list[..k];
      } else {
        AppendedAt(list, rs, k);
        var a :| a in ans + list && Leads(groups, a, list'[k]);
        assert ans + list <= ans + list'[..k];
        PrefixElems(ans + list, ans + list'[..k]);
        assert a in Elems(ans + list);
      }
    }
  }

  lemma FirstAdded(groups: seq<Group>, ans: seq<Record>)
    ensures Grounded(groups, ans, AppendAll([], AllRelated(groups, ans)))
  {
    forall r | r in AllRelated(groups, ans) ensures exists a :: a in ans + [] && Leads(groups, a, r) {
      AllRelatedFrom(groups, ans, r);
      assert ans + [] == ans;
    }
    GroundedAppend(groups, ans, [], AllRelated(groups, ans));
  }

  lemma NextAdded(groups: seq<Group>, ans: seq<Record>, list: seq<Record>, i: nat)
    requires Grounded(groups, ans, list) && i < |list|
    ensures Grounded(groups, ans, AppendAll(list, RelatedTo(groups, list[i])))
  {
    forall r | r in RelatedTo(groups, list[i]) ensures exists a :: a in ans + list && Leads(groups, a, r) {
      RelatedExactly(groups, list[i], r);
      assert list[i] in ans + list;
    }
    GroundedAppend(groups, ans, list, RelatedTo(groups, list[i]));
  }

  lemma ClosedIsComplete(groups: seq<Group>, ans: seq<Record>, list: seq<Record>)
    requires Elems(AllRelated(groups, ans)) <= Elems(list) && Closed(groups, Elems(list))
    ensures Complete(groups, ans, list)
  {
    forall a, i, j | a in ans + list && 0 <= i < |groups| && 0 <= j < |groups[i].rr|
                     && Leads(groups, a, groups[i].rr[j])
      ensures groups[i].rr[j] in list
    {
      var r := groups[i].rr[j];
      if a in ans {
        AllRelatedFrom(groups, ans, r);
        assert r in Elems(AllRelated(groups, ans));
      } else {
        RelatedExactly(groups, a, r);
        assert a in Elems(list) && r in Elems(RelatedTo(groups, a));
      }
      assert r in Elems(list);
    }
  }

  // ----- known answers -----

  predicate SameAnswer(k: Record, r: Record) {
    k.Type() == r.Type() && k.name == r.name && (r.Type() == PTR ==> r.Target() == k.Target())
  }

  /** `rr_entry_match`: the first record of the list that says the same. */
  function EntryMatch(list: seq<Record>, r: Record): (m: Option<Record>)
    ensures m.Some? ==> m.value in list && SameAnswer(m.value, r)
    ensures m.None? ==> forall k :: k in list ==> !SameAnswer(k, r)
  {
    if list == [] then None
    else if SameAnswer(list[0], r) then Some(list[0])
    else EntryMatch(list[1..], r)
  }

  /** The querier knows the answer for at least half of its lifetime. */
  predicate Suppressed(known: seq<Record>, r: Record) {
    match EntryMatch(known, r)
    case None => false
    case Some(k) => k.ttl >= r.ttl / 2
  }

  function Unknown(known: seq<Record>, list: seq<Record>): (s: seq<Record>)
    ensures forall r :: r in list && !Suppressed(known, r) ==> r in s
    ensures forall r :: r in s ==> r in list && !Suppressed(known, r)
    ensures NoDup(list) ==> NoDup(s)
  {
    if list == [] then []
    else
      var front, last := Unknown(known, list[..|list| - 1]), list[|list| - 1];
      if Suppressed(known, last) then front else front + [last]
  }

  function Answers(groups: seq<Group>, qs: seq<Question>): seq<Record> {
    if qs == [] then []
    else
      var q := qs[|qs| - 1];
      var front := Answers(groups, qs[..|qs| - 1]);
      if q.unicast then front else AppendAll(front, Matching(groups, q.name, q.rtype))
  }

  ghost predicate Asked(groups: seq<Group>, q: Question, r: Record) {
    !q.unicast && Fits(groups, r, q.name, q.rtype)
  }

  /** A record is an answer exactly if some multicast question asks for it. */
  lemma {:induction false} AnswersExact(groups: seq<Group>, qs: seq<Question>, r: Record)
    ensures r in Answers(groups, qs) <==> exists q :: q in qs && Asked(groups, q, r)
  {
    if qs == [] {
    } else {
      var front, q := qs[..|qs| - 1], qs[|qs| - 1];
      AnswersExact(groups, front, r);
      AnswersStep(groups, front, q, r);
      assert qs == front + [q];
    }
  }

  lemma AnswersStep(groups: seq<Group>, qs: seq<Question>, q: Question, r: Record)
    ensures r in Answers(groups, qs + [q]) <==> r in Answers(groups, qs) || Asked(groups, q, r)
  {
    var f, m := Answers(groups, qs), Matching(groups, q.name, q.rtype);
    assert (qs + [q])[..|qs|] == qs;
    AppendAllElems(f, m);
    MatchingExactly(groups, q.name, q.rtype, r);
    assert r in AppendAll(f, m) <==> r in Elems(AppendAll(f, m));
  }

  predicate KnownLongEnough(k: Record, r: Record) { SameAnswer(k, r) && k.ttl >= r.ttl / 2 }

  /** The first known answer that says the same has too short a lifetime, and a later one has not. */
  ghost predicate LateOnly(known: seq<Record>, r: Record) {
    exists i, j :: 0 <= i < j < |known| && FirstMatch(known, r, i) && known[i].ttl < r.ttl / 2
                   && KnownLongEnough(known[j], r)
  }

  ghost predicate FirstMatch(known: seq<Record>, r: Record, i: nat)
    requires i < |known|
  {
    SameAnswer(known[i], r) && forall k :: 0 <= k < i ==> !SameAnswer(known[k], r)
  }

  lemma {:induction false} EntryMatchIsFirst(known: seq<Record>, r: Record, i: nat)
    requires i < |known| && FirstMatch(known, r, i)
    ensures EntryMatch(known, r) == Some(known[i])
  {
    if i > 0 {
      assert !SameAnswer(known[0], r);
      assert forall k :: 0 <= k < i - 1 ==> known[1..][k] == known[k + 1];
      EntryMatchIsFirst(known[1..], r, i - 1);
    }
  }

  lemma {:induction false} FirstMatchExists(known: seq<Record>, r: Record, j: nat) returns (i: nat)
    requires j < |known| && SameAnswer(known[j], r)
    ensures i <= j && FirstMatch(known, r, i)
  {
    if k :| 0 <= k < j && SameAnswer(known[k], r) {
      i := FirstMatchExists(known, r, k);
    } else {
      i := j;
    }
  }

  /** An answer is left out exactly if it is known for at least half of its lifetime - if and
      only if that is not said by a later known answer only. What is left out is always known. */
  lemma SuppressedExact(known: seq<Record>, r: Record)
    ensures (Suppressed(known, r) <==> exists k :: k in known && KnownLongEnough(k, r)) <==> !LateOnly(known, r)
    ensures Suppressed(known, r) ==> exists k :: k in known && KnownLongEnough(k, r)
  {
    if Suppressed(known, r) {
      assert KnownLongEnough(EntryMatch(known, r).value, r);
    }
    if k :| k in known && KnownLongEnough(k, r) {
      var j :| 0 <= j < |known| && known[j] == k;
      var i := FirstMatchExists(known, r, j);
      EntryMatchIsFirst(known, r, i);
      assert !Suppressed(known, r) ==> i < j && LateOnly(known, r);
    }
    if LateOnly(known, r) {
      var i, j :| 0 <= i < j < |known| && FirstMatch(known, r, i) && known[i].ttl < r.ttl / 2
                  && KnownLongEnough(known[j], r);
      EntryMatchIsFirst(known, r, i);
      assert known[j] in known;
    }
  }

  /** Two known answers to an address of 120 seconds: it is known for its whole lifetime, but the
      answer that has expired comes first, and so the record is sent. */
  method FirstAnswerDecides(name: Name) returns (r: Record, known: seq<Record>)
    ensures r.ttl == 120 && |known| == 2 && known[0].ttl == 0 && known[1].ttl == 120
    ensures KnownLongEnough(known[1], r) && LateOnly(known, r) && !Suppressed(known, r)
    ensures Suppressed([known[1], known[0]], r)
  {
    r := new Record(name, 120, Host);
    var expired := new Record(name, 0, Host);
    var current := new Record(name, 120, Host);
    known := [expired, current];
    assert FirstMatch(known, r, 0);
  }

  lemma UnknownStep(known: seq<Record>, list: seq<Record>, r: Record)
    ensures Unknown(known, list + [r]) == Unknown(known, list) + if Suppressed(known, r) then [] else [r]
  {
    assert (list + [r])[..|list|] == list;
  }

  /** One round of the suppression, after which record i is unlinked or passed. */
  lemma SuppressStep(known: seq<Record>, list: seq<Record>, i: nat, done: seq<Record>, was: seq<Record>)
    requires i < |list| && list[..i] == Unknown(known, done) && done + list[i..] == was
    ensures var done', list' := done + [list[i]], list[..i] + list[i + 1..];
            && done' + list[i + 1..] == was
            && (if Suppressed(known, list[i]) then list'[..i] == Unknown(known, done') && list'[i..] == list[i + 1..]
                else list[..i + 1] == Unknown(known, done'))
  {
    UnknownStep(known, done, list[i]);
    Unlinked(list, i);
    Passed(done, list, i);
  }

  lemma Unlinked(list: seq<Record>, i: nat)
    requires i < |list|
    ensures (list[..i] + list[i + 1..])[..i] == list[..i] && (list[..i] + list[i + 1..])[i..] == list[i + 1..]
    ensures list[..i + 1] == list[..i] + [list[i]]
  {}

  lemma Passed(done: seq<Record>, list: seq<Record>, i: nat)
    requires i < |list|
    ensures done + [list[i]] + list[i + 1..] == done + list[i..]
  {}

  const WORD := 0x10000

  lemma CountedMore(was: nat, num: nat)
    ensures (was % WORD + num) % WORD == (was + num) % WORD
  {}

  /** Neither the response bit nor any opcode is set. */
  predicate StandardQuery(flags: nat) { flags / 0x8000 % 2 == 0 && flags / 0x800 % 16 == 0 }

  /** The lists and counters of a reply under construction. */
  class Reply {
    var rrAns: seq<Record>
    var rrAdd: seq<Record>
    var numAns: nat
    var numAdd: nat

    ghost predicate Counted()
      reads this
    {
      numAns == |rrAns| % WORD && numAdd == |rrAdd| % WORD
    }

    constructor ()
      ensures Counted() && rrAns == [] && rrAdd == []
    {
      rrAns, rrAdd, numAns, numAdd := [], [], 0, 0;
    }

    method Add(groups: seq<Group>, name: Name, rtype: RrType)
      requires Counted()
      modifies this`rrAdd, this`numAdd
      ensures Counted() && rrAdd == AppendAll(old(rrAdd), Matching(groups, name, rtype))
    {
      var num;
      ghost var was := |rrAdd|;
      rrAdd, num := Populate(groups, rrAdd, name, rtype);
      CountedMore(was, num);
      numAdd := (numAdd + num) % WORD;
    }

    method Answer(groups: seq<Group>, name: Name, rtype: RrType)
      requires Counted()
      modifies this`rrAns, this`numAns
      ensures Counted() && rrAns == AppendAll(old(rrAns), Matching(groups, name, rtype))
    {
      var num;
      ghost var was := |rrAns|;
      rrAns, num := Populate(groups, rrAns, name, rtype);
      CountedMore(was, num);
      numAns := (numAns + num) % WORD;
    }

    /** The body of the loop of `add_related_rr`. */
    method AddRelatedTo(groups: seq<Group>, ans: Record)
      requires Counted()
      modifies this`rrAdd, this`numAdd
      ensures Counted() && rrAdd == AppendAll(old(rrAdd), RelatedTo(groups, ans))
    {
      match ans.Type()
      case PTR => Add(groups, ans.Target(), ANY);
      case SRV =>
        Add(groups, ans.data.target, ANY);
        AppendAllTwice(old(rrAdd), Matching(groups, ans.data.target, ANY), Matching(groups, ans.name, TXT));
        Add(groups, ans.name, TXT);
      case A => Add(groups, ans.name, NSEC);
      case AAAA => Add(groups, ans.name, NSEC);
      case _ =>
    }

    /** `add_related_rr` over the answers. */
    method AddRelatedToAnswers(groups: seq<Group>)
      requires Counted()
      modifies this`rrAdd, this`numAdd
      ensures Counted() && rrAdd == AppendAll(old(rrAdd), AllRelated(groups, rrAns))
    {
      var i := 0;
      while i < |rrAns|
        invariant i <= |rrAns| && Counted()
        invariant rrAdd == AppendAll(old(rrAdd), AllRelated(groups, rrAns[..i]))
      {
        AddRelatedTo(groups, rrAns[i]);
        assert rrAns[..i + 1][..i] == rrAns[..i];
        AppendAllTwice(old(rrAdd), AllRelated(groups, rrAns[..i]), RelatedTo(groups, rrAns[i]));
        i := i + 1;
      }
      assert rrAns[..i] == rrAns;
    }

    /** `add_related_rr` over the additional records themselves, which grow meanwhile. It ends
        with the least set of records that contains what was there and is closed. */
    method AddRelatedToAdded(groups: seq<Group>, ghost bound: set<Record>)
      requires Counted() && NoDup(rrAdd) && Grounded(groups, rrAns, rrAdd)
      modifies this`rrAdd, this`numAdd
      ensures Counted() && NoDup(rrAdd) && old(rrAdd) <= rrAdd
      ensures Closed(groups, Elems(rrAdd)) && Grounded(groups, rrAns, rrAdd)
      ensures Elems(old(rrAdd)) <= bound && Closed(groups, bound) ==> Elems(rrAdd) <= bound
    {
      var i := 0;
      while i < |rrAdd|
        invariant i <= |rrAdd| && Counted() && old(rrAdd) <= rrAdd
        invariant Visited(groups, old(rrAdd), rrAdd, i, bound) && Grounded(groups, rrAns, rrAdd)
        decreases |Universe(groups) - Elems(rrAdd)|, |rrAdd| - i
      {
        Visit(groups, old(rrAdd), rrAdd, i, bound);
        GrownSize(groups, rrAdd, i);
        NextAdded(groups, rrAns, rrAdd, i);
        AddRelatedTo(groups, rrAdd[i]);
        i := i + 1;
      }
      AllClosed(groups, rrAdd);
    }

    /** Known-answer suppression: unlinks the answers that the querier knows. */
    method Suppress(known: seq<Record>)
      requires Counted()
      modifies this`rrAns, this`numAns
      ensures Counted() && rrAns == Unknown(known, old(rrAns))
    {
      var i := 0;
      ghost var done: seq<Record> := [];
      while i < |rrAns|
        invariant i <= |rrAns| && Counted()
        invariant rrAns[..i] == Unknown(known, done) && done + rrAns[i..] == old(rrAns)
        decreases |rrAns| - i
      {
        var ans := rrAns[i];
        SuppressStep(known, rrAns, i, done, old(rrAns));
        done := done + [ans];
        var k := EntryMatch(known, ans);
        if k.Some? && k.value.ttl >= ans.ttl / 2 {
          Unlink(i);
        } else {
          i := i + 1;
        }
      }
      assert rrAns[..i] == rrAns && rrAns[i..] == [] && done + [] == done;
    }

    method Unlink(i: nat)
      requires Counted() && i < |rrAns|
      modifies this`rrAns, this`numAns
      ensures Counted() && rrAns == old(rrAns[..i]) + old(rrAns[i + 1..])
    {
      rrAns := rrAns[..i] + rrAns[i + 1..];
      numAns := (numAns + WORD - 1) % WORD;
    }

    /** The loop over the questions. */
    method AnswerAll(groups: seq<Group>, qs: seq<Question>)
      requires Counted() && rrAns == []
      modifies this`rrAns, this`numAns
      ensures Counted() && rrAns == Answers(groups, qs)
    {
      for i := 0 to |qs|
        invariant Counted() && rrAns == Answers(groups, qs[..i])
      {
        assert qs[..i + 1][..i] == qs[..i];
        if !qs[i].unicast {
          Answer(groups, qs[i].name, qs[i].rtype);
        }
      }
      assert qs[..|qs|] == qs;
    }

    /** Both calls of `add_related_rr`. The additional records become the least closed set that
        contains what is related to the answers. */
    method AddAllRelated(groups: seq<Group>, ghost bound: set<Record>)
      requires Counted() && rrAdd == []
      modifies this`rrAdd, this`numAdd
      ensures Counted() && NoDup(rrAdd)
      ensures Complete(groups, rrAns, rrAdd) && Grounded(groups, rrAns, rrAdd)
      ensures Elems(AllRelated(groups, rrAns)) <= bound && Closed(groups, bound) ==> Elems(rrAdd) <= bound
    {
      AddRelatedToAnswers(groups);
      AppendAllElems([], AllRelated(groups, rrAns));
      FirstAdded(groups, rrAns);
      ghost var direct := rrAdd;
      AddRelatedToAdded(groups, bound);
      PrefixElems(direct, rrAdd);
      ClosedIsComplete(groups, rrAns, rrAdd);
    }

    /** `process_mdns_pkt`. The answers to a standard query are the records asked for that the
        querier does not know; no list holds a record twice, and both are counted. */
    method Process(groups: seq<Group>, flags: nat, qs: seq<Question>, known: seq<Record>, ghost bound: set<Record>)
      returns (processed: nat)
      modifies this
      ensures !StandardQuery(flags) ==> processed == 0 && unchanged(this)
      ensures StandardQuery(flags) ==>
                && Counted() && processed == numAns
                && rrAns == Unknown(known, Answers(groups, qs))
                && (forall r :: r in rrAns <==> !Suppressed(known, r) && exists q :: q in qs && Asked(groups, q, r))
                && NoDup(rrAns) && NoDup(rrAdd)
                && Complete(groups, rrAns, rrAdd) && Grounded(groups, rrAns, rrAdd)
      ensures StandardQuery(flags) && Elems(AllRelated(groups, rrAns)) <= bound && Closed(groups, bound) ==>
                Elems(rrAdd) <= bound
    {
      if !StandardQuery(flags) {
        return 0;
      }
      rrAns, rrAdd, numAns, numAdd := [], [], 0, 0;
      AnswerAll(groups, qs);
      AnswersNoDup(groups, qs);
      Suppress(known);
      AddAllRelated(groups, bound);
      processed := numAns;
      forall r ensures r in rrAns <==> !Suppressed(known, r) && exists q :: q in qs && Asked(groups, q, r) {
        AnswersExact(groups, qs, r);
      }
    }

    /** `announce_srv`: `services` is the name under which all services are listed. */
    method Announce(groups: seq<Group>, name: Name, services: Name, ghost bound: set<Record>)
      modifies this
      ensures Counted() && NoDup(rrAns) && NoDup(rrAdd)
      ensures forall r :: r in rrAns <==> Fits(groups, r, name, PTR) || Fits(groups, r, services, PTR)
      ensures Complete(groups, rrAns, rrAdd) && Grounded(groups, rrAns, rrAdd)
      ensures Elems(AllRelated(groups, rrAns)) <= bound && Closed(groups, bound) ==> Elems(rrAdd) <= bound
    {
      rrAns, rrAdd, numAns, numAdd := [], [], 0, 0;
      Answer(groups, name, PTR);
      AppendAllElems([], Matching(groups, name, PTR));
      AppendAllElems(rrAns, Matching(groups, services, PTR));
      Answer(groups, services, PTR);
      forall r ensures r in rrAns <==> Fits(groups, r, name, PTR) || Fits(groups, r, services, PTR) {
        MatchingExactly(groups, name, PTR, r);
        MatchingExactly(groups, services, PTR, r);
        assert r in rrAns <==> r in Elems(rrAns);
      }
      AddAllRelated(groups, bound);
    }
  }

  lemma {:induction false} AnswersNoDup(groups: seq<Group>, qs: seq<Question>)
    ensures NoDup(Answers(groups, qs))
  {
    if qs == [] {
    } else {
      var front, q := qs[..|qs| - 1], qs[|qs| - 1];
      AnswersNoDup(groups, front);
      AppendAllElems(Answers(groups, front), Matching(groups, q.name, q.rtype));
    }
  }

  lemma PrefixElems(x: seq<Record>, y: seq<Record>)
    requires x <= y
    ensures Elems(x) <= Elems(y)
  {
    forall r | r in Elems(x) ensures r in Elems(y) {
      var k :| 0 <= k < |x| && x[k] == r;
      assert y[k] == r;
    }
  }

  /** The first n records of a list that grew from `start` have been looked at. */
  ghost predicate Visited(groups: seq<Group>, start: seq<Record>, list: seq<Record>, n: nat, bound: set<Record>) {
    && n <= |list| && NoDup(list) && ClosedUpTo(groups, list, n)
    && (Elems(start) <= bound && Closed(groups, bound) ==> Elems(list) <= bound)
  }

  lemma Visit(groups: seq<Group>, start: seq<Record>, list: seq<Record>, n: nat, bound: set<Record>)
    requires Visited(groups, start, list, n, bound) && n < |list|
    ensures Visited(groups, start, AppendAll(list, RelatedTo(groups, list[n])), n + 1, bound)
  {
    AppendAllElems(list, RelatedTo(groups, list[n]));
    GrownClosed(groups, list, n, AppendAll(list, RelatedTo(groups, list[n])));
    if Elems(start) <= bound && Closed(groups, bound) {
      assert list[n] in bound;
    }
  }

  lemma GrownClosed(groups: seq<Group>, list: seq<Record>, n: nat, list': seq<Record>)
    requires n < |list| && ClosedUpTo(groups, list, n) && list <= list'
    requires Elems(list') == Elems(list) + Elems(RelatedTo(groups, list[n]))
    ensures ClosedUpTo(groups, list', n + 1)
  {
    forall k | 0 <= k < n + 1 ensures Elems(RelatedTo(groups, list'[k])) <= Elems(list') {
      assert list'[k] == list[k];
      GrownAt(groups, list, n, list', k);
    }
  }

  lemma GrownAt(groups: seq<Group>, list: seq<Record>, n: nat, list': seq<Record>, k: nat)
    requires k <= n < |list| && ClosedUpTo(groups, list, n)
    requires Elems(list') == Elems(list) + Elems(RelatedTo(groups, list[n]))
    ensures Elems(RelatedTo(groups, list[k])) <= Elems(list')
  {}

  /** A list that grows takes a record that is missing in it from the database. */
  lemma GrownSize(groups: seq<Group>, was: seq<Record>, n: nat)
    requires n < |was|
    ensures var list := AppendAll(was, RelatedTo(groups, was[n]));
            list == was || |Universe(groups) - Elems(list)| < |Universe(groups) - Elems(was)|
  {
    var rs := RelatedTo(groups, was[n]);
    var list := AppendAll(was, rs);
    if list != was {
      AppendAllElems(was, rs);
      RelatedInside(groups, was[n]);
      GrownByNew(was, rs);
      Smaller(Universe(groups), Elems(was), Elems(list), list[|was|]);
    }
  }

  lemma Smaller(all: set<Record>, x: set<Record>, y: set<Record>, r: Record)
    requires r in all && r !in x && r in y && x <= y
    ensures |all - y| < |all - x|
  {
    SubsetSize(all - y, all - x - {r});
  }

  lemma {:induction false} SubsetSize(x: set<Record>, y: set<Record>)
    requires x <= y
    ensures |x| <= |y|
  {
    assert y == x + (y - x);
  }

  /** The first record that was appended is new. */
  lemma {:induction false} GrownByNew(was: seq<Record>, rs: seq<Record>)
    ensures AppendAll(was, rs) != was ==>
            |AppendAll(was, rs)| > |was| && AppendAll(was, rs)[|was|] !in was && AppendAll(was, rs)[|was|] in rs
    decreases rs
  {
    if rs != [] && rs[0] in was { GrownByNew(was, rs[1..]); }
  }

  lemma AllClosed(groups: seq<Group>, list: seq<Record>)
    requires ClosedUpTo(groups, list, |list|)
    ensures Closed(groups, Elems(list))
  {
    forall r | r in Elems(list) ensures Elems(RelatedTo(groups, r)) <= Elems(list) {
      var k :| 0 <= k < |list| && list[k] == r;
    }
  }
}
