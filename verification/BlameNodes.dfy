/**
 Blame entries as nodes of linked lists (git/blame.c): turning a list around, cutting a node in two, and the loops
 that hang the nodes of a list, cut at a line, into two others.
 */
module BlameNodes {
  import opened BlameSpec

  class Node {
    var entry: Entry
    var next: Node?

    constructor (entry: Entry, next: Node?)
      ensures this.entry == entry && this.next == next
    {
      this.entry, this.next := entry, next;
    }
  }

  // ---- lists of nodes ----

  function First(s: seq<Node>): Node? { if s == [] then null else s[0] }

  function Last(s: seq<Node>): Node? { if s == [] then null else s[|s| - 1] }

  ghost predicate Apart(s: seq<Node>, i: int, j: int) { 0 <= i < j < |s| ==> s[i] != s[j] }

  ghost predicate Distinct(s: seq<Node>) { forall i, j :: Apart(s, i, j) }

  ghost predicate Disjoint(a: seq<Node>, b: seq<Node>) { forall n :: n in a ==> n !in b }

  /** Where the nodes lead. */
  ghost function Nexts(s: seq<Node>): (ns: seq<Node?>)
    reads s
    ensures |ns| == |s| && forall i :: 0 <= i < |s| ==> ns[i] == s[i].next
  {
    seq(|s|, i requires 0 <= i < |s| reads s => s[i].next)
  }

  /** Where the nodes of a list lead that goes on with tail. */
  ghost function Chain(s: seq<Node>, tail: Node?): (ns: seq<Node?>)
    ensures |ns| == |s|
  {
    if s == [] then [] else s[1..] + [tail]
  }

  ghost predicate IsList(head: Node?, s: seq<Node>)
    reads s
  {
    Distinct(s) && head == First(s) && Nexts(s) == Chain(s, null)
  }

  ghost function Entries(s: seq<Node>): (es: seq<Entry>)
    reads s
    ensures |es| == |s| && forall i :: 0 <= i < |s| ==> es[i] == s[i].entry
  {
    seq(|s|, i requires 0 <= i < |s| reads s => s[i].entry)
  }

  lemma EntriesConcat(a: seq<Node>, b: seq<Node>)
    ensures Entries(a + b) == Entries(a) + Entries(b)
  {
  }

  lemma EntriesCons(e: Node, s: seq<Node>)
    ensures Entries([e] + s) == [e.entry] + Entries(s)
  {
  }

  lemma NextsConcat(a: seq<Node>, b: seq<Node>)
    ensures Nexts(a + b) == Nexts(a) + Nexts(b)
  {
  }

  /** A chain in two parts: the first leads to the second. */
  lemma ChainConcat(a: seq<Node>, b: seq<Node>, tail: Node?)
    ensures Chain(a + b, tail) == Chain(a, if b == [] then tail else b[0]) + Chain(b, tail)
  {
    if a == [] {
      assert a + b == b;
    } else if b == [] {
      assert a + b == a;
    } else {
      assert (a + b)[1..] == a[1..] + [b[0]] + b[1..];
    }
  }

  lemma DistinctParts(a: seq<Node>, b: seq<Node>)
    ensures Distinct(a + b) <==> Distinct(a) && Distinct(b) && Disjoint(a, b)
  {
    var s := a + b;
    if Distinct(s) {
      forall i, j | 0 <= i < |a| && 0 <= j < |b|
        ensures a[i] != b[j]
      {
        assert Apart(s, i, |a| + j);
      }
      forall i, j
        ensures Apart(a, i, j) && Apart(b, i, j)
      {
        assert Apart(s, i, j) && Apart(s, |a| + i, |a| + j);
      }
    }
    if Distinct(a) && Distinct(b) && Disjoint(a, b) {
      forall i, j
        ensures Apart(s, i, j)
      {
        if 0 <= i < j < |s| {
          assert Apart(a, i, j) && Apart(b, i - |a|, j - |a|);
          assert i < |a| ==> s[i] in a;
          assert j >= |a| ==> s[j] in b;
        }
      }
    }
  }

  ghost function Turned(s: seq<Node>): (r: seq<Node>)
    ensures |r| == |s| && forall i :: 0 <= i < |s| ==> r[i] == s[|s| - 1 - i]
  {
    seq(|s|, i requires 0 <= i < |s| => s[|s| - 1 - i])
  }

  lemma EntriesTurned(s: seq<Node>)
    ensures Entries(Turned(s)) == Reverse(Entries(s))
  {
    forall i | 0 <= i < |s|
      ensures Entries(Turned(s))[i] == Reverse(Entries(s))[i]
    {
      ReverseAt(Entries(s), i);
    }
  }

  /** A list in two parts. */
  lemma ListParts(head: Node?, a: seq<Node>, b: seq<Node>)
    ensures IsList(head, a + b) <==>
      && Distinct(a) && Nexts(a) == Chain(a, First(b)) && Disjoint(a, b) && IsList(First(b), b)
      && head == First(if a == [] then b else a)
  {
    NextsConcat(a, b);
    ChainConcat(a, b, null);
    DistinctParts(a, b);
    assert (Nexts(a) + Nexts(b))[..|a|] == Nexts(a) && (Nexts(a) + Nexts(b))[|a|..] == Nexts(b);
    assert (Chain(a, First(b)) + Chain(b, null))[..|a|] == Chain(a, First(b))
      && (Chain(a, First(b)) + Chain(b, null))[|a|..] == Chain(b, null);
    assert a == [] ==> a + b == b;
  }

  lemma ListCons(n: Node, s: seq<Node>)
    requires IsList(First(s), s) && n !in s && n.next == First(s)
    ensures IsList(n, [n] + s)
  {
    assert Nexts([n]) == Chain([n], First(s));
    ListParts(n, [n], s);
  }

  lemma ListTail(e: Node, s: seq<Node>)
    requires IsList(e, s)
    ensures s != [] && e == s[0] && IsList(e.next, s[1..]) && e !in s[1..]
  {
    assert s == [e] + s[1..];
    ListParts(e, [e], s[1..]);
  }

  /** Lets e lead elsewhere; the nodes of three lists it is not in lead where they did. */
  method SetNext(e: Node, next: Node?, ghost a: seq<Node>, ghost b: seq<Node>, ghost c: seq<Node>)
    requires e !in a && e !in b && e !in c
    modifies e`next
    ensures e.next == next && Nexts(a) == old(Nexts(a)) && Nexts(b) == old(Nexts(b)) && Nexts(c) == old(Nexts(c))
    ensures Entries(a) == old(Entries(a)) && Entries(b) == old(Entries(b)) && Entries(c) == old(Entries(c))
  {
    e.next := next;
  }

  /** Hangs the first node of one list in front of another; a third one stays. */
  method MoveHead(e: Node, onto: Node?, ghost left: seq<Node>, ghost done: seq<Node>, ghost other: seq<Node>)
    returns (next: Node?)
    requires IsList(e, left) && IsList(onto, done) && Disjoint(done, left) && e !in other
    modifies e`next
    ensures left != [] && e == left[0] && IsList(next, left[1..]) && IsList(e, [e] + done)
      && Disjoint([e] + done, left[1..])
    ensures Entries(other) == old(Entries(other)) && Nexts(other) == old(Nexts(other))
    ensures Entries(left[1..]) == old(Entries(left[1..])) && Entries(done) == old(Entries(done))
  {
    ListTail(e, left);
    next := e.next;
    assert e in left;
    SetNext(e, onto, left[1..], done, other);
    ListCons(e, done);
  }

  lemma TurnOne(left: seq<Node>, done: seq<Node>)
    requires left != []
    ensures Turned(left) + done == Turned(left[1..]) + ([left[0]] + done)
  {
  }

  /** Puts the nodes of head, back to front, in front of tail. */
  method ReverseBlame(head: Node?, tail: Node?, ghost hs: seq<Node>, ghost ts: seq<Node>) returns (r: Node?)
    requires IsList(head, hs) && IsList(tail, ts) && Disjoint(ts, hs)
    modifies hs`next
    ensures IsList(r, Turned(hs) + ts)
  {
    var rest := head;
    r := tail;
    ghost var left: seq<Node>, done: seq<Node> := hs, ts;
    while rest != null
      invariant IsList(rest, left) && IsList(r, done) && Disjoint(done, left) && Turned(left) + done == Turned(hs) + ts
      invariant forall n :: n in left ==> n in hs
      decreases |left|
    {
      ghost var e: Node := rest;
      assert e in left;
      var next := MoveHead(rest, r, left, done, []);
      TurnOne(left, done);
      r := rest;
      rest, left, done := next, left[1..], [e] + done;
    }
    assert Turned(left) + done == done;
  }

  // ---- cutting at a line ----

  /** Cuts the entry of e after len lines; the rest is a new node. */
  method SplitBlameAt(e: Node, len: nat, newSuspect: Suspect, ghost a: seq<Node>, ghost b: seq<Node>,
                      ghost c: seq<Node>)
    returns (n: Node)
    requires len <= e.entry.numLines && e !in a && e !in b && e !in c
    modifies e`entry
    ensures fresh(n) && n.entry ==
      Entry(old(e.entry).lno + len, old(e.entry).sLno + len, old(e.entry).numLines - len, newSuspect,
            old(e.entry).flags)
    ensures e.entry == old(e.entry).(numLines := len)
    ensures Entries(a) == old(Entries(a)) && Entries(b) == old(Entries(b)) && Entries(c) == old(Entries(c))
  {
    n := new Node(Entry(e.entry.lno + len, e.entry.sLno + len, e.entry.numLines - len, newSuspect, e.entry.flags),
                  null);
    SetEntry(e, e.entry.(numLines := len), a, b, c);
  }

  /** The three lists of a loop that cuts: what is below the cut, what is above, what is still to be looked at. */
  ghost predicate ThreeLists(below: Node?, bs: seq<Node>, above: Node?, abs: seq<Node>, rest: Node?, rs: seq<Node>)
    reads bs, abs, rs
  {
    IsList(below, bs) && IsList(above, abs) && IsList(rest, rs) && Disjoint(bs, abs) && Disjoint(bs, rs)
      && Disjoint(abs, rs)
  }

  /** Gives e another entry; the entries of three lists it is not in stay. */
  method SetEntry(e: Node, entry: Entry, ghost a: seq<Node>, ghost b: seq<Node>, ghost c: seq<Node>)
    requires e !in a && e !in b && e !in c
    modifies e`entry
    ensures e.entry == entry && Entries(a) == old(Entries(a)) && Entries(b) == old(Entries(b))
      && Entries(c) == old(Entries(c))
  {
    e.entry := entry;
  }

  /** The part of an entry from t on, if any, goes to the front of the list above; the part below stays in e. */
  method CutEntry(e: Node, above: Node?, t: int, ghost abs: seq<Node>, ghost a: seq<Node>, ghost b: seq<Node>)
    returns (above': Node?, ghost cut: seq<Node>)
    requires IsList(above, abs) && e !in abs && e.entry.sLno <= t && e !in a && e !in b
    modifies e`entry
    ensures IsList(above', cut + abs) && (forall n :: n in cut ==> fresh(n)) && e !in cut
    ensures Entries(cut) == (if Reaches(old(e.entry), t) then [Above(old(e.entry), t)] else [])
      && Entries(abs) == old(Entries(abs))
    ensures e.entry == Below(old(e.entry), t, 0, old(e.entry).suspect) && Entries(a) == old(Entries(a))
      && Entries(b) == old(Entries(b))
  {
    if e.entry.sLno + e.entry.numLines > t {
      var n := CutOff(e, above, t, abs, a, b);
      above', cut := n, [n];
    } else {
      above', cut := above, [];
      assert cut + abs == abs;
    }
  }

  method CutOff(e: Node, above: Node?, t: int, ghost abs: seq<Node>, ghost a: seq<Node>, ghost b: seq<Node>)
    returns (n: Node)
    requires IsList(above, abs) && e !in abs && e.entry.sLno <= t && Reaches(e.entry, t) && e !in a && e !in b
    modifies e`entry
    ensures IsList(n, [n] + abs) && fresh(n) && n.entry == Above(old(e.entry), t) && Entries(abs) == old(Entries(abs))
    ensures e.entry == old(e.entry).(numLines := t - old(e.entry).sLno) && Entries(a) == old(Entries(a))
      && Entries(b) == old(Entries(b))
  {
    n := SplitBlameAt(e, t - e.entry.sLno, e.entry.suspect, abs, a, b);
    SetNext(n, above, abs, a, b);
    ListCons(n, abs);
  }

  lemma ThreeMoved(below: Node?, bs: seq<Node>, above: Node?, abs: seq<Node>, e: Node, rs: seq<Node>)
    requires ThreeLists(below, bs, above, abs, e, rs)
    ensures rs != [] && e == rs[0] && e in rs && e !in bs && e !in abs && e !in rs[1..]
  {
    ListTail(e, rs);
  }

  lemma StillClear(abs: seq<Node>, cut: seq<Node>, e: Node, bs: seq<Node>, rs: seq<Node>)
    requires e !in abs && rs != [] && e == rs[0] && Disjoint(bs, abs) && Disjoint(abs, rs) && Disjoint(cut, bs)
      && Disjoint(cut, rs) && e !in cut
    ensures Disjoint([e] + bs, cut + abs) && Disjoint(cut + abs, rs[1..]) && e !in cut + abs
  {
    assert forall n :: n in rs[1..] ==> n in rs;
  }

  /** What the first loop does to the entry of a node. */
  method CutAndBlame(e: Node, diffp: Node?, tlno: int, offset: int, ghost ps: seq<Node>, ghost ds: seq<Node>,
                     ghost rest: seq<Node>)
    returns (diffp': Node?, ghost cut: seq<Node>)
    requires IsList(diffp, ds) && e !in ds && e !in ps && e !in rest && e.entry.sLno <= tlno
    modifies e`entry
    ensures IsList(diffp', cut + ds) && (forall n :: n in cut ==> fresh(n)) && e !in cut
    ensures e.entry == Below(old(e.entry), tlno, offset, Parent) && Entries(ps) == old(Entries(ps))
      && Entries(rest) == old(Entries(rest))
    ensures Entries(cut + ds) == (if Reaches(old(e.entry), tlno) then [Above(old(e.entry), tlno)] else []) +
      old(Entries(ds))
  {
    diffp', cut := CutEntry(e, diffp, tlno, ds, ps, rest);
    EntriesConcat(cut, ds);
    SetEntry(e, e.entry.(suspect := Parent, sLno := e.entry.sLno + offset), ps, cut + ds, rest);
  }

  /** One node of the first loop: its part below tlno is blamed on the parent. */
  method PassOne(e: Node, samep: Node?, diffp: Node?, tlno: int, offset: int, ghost ps: seq<Node>,
                 ghost ds: seq<Node>, ghost rs: seq<Node>, ghost other: seq<Node>)
    returns (next: Node?, diffp': Node?, ghost cut: seq<Node>)
    requires ThreeLists(samep, ps, diffp, ds, e, rs) && e.entry.sLno < tlno && rs != []
    requires e !in other
    modifies e
    ensures e == rs[0] && ThreeLists(e, [e] + ps, diffp', cut + ds, next, rs[1..])
      && (forall n :: n in cut ==> fresh(n))
    ensures Entries([e] + ps) == [Below(old(e.entry), tlno, offset, Parent)] + old(Entries(ps))
      && Entries(rs[1..]) == old(Entries(rs[1..]))
    ensures Entries(cut + ds) == (if Reaches(old(e.entry), tlno) then [Above(old(e.entry), tlno)] else []) +
      old(Entries(ds))
    ensures Nexts(other) == old(Nexts(other)) && Entries(other) == old(Entries(other))
  {
    ThreeMoved(samep, ps, diffp, ds, e, rs);
    diffp', cut := CutAndBlame(e, diffp, tlno, offset, ps, ds, rs[1..]);
    StillClear(ds, cut, e, ps, rs);
    next := HangBefore(e, samep, diffp', ps, cut + ds, rs);
  }

  /** Hangs the first node of the rest before those below; nothing else changes. */
  method HangBefore(e: Node, below: Node?, above: Node?, ghost bs: seq<Node>, ghost abs: seq<Node>, ghost rs: seq<Node>)
    returns (next: Node?)
    requires IsList(below, bs) && IsList(above, abs) && IsList(e, rs) && Disjoint(bs, rs) && Disjoint(abs, rs[1..])
      && Disjoint([e] + bs, abs) && rs != []
    modifies e`next
    ensures e == rs[0] && ThreeLists(e, [e] + bs, above, abs, next, rs[1..])
    ensures Entries([e] + bs) == [e.entry] + old(Entries(bs)) && Entries(abs) == old(Entries(abs))
      && Entries(rs[1..]) == old(Entries(rs[1..]))
  {
    assert e in [e] + bs;
    next := MoveHead(e, below, rs, bs, abs);
    EntriesCons(e, bs);
  }

  /** One node of the second loop: its part below same stays with the target. */
  method KeepOne(e: Node, diffp: Node?, samep: Node?, same: int, ghost ds: seq<Node>, ghost ps: seq<Node>,
                 ghost rs: seq<Node>, ghost other: seq<Node>)
    returns (next: Node?, samep': Node?, ghost cut: seq<Node>)
    requires ThreeLists(diffp, ds, samep, ps, e, rs) && e.entry.sLno < same && rs != []
    requires e !in other
    modifies e
    ensures e == rs[0] && ThreeLists(e, [e] + ds, samep', cut + ps, next, rs[1..])
      && (forall n :: n in cut ==> fresh(n))
    ensures Entries([e] + ds) == [Below(old(e.entry), same, 0, old(e.entry).suspect)] + old(Entries(ds))
      && Entries(rs[1..]) == old(Entries(rs[1..]))
    ensures Entries(cut + ps) == (if Reaches(old(e.entry), same) then [Above(old(e.entry), same)] else []) +
      old(Entries(ps))
    ensures Nexts(other) == old(Nexts(other)) && Entries(other) == old(Entries(other))
  {
    ThreeMoved(diffp, ds, samep, ps, e, rs);
    samep', cut := CutEntry(e, samep, same, ps, ds, rs[1..]);
    EntriesConcat(cut, ps);
    StillClear(ps, cut, e, ds, rs);
    next := HangBefore(e, diffp, samep', ds, cut + ps, rs);
  }

  // the entries a loop began with, those it has taken, and the bounds it keeps
  datatype Task = Task(all: seq<Entry>, taken: seq<Entry>, pos: int, last: int, end: int, t: int, offset: int,
                       suspect: Suspect)

  function Taken(k: Task, e: Entry): Task { k.(taken := k.taken + [e], last := e.sLno) }

  ghost predicate Of(k: Task, k0: Task) { k == k0.(taken := k.taken, last := k.last) }

  /** A loop that cuts at t, part way: the lists and what their entries are. */
  ghost predicate Cutting(below: seq<Entry>, above: seq<Entry>, rest: seq<Entry>, k: Task) {
    && k.all == k.taken + rest && k.pos <= k.last && Queue(rest, k.last, TOP, k.end, Target)
    && CutAt(k.taken, below, above, k.pos, k.last, k.end, k.t, k.offset, k.suspect)
  }

  lemma CuttingNext(below: seq<Entry>, above: seq<Entry>, rest: seq<Entry>, k: Task, e: Entry, below': seq<Entry>,
                    above': seq<Entry>)
    requires Cutting(below, above, rest, k) && rest != [] && e == rest[0] && e.sLno < k.t
    requires below' == [Below(e, k.t, k.offset, k.suspect)] + below
      && above' == (if Reaches(e, k.t) then [Above(e, k.t)] else []) + above
    ensures Cutting(below', above', rest[1..], Taken(k, e))
  {
    Tail(rest, k.last, TOP, k.end, Target);
    CutOne(e, k.taken, below, above, k.pos, k.last, k.end, k.t, k.offset, k.suspect);
    assert k.all == (k.taken + [e]) + rest[1..];
    assert !Reaches(e, k.t) ==> above' == above;
  }

  lemma CuttingStarts(es: seq<Entry>, pos: int, end: int, t: int, offset: int, s: Suspect)
    requires Queue(es, pos, TOP, end, Target)
    ensures Cutting([], [], es, Task(es, [], pos, pos, end, t, offset, s))
  {
  }

  lemma CuttingDone(below: seq<Entry>, above: seq<Entry>, rest: seq<Entry>, k: Task)
    requires Cutting(below, above, rest, k) && (rest != [] ==> rest[0].sLno >= k.t) && k.t < TOP
    ensures HoldsBelow(k.all, Reverse(below), k.t, k.offset) && HoldsFrom(k.all, Reverse(above) + rest, k.t)
    ensures Queue(Reverse(below), k.pos + k.offset, k.t + k.offset, k.t + k.offset, k.suspect)
    ensures Queue(Reverse(above) + rest, k.t, TOP, k.end, Target)
  {
    Rises(rest, k.last, k.t, TOP, k.end, Target);
    CutWhole(k.all, k.taken, rest, below, above, k.pos, k.last, k.end, k.t, k.offset, k.suspect);
  }

  lemma EntriesTail(s: seq<Node>)
    requires s != []
    ensures Entries(s)[0] == s[0].entry && Entries(s)[1..] == Entries(s[1..])
  {
  }

  ghost predicate Among(a: seq<Node>, b: seq<Node>) { forall n :: n in a ==> n in b }

  method PassStep(e: Node, samep: Node?, diffp: Node?, ghost ps: seq<Node>, ghost ds: seq<Node>, ghost rs: seq<Node>,
                  tlno: int, offset: int, ghost k: Task, ghost other: seq<Node>)
    returns (next: Node?, diffp': Node?, ghost cut: seq<Node>)
    requires ThreeLists(samep, ps, diffp, ds, e, rs) && Cutting(Entries(ps), Entries(ds), Entries(rs), k)
    requires e.entry.sLno < tlno && k.t == tlno && k.offset == offset && k.suspect == Parent
    requires e !in other
    modifies e
    ensures rs != [] && e == rs[0] && ThreeLists(e, [e] + ps, diffp', cut + ds, next, rs[1..])
      && (forall n :: n in cut ==> fresh(n))
    ensures Cutting(Entries([e] + ps), Entries(cut + ds), Entries(rs[1..]), Taken(k, old(e.entry)))
    ensures Nexts(other) == old(Nexts(other)) && Entries(other) == old(Entries(other))
  {
    EntriesTail(rs);
    ghost var below, above, rest, entry := Entries(ps), Entries(ds), Entries(rs), e.entry;
    next, diffp', cut := PassOne(e, samep, diffp, tlno, offset, ps, ds, rs, other);
    CuttingNext(below, above, rest, k, entry, Entries([e] + ps), Entries(cut + ds));
  }

  method KeepStep(e: Node, diffp: Node?, samep: Node?, ghost ds: seq<Node>, ghost ps: seq<Node>, ghost rs: seq<Node>,
                  same: int, ghost k: Task, ghost other: seq<Node>)
    returns (next: Node?, samep': Node?, ghost cut: seq<Node>)
    requires ThreeLists(diffp, ds, samep, ps, e, rs) && Cutting(Entries(ds), Entries(ps), Entries(rs), k)
    requires e.entry.sLno < same && k.t == same && k.offset == 0 && k.suspect == Target
    requires e !in other
    modifies e
    ensures rs != [] && e == rs[0] && ThreeLists(e, [e] + ds, samep', cut + ps, next, rs[1..])
      && (forall n :: n in cut ==> fresh(n))
    ensures Cutting(Entries([e] + ds), Entries(cut + ps), Entries(rs[1..]), Taken(k, old(e.entry)))
    ensures Nexts(other) == old(Nexts(other)) && Entries(other) == old(Entries(other))
  {
    EntriesTail(rs);
    ghost var below, above, rest, entry := Entries(ds), Entries(ps), Entries(rs), e.entry;
    next, samep', cut := KeepOne(e, diffp, samep, same, ds, ps, rs, other);
    CuttingNext(below, above, rest, k, entry, Entries([e] + ds), Entries(cut + ps));
  }

  lemma AmongMoved(e: Node, bs: seq<Node>, rs: seq<Node>, es: seq<Node>)
    requires rs != [] && e == rs[0] && Among(bs, es) && Among(rs, es)
    ensures e in es && Among([e] + bs, es) && Among(rs[1..], es)
  {
    assert e in rs;
  }

  // the lists of a loop: the nodes below the cut, above it, and still to be looked at; the nodes made; how far the
  // loop is
  datatype Lists = Lists(bs: seq<Node>, abs: seq<Node>, rs: seq<Node>, made: set<Node>, k: Task)

  /** A loop over the nodes es, part way. */
  ghost predicate InLoop(below: Node?, above: Node?, rest: Node?, l: Lists, es: seq<Node>, k0: Task)
    reads l.bs, l.abs, l.rs
  {
    && ThreeLists(below, l.bs, above, l.abs, rest, l.rs) && Among(l.bs, es) && Among(l.rs, es)
    && (forall n :: n in l.abs ==> n in l.made)
    && Cutting(Entries(l.bs), Entries(l.abs), Entries(l.rs), l.k) && Of(l.k, k0)
  }

  ghost function Nodes(s: seq<Node>): set<Node> { set n | n in s }

  method PassRound(e: Node, samep: Node?, diffp: Node?, tlno: int, offset: int, ghost l: Lists, ghost es: seq<Node>,
                   ghost k0: Task, ghost other: seq<Node>)
    returns (next: Node?, diffp': Node?, ghost l': Lists)
    requires InLoop(samep, diffp, e, l, es, k0) && e.entry.sLno < tlno && k0.t == tlno && k0.offset == offset
      && k0.suspect == Parent
    requires Disjoint(other, es)
    modifies es
    ensures InLoop(e, diffp', next, l', es, k0) && |l'.rs| < |l.rs| && fresh(l'.made - l.made)
    ensures Nexts(other) == old(Nexts(other)) && Entries(other) == old(Entries(other))
  {
    HeadAmong(e, l.rs, es);
    AmongMoved(e, l.bs, l.rs, es);
    ghost var entry := e.entry;
    assert e !in other;
    ghost var cut;
    next, diffp', cut := PassStep(e, samep, diffp, l.bs, l.abs, l.rs, tlno, offset, l.k, other);
    l' := Lists([e] + l.bs, cut + l.abs, l.rs[1..], l.made + Nodes(cut), Taken(l.k, entry));
  }

  method KeepRound(e: Node, diffp: Node?, samep: Node?, same: int, ghost l: Lists, ghost es: seq<Node>,
                   ghost k0: Task, ghost other: seq<Node>)
    returns (next: Node?, samep': Node?, ghost l': Lists)
    requires InLoop(diffp, samep, e, l, es, k0) && e.entry.sLno < same && k0.t == same && k0.offset == 0
      && k0.suspect == Target
    requires Disjoint(other, es)
    modifies es
    ensures InLoop(e, samep', next, l', es, k0) && |l'.rs| < |l.rs| && fresh(l'.made - l.made)
    ensures Nexts(other) == old(Nexts(other)) && Entries(other) == old(Entries(other))
  {
    HeadAmong(e, l.rs, es);
    AmongMoved(e, l.bs, l.rs, es);
    ghost var entry := e.entry;
    assert e !in other;
    ghost var cut;
    next, samep', cut := KeepStep(e, diffp, samep, l.bs, l.abs, l.rs, same, l.k, other);
    l' := Lists([e] + l.bs, cut + l.abs, l.rs[1..], l.made + Nodes(cut), Taken(l.k, entry));
  }

  lemma HeadAmong(rest: Node, rs: seq<Node>, es: seq<Node>)
    requires IsList(rest, rs) && Among(rs, es)
    ensures rs != [] && rs[0] == rest && rest in es
  {
    assert rs[0] in rs;
  }

  lemma LoopStarts(first: Node?, es: seq<Node>, k0: Task)
    requires IsList(first, es) && Queue(Entries(es), k0.pos, TOP, k0.end, Target)
    requires k0 == Task(Entries(es), [], k0.pos, k0.pos, k0.end, k0.t, k0.offset, k0.suspect)
    ensures InLoop(null, null, first, Lists([], [], es, {}, k0), es, k0)
  {
    CuttingStarts(Entries(es), k0.pos, k0.end, k0.t, k0.offset, k0.suspect);
  }

  /** The first loop: nodes that start before tlno go to the parent, cut at tlno. */
  method PassBefore(first: Node?, tlno: int, offset: int, ghost es: seq<Node>, ghost k0: Task, ghost other: seq<Node>)
    returns (samep: Node?, diffp: Node?, e: Node?, ghost l: Lists)
    requires IsList(first, es) && Queue(Entries(es), k0.pos, TOP, k0.end, Target) && Disjoint(other, es)
    requires k0 == Task(Entries(es), [], k0.pos, k0.pos, k0.end, tlno, offset, Parent)
    modifies es
    ensures InLoop(samep, diffp, e, l, es, k0) && fresh(l.made) && (e != null ==> e.entry.sLno >= tlno)
    ensures Nexts(other) == old(Nexts(other)) && Entries(other) == old(Entries(other))
  {
    samep, diffp, e, l := null, null, first, Lists([], [], es, {}, k0);
    LoopStarts(first, es, k0);
    while e != null && e.entry.sLno < tlno
      invariant InLoop(samep, diffp, e, l, es, k0) && fresh(l.made)
      invariant Nexts(other) == old(Nexts(other)) && Entries(other) == old(Entries(other))
      decreases |l.rs|
    {
      var next;
      next, diffp, l := PassRound(e, samep, diffp, tlno, offset, l, es, k0, other);
      samep, e := e, next;
    }
  }

  /** The second loop: nodes that start before same stay with the target, cut at same. */
  method KeepWithin(first: Node?, same: int, ghost es: seq<Node>, ghost k0: Task, ghost other: seq<Node>)
    returns (diffp: Node?, samep: Node?, e: Node?, ghost l: Lists)
    requires IsList(first, es) && Queue(Entries(es), k0.pos, TOP, k0.end, Target) && Disjoint(other, es)
    requires k0 == Task(Entries(es), [], k0.pos, k0.pos, k0.end, same, 0, Target)
    modifies es
    ensures InLoop(diffp, samep, e, l, es, k0) && fresh(l.made) && (e != null ==> e.entry.sLno >= same)
    ensures Nexts(other) == old(Nexts(other)) && Entries(other) == old(Entries(other))
  {
    diffp, samep, e, l := null, null, first, Lists([], [], es, {}, k0);
    LoopStarts(first, es, k0);
    while e != null && e.entry.sLno < same
      invariant InLoop(diffp, samep, e, l, es, k0) && fresh(l.made)
      invariant Nexts(other) == old(Nexts(other)) && Entries(other) == old(Entries(other))
      decreases |l.rs|
    {
      var next;
      next, samep, l := KeepRound(e, diffp, samep, same, l, es, k0, other);
      diffp, e := e, next;
    }
  }
}
