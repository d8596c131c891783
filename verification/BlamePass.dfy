/**
 Passing blame from a target to its parent along the hunks of their diff (git/blame.c): as the hunks come in, the
 nodes before a hunk are hung behind the parent's list, those within it stay in the target's.
 */
module BlamePass {
  import opened BlameNodes
  import opened BlameSpec

  // ---- the lists between hunks ----

  /** Turns a list around in front of another; the nodes of two others stay. */
  method TurnAround(head: Node?, tail: Node?, ghost hs: seq<Node>, ghost ts: seq<Node>, ghost a: seq<Node>,
                    ghost b: seq<Node>)
    returns (r: Node?)
    requires IsList(head, hs) && IsList(tail, ts) && Disjoint(ts, hs) && Disjoint(a, hs) && Disjoint(b, hs)
    modifies hs`next
    ensures IsList(r, Turned(hs) + ts) && Entries(Turned(hs) + ts) == Reverse(old(Entries(hs))) + old(Entries(ts))
    ensures Nexts(a) == old(Nexts(a)) && Entries(a) == old(Entries(a)) && Nexts(b) == old(Nexts(b))
      && Entries(b) == old(Entries(b))
  {
    ghost var e1, e2, n3, n4 := Entries(hs), Entries(ts), Nexts(a), Nexts(b);
    r := ReverseBlame(head, tail, hs, ts);
    forall i | 0 <= i < |a|
      ensures Nexts(a)[i] == n3[i]
    {
      assert a[i] in a;
    }
    forall i | 0 <= i < |b|
      ensures Nexts(b)[i] == n4[i]
    {
      assert b[i] in b;
    }
    assert Entries(hs) == e1 by { assert forall i :: 0 <= i < |e1| ==> Entries(hs)[i] == e1[i]; }
    assert Entries(ts) == e2 by { assert forall i :: 0 <= i < |e2| ==> Entries(ts)[i] == e2[i]; }
    EntriesAround(hs, ts);
  }

  lemma EntriesAround(hs: seq<Node>, ts: seq<Node>)
    ensures Entries(Turned(hs) + ts) == Reverse(Entries(hs)) + Entries(ts)
  {
    EntriesConcat(Turned(hs), ts);
    EntriesTurned(hs);
  }

  /** The nodes lead on from one to the next; the last one anywhere. */
  ghost predicate Leads(a: seq<Node>, tail: Node?)
    reads a
  {
    Distinct(a) && Nexts(a) == Chain(a, tail)
  }

  /** Lets the slot behind a, or the head if there is nothing, hold the list b; other nodes stay. */
  method FillSlot(head: Node?, last: Node?, r: Node?, ghost a: seq<Node>, ghost b: seq<Node>, ghost tail: Node?,
                  ghost other: seq<Node>)
    returns (head': Node?)
    requires Leads(a, tail) && last == Last(a) && (a != [] ==> head == a[0]) && IsList(r, b) && Disjoint(a, b)
      && Disjoint(a, other)
    modifies a`next
    ensures IsList(head', a + b) && Entries(a + b) == old(Entries(a)) + old(Entries(b)) && (a != [] ==> head' == head)
    ensures Nexts(other) == old(Nexts(other)) && Entries(other) == old(Entries(other))
  {
    if last == null {
      head' := r;
    } else {
      head' := head;
      SetLast(last, r, a, b, tail, other);
    }
    ListParts(head', a, b);
    EntriesConcat(a, b);
  }

  method SetLast(last: Node, r: Node?, ghost a: seq<Node>, ghost b: seq<Node>, ghost tail: Node?,
                 ghost other: seq<Node>)
    requires a != [] && last == a[|a| - 1] && Leads(a, tail) && Disjoint(a, b) && Disjoint(a, other)
    modifies last`next
    ensures Leads(a, r) && Nexts(b) == old(Nexts(b)) && Entries(a) == old(Entries(a)) && Entries(b) == old(Entries(b))
    ensures Nexts(other) == old(Nexts(other)) && Entries(other) == old(Entries(other))
  {
    ghost var n, front := |a| - 1, a[..|a| - 1];
    assert last in a;
    forall i | 0 <= i < n
      ensures a[i] != last
    {
      assert Apart(a, i, n);
    }
    ghost var before := Nexts(a);
    SetNext(last, r, front, b, other);
    forall i | 0 <= i < |a|
      ensures Nexts(a)[i] == Chain(a, r)[i]
    {
      assert i < n ==> before[i] == Chain(a, tail)[i] && Nexts(front)[i] == before[i];
    }
    assert Nexts(a) == Chain(a, r);
  }

  ghost predicate Clear(other: seq<Node>, l: Lists)
  {
    Disjoint(other, l.bs) && Disjoint(other, l.abs) && Disjoint(other, l.rs)
  }

  lemma StaysClear(other: seq<Node>, l: Lists, es: seq<Node>)
    requires Disjoint(other, es) && Among(l.bs, es) && Among(l.rs, es) && (forall n :: n in l.abs ==> n in l.made)
      && (forall n :: n in other ==> n !in l.made)
    ensures Clear(other, l)
  {
  }

  lemma TurnedLast(samep: Node, d: seq<Node>, ps: seq<Node>)
    requires ps != [] && samep == ps[0]
    ensures Turned(ps) + [] == Turned(ps) && Last(d + Turned(ps)) == samep
  {
  }

  /** Appends nodes, turned around, to a list. */
  method AppendTurned(head: Node?, last: Node?, samep: Node, ghost d: seq<Node>, ghost ps: seq<Node>,
                      ghost other: seq<Node>)
    returns (head': Node?)
    requires IsList(head, d) && last == Last(d) && IsList(samep, ps) && Disjoint(d, ps) && Disjoint(other, ps)
      && Disjoint(d, other)
    modifies ps`next, d`next
    ensures IsList(head', d + Turned(ps)) && Last(d + Turned(ps)) == samep
      && Entries(d + Turned(ps)) == old(Entries(d)) + Reverse(old(Entries(ps)))
    ensures Nexts(other) == old(Nexts(other)) && Entries(other) == old(Entries(other))
  {
    TurnedLast(samep, d, ps);
    ghost var turned := Reverse(Entries(ps));
    var r := TurnAround(samep, null, ps, [], d, other);
    assert Entries(Turned(ps)) == turned by { assert turned + [] == turned; }
    head' := FillSlot(head, last, r, d, Turned(ps), null, other);
  }

  lemma Parts(a: seq<Node>, b: seq<Node>)
    ensures Nexts(a) == Nexts(a + b)[..|a|] && Nexts(b) == Nexts(a + b)[|a|..]
    ensures Entries(a) == Entries(a + b)[..|a|] && Entries(b) == Entries(a + b)[|a|..]
  {
  }

  /** Appends what the first loop has put aside to the parent's list, beside two other lists. */
  method AppendBeside(head: Node?, last: Node?, samep: Node?, ghost d: seq<Node>, ghost ps: seq<Node>,
                      ghost a: seq<Node>, ghost b: seq<Node>, ghost m: set<Node>)
    returns (head': Node?, last': Node?)
    requires IsList(head, d) && last == Last(d) && IsList(samep, ps) && Disjoint(d, ps) && Disjoint(a, ps)
      && Disjoint(d, a) && Disjoint(b, ps) && Disjoint(d, b)
    requires (forall n :: n in d ==> n in m) && (forall n :: n in ps ==> n in m)
    modifies m`next
    ensures IsList(head', d + Turned(ps)) && last' == Last(d + Turned(ps))
      && Entries(d + Turned(ps)) == old(Entries(d)) + Reverse(old(Entries(ps)))
    ensures Nexts(a) == old(Nexts(a)) && Entries(a) == old(Entries(a)) && Nexts(b) == old(Nexts(b))
      && Entries(b) == old(Entries(b))
  {
    if samep == null {
      assert d + Turned(ps) == d;
      return head, last;
    }
    Parts(a, b);
    head' := AppendTurned(head, last, samep, d, ps, a + b);
    Parts(a, b);
    last' := samep;
  }

  method TurnBeside(head: Node?, tail: Node?, ghost hs: seq<Node>, ghost ts: seq<Node>, ghost a: seq<Node>,
                    ghost b: seq<Node>, ghost m: set<Node>)
    returns (r: Node?)
    requires IsList(head, hs) && IsList(tail, ts) && Disjoint(ts, hs) && Disjoint(a, hs) && Disjoint(b, hs)
      && (forall n :: n in hs ==> n in m)
    modifies m`next
    ensures IsList(r, Turned(hs) + ts) && Entries(Turned(hs) + ts) == Reverse(old(Entries(hs))) + old(Entries(ts))
    ensures Nexts(a) == old(Nexts(a)) && Entries(a) == old(Entries(a)) && Nexts(b) == old(Nexts(b))
      && Entries(b) == old(Entries(b))
  {
    r := TurnAround(head, tail, hs, ts, a, b);
  }

  // two lists beside a loop: what was passed, and what was walked past
  ghost predicate Beside(d: seq<Node>, kept: seq<Node>, es: seq<Node>)
  {
    Disjoint(d, kept) && Disjoint(d, es) && Disjoint(kept, es)
  }

  lemma BesideParts(d: seq<Node>, kept: seq<Node>, es: seq<Node>, l: Lists)
    requires Beside(d, kept, es)
    ensures Disjoint(d + kept, es) && (Clear(d + kept, l) ==> Clear(d, l) && Clear(kept, l))
  {
    if Clear(d + kept, l) {
      forall n | n in d || n in kept
        ensures n in d + kept
      {
      }
    }
  }

  /** The first loop: the entries at the end, turned around as they will be. */
  method PassLoop(first: Node?, tlno: int, off: int, ghost es: seq<Node>, ghost k0: Task, ghost d: seq<Node>,
                  ghost kept: seq<Node>)
    returns (samep: Node?, diffp: Node?, e: Node?, ghost l: Lists)
    requires IsList(first, es) && Queue(Entries(es), k0.pos, TOP, k0.end, Target) && Beside(d, kept, es) && tlno < TOP
    requires k0 == Task(Entries(es), [], k0.pos, k0.pos, k0.end, tlno, off, Parent)
    modifies es
    ensures ThreeLists(samep, l.bs, diffp, l.abs, e, l.rs) && fresh(l.made) && Clear(d, l) && Clear(kept, l)
    ensures Among(l.bs, es) && Among(l.rs, es) && (forall n :: n in l.abs ==> n in l.made)
    ensures CutInTwo(k0, Reverse(Entries(l.bs)), Reverse(Entries(l.abs)) + Entries(l.rs))
    ensures Nexts(d) == old(Nexts(d)) && Entries(d) == old(Entries(d)) && Nexts(kept) == old(Nexts(kept))
      && Entries(kept) == old(Entries(kept))
  {
    Parts(d, kept);
    BesideParts(d, kept, es, Lists([], [], [], {}, k0));
    samep, diffp, e, l := PassBefore(first, tlno, off, es, k0, d + kept);
    Parts(d, kept);
    StaysClear(d + kept, l, es);
    BesideParts(d, kept, es, l);
    LoopDone(samep, diffp, e, l, es, k0);
  }

  /** The second loop likewise. */
  method KeepLoop(first: Node?, same: int, ghost es: seq<Node>, ghost k0: Task, ghost d: seq<Node>,
                  ghost kept: seq<Node>)
    returns (diffp: Node?, samep: Node?, e: Node?, ghost l: Lists)
    requires IsList(first, es) && Queue(Entries(es), k0.pos, TOP, k0.end, Target) && Beside(d, kept, es) && same < TOP
    requires k0 == Task(Entries(es), [], k0.pos, k0.pos, k0.end, same, 0, Target)
    modifies es
    ensures ThreeLists(diffp, l.bs, samep, l.abs, e, l.rs) && fresh(l.made) && Clear(d, l) && Clear(kept, l)
    ensures Among(l.bs, es) && Among(l.rs, es) && (forall n :: n in l.abs ==> n in l.made)
    ensures CutInTwo(k0, Reverse(Entries(l.bs)), Reverse(Entries(l.abs)) + Entries(l.rs))
    ensures Nexts(d) == old(Nexts(d)) && Entries(d) == old(Entries(d)) && Nexts(kept) == old(Nexts(kept))
      && Entries(kept) == old(Entries(kept))
  {
    Parts(d, kept);
    BesideParts(d, kept, es, Lists([], [], [], {}, k0));
    diffp, samep, e, l := KeepWithin(first, same, es, k0, d + kept);
    Parts(d, kept);
    StaysClear(d + kept, l, es);
    BesideParts(d, kept, es, l);
    LoopDone(diffp, samep, e, l, es, k0);
  }

  /** The lines of all entries, cut at t: below, moved and blamed, and from t on. */
  ghost predicate CutInTwo(k: Task, below: seq<Entry>, rest: seq<Entry>) {
    && HoldsBelow(k.all, below, k.t, k.offset)
    && Queue(below, k.pos + k.offset, k.t + k.offset, k.t + k.offset, k.suspect)
    && HoldsFrom(k.all, rest, k.t) && Queue(rest, k.t, TOP, k.end, Target)
  }

  lemma LoopDone(below: Node?, above: Node?, rest: Node?, l: Lists, es: seq<Node>, k0: Task)
    requires InLoop(below, above, rest, l, es, k0) && (rest != null ==> rest.entry.sLno >= k0.t) && k0.t < TOP
    ensures ThreeLists(below, l.bs, above, l.abs, rest, l.rs)
      && CutInTwo(k0, Reverse(Entries(l.bs)), Reverse(Entries(l.abs)) + Entries(l.rs))
  {
    CuttingDone(Entries(l.bs), Entries(l.abs), Entries(l.rs), l.k);
  }

  /** Where the nodes of the lists after a loop come from. */
  ghost predicate From(d: seq<Node>, mid: seq<Node>, d0: seq<Node>, es: seq<Node>, made: set<Node>) {
    (forall n :: n in d ==> n in d0 || n in es || n in made) && (forall n :: n in mid ==> n in es || n in made)
  }

  lemma PassedNodes(d: seq<Node>, kept: seq<Node>, es: seq<Node>, l: Lists)
    requires Disjoint(d, kept) && Clear(d, l) && Clear(kept, l) && Disjoint(l.bs, l.abs) && Disjoint(l.bs, l.rs)
    requires Among(l.bs, es) && Among(l.rs, es) && (forall n :: n in l.abs ==> n in l.made)
    ensures Beside(d + Turned(l.bs), kept, Turned(l.abs) + l.rs)
      && From(d + Turned(l.bs), Turned(l.abs) + l.rs, d, es, l.made)
    ensures Disjoint(l.abs + l.rs, l.bs) && Disjoint(d, l.abs + l.rs)
    ensures Disjoint(d + Turned(l.bs), l.abs)
  {
    InTurned(l.bs);
    InTurned(l.abs);
  }

  lemma InTurned(s: seq<Node>)
    ensures forall n :: n in Turned(s) <==> n in s
  {
    assert forall i :: 0 <= i < |s| ==> Turned(s)[|s| - 1 - i] == s[i];
  }

  lemma Within(d: seq<Node>, es: seq<Node>, l: Lists, m: set<Node>)
    requires (forall n :: n in d ==> n in m) && (forall n :: n in es ==> n in m)
    requires Among(l.bs, es) && Among(l.rs, es) && (forall n :: n in l.abs ==> n in l.made)
    ensures forall n :: n in d || n in l.bs || n in l.abs ==> n in m + l.made
  {
  }

  /** What comes before a hunk goes to the end of the parent's list; what is left is at hand. */
  method PassPart(first: Node?, tlno: int, off: int, head: Node?, last: Node?, ghost es: seq<Node>,
                  ghost d: seq<Node>, ghost kept: seq<Node>, ghost k0: Task, ghost m: set<Node>)
    returns (head': Node?, last': Node?, e: Node?, ghost d': seq<Node>, ghost mid: seq<Node>,
             ghost passed: seq<Entry>, ghost made: set<Node>)
    requires IsList(head, d) && last == Last(d) && IsList(first, es) && Beside(d, kept, es) && tlno < TOP
    requires (forall n :: n in d ==> n in m) && (forall n :: n in es ==> n in m)
    requires Queue(Entries(es), k0.pos, TOP, k0.end, Target)
      && k0 == Task(Entries(es), [], k0.pos, k0.pos, k0.end, tlno, off, Parent)
    modifies m
    ensures IsList(head', d') && last' == Last(d') && IsList(e, mid) && Beside(d', kept, mid)
      && From(d', mid, d, es, made) && fresh(made)
    ensures Entries(d') == old(Entries(d)) + passed && CutInTwo(k0, passed, Entries(mid))
    ensures Nexts(kept) == old(Nexts(kept)) && Entries(kept) == old(Entries(kept))
  {
    var samep, diffp;
    ghost var l;
    samep, diffp, e, l := PassLoop(first, tlno, off, es, k0, d, kept);
    PassedNodes(d, kept, es, l);
    Within(d, es, l, m);
    passed, made, d', mid := Reverse(Entries(l.bs)), l.made, d + Turned(l.bs), Turned(l.abs) + l.rs;
    Parts(l.abs, l.rs);
    head', last' := AppendBeside(head, last, samep, d, l.bs, kept, l.abs + l.rs, m + l.made);
    Parts(l.abs, l.rs);
    e := TurnBeside(diffp, e, l.abs, l.rs, d', kept, m + l.made);
  }

  lemma KeptNodes(d: seq<Node>, kept: seq<Node>, es: seq<Node>, l: Lists)
    requires Disjoint(d, kept) && Clear(d, l) && Clear(kept, l) && Disjoint(l.bs, l.abs) && Disjoint(l.bs, l.rs)
      && Disjoint(l.abs, l.rs)
    requires Among(l.bs, es) && Among(l.rs, es) && (forall n :: n in l.abs ==> n in l.made)
    ensures var rest := Turned(l.abs) + l.rs;
      && Disjoint(l.bs, l.abs) && Disjoint(d + kept, l.abs) && Disjoint(rest, l.bs)
      && Disjoint(kept, Turned(l.bs) + rest) && Disjoint(kept, d)
      && Beside(d, kept + Turned(l.bs), rest) && From(kept + Turned(l.bs), rest, kept, es, l.made)
  {
    InTurned(l.bs);
    InTurned(l.abs);
  }

  lemma LastKept(diffp: Node?, srcLast: Node?, kept: seq<Node>, bs: seq<Node>)
    requires diffp == First(bs) && srcLast == Last(kept)
    ensures Last(kept + Turned(bs)) == if diffp != null then diffp else srcLast
  {
  }

  lemma ThreeParts(a: seq<Node>, b: seq<Node>, c: seq<Node>, ae: seq<Entry>, be: seq<Entry>, ce: seq<Entry>)
    requires Entries(a + (b + c)) == ae + (be + ce) && |ae| == |a| && |be| == |b| && |ce| == |c|
    ensures a + (b + c) == (a + b) + c && Entries(a + b) == ae + be && Entries(c) == ce
  {
    assert a + (b + c) == (a + b) + c;
    assert ae + (be + ce) == (ae + be) + ce;
    Parts(a + b, c);
  }

  /** What lies within a hunk stays with the target, behind what was walked past; the rest is left for later hunks. */
  method KeepPart(first: Node?, same: int, head: Node?, last: Node?, ghost es: seq<Node>, ghost d: seq<Node>,
                  ghost kept: seq<Node>, ghost tail: Node?, ghost k0: Task, ghost m: set<Node>)
    returns (head': Node?, last': Node?, ghost kept': seq<Node>, ghost rest: seq<Node>, ghost stayed: seq<Entry>,
             ghost made: set<Node>)
    requires Leads(kept, tail) && last == Last(kept) && (kept != [] ==> head == kept[0]) && IsList(first, es)
      && Beside(d, kept, es) && same < TOP
    requires (forall n :: n in kept ==> n in m) && (forall n :: n in es ==> n in m)
    requires Queue(Entries(es), k0.pos, TOP, k0.end, Target)
      && k0 == Task(Entries(es), [], k0.pos, k0.pos, k0.end, same, 0, Target)
    modifies m
    ensures IsList(head', kept' + rest) && last' == Last(kept') && Beside(d, kept', rest)
      && From(kept', rest, kept, es, made) && fresh(made)
    ensures Entries(kept') == old(Entries(kept)) + stayed && CutInTwo(k0, stayed, Entries(rest))
    ensures Nexts(d) == old(Nexts(d)) && Entries(d) == old(Entries(d))
  {
    var diffp, samep, e;
    ghost var l;
    ghost var ke := Entries(kept);
    diffp, samep, e, l := KeepLoop(first, same, es, k0, d, kept);
    KeptNodes(d, kept, es, l);
    Within(kept, es, l, m);
    stayed, made, kept', rest := Reverse(Entries(l.bs)), l.made, kept + Turned(l.bs), Turned(l.abs) + l.rs;
    ghost var left := Reverse(Entries(l.abs)) + Entries(l.rs);
    Parts(d, kept);
    e := TurnBeside(samep, e, l.abs, l.rs, l.bs, d + kept, m + l.made);
    Parts(d, kept);
    e := TurnBeside(diffp, e, l.bs, rest, d, kept, m + l.made);
    assert Entries(kept) == ke && Entries(Turned(l.bs) + rest) == stayed + left;
    head' := FillBeside(head, last, e, kept, Turned(l.bs) + rest, tail, d, m + l.made);
    LastKept(diffp, last, kept, l.bs);
    last' := if diffp != null then diffp else last;
    ThreeParts(kept, Turned(l.bs), rest, ke, stayed, left);
  }

  method FillBeside(head: Node?, last: Node?, r: Node?, ghost a: seq<Node>, ghost b: seq<Node>, ghost tail: Node?,
                    ghost other: seq<Node>, ghost m: set<Node>)
    returns (head': Node?)
    requires Leads(a, tail) && last == Last(a) && (a != [] ==> head == a[0]) && IsList(r, b) && Disjoint(a, b)
      && Disjoint(a, other) && (forall n :: n in a ==> n in m)
    modifies m`next
    ensures IsList(head', a + b) && Entries(a + b) == old(Entries(a)) + old(Entries(b)) && (a != [] ==> head' == head)
    ensures Nexts(other) == old(Nexts(other)) && Entries(other) == old(Entries(other))
  {
    head' := FillSlot(head, last, r, a, b, tail, other);
  }

  lemma FromWithin(d': seq<Node>, mid: seq<Node>, d: seq<Node>, es: seq<Node>, made: set<Node>, m: set<Node>)
    requires From(d', mid, d, es, made) && (forall n :: n in d ==> n in m) && (forall n :: n in es ==> n in m)
    ensures (forall n :: n in d' ==> n in m + made) && (forall n :: n in mid ==> n in m + made)
  {
  }

  // the two lists: the parent's, and the target's with what was walked past and what is pending
  datatype Hold = Hold(dst: seq<Node>, kept: seq<Node>, pending: seq<Node>)

  ghost predicate HoldOk(dstHead: Node?, dstLast: Node?, srcHead: Node?, srcLast: Node?, h: Hold)
    reads h.dst, h.kept, h.pending
  {
    && Beside(h.dst, h.kept, h.pending) && IsList(dstHead, h.dst) && dstLast == Last(h.dst)
    && IsList(srcHead, h.kept + h.pending) && srcLast == Last(h.kept)
  }

  ghost predicate HoldIn(h: Hold, m: set<Node>) {
    (forall n :: n in h.dst ==> n in m) && (forall n :: n in h.kept ==> n in m)
      && (forall n :: n in h.pending ==> n in m)
  }

  /** Within a hunk: what is pending is at hand, and the last node walked past leads where it did. */
  ghost predicate HoldOpen(dstHead: Node?, dstLast: Node?, srcHead: Node?, srcLast: Node?, first: Node?, tail: Node?,
                           h: Hold)
    reads h.dst, h.kept, h.pending
  {
    && Beside(h.dst, h.kept, h.pending) && IsList(dstHead, h.dst) && dstLast == Last(h.dst) && IsList(first, h.pending)
    && Leads(h.kept, tail) && srcLast == Last(h.kept) && (h.kept != [] ==> srcHead == h.kept[0])
  }

  /** The first half of a hunk. */
  method HalfPass(tlno: int, off: int, dstHead: Node?, dstLast: Node?, srcHead: Node?, srcLast: Node?, ghost h: Hold,
                  ghost k0: Task, ghost m: set<Node>)
    returns (dstHead': Node?, dstLast': Node?, e: Node?, ghost h': Hold, ghost passed: seq<Entry>,
             ghost made: set<Node>)
    requires HoldOk(dstHead, dstLast, srcHead, srcLast, h) && HoldIn(h, m) && tlno < TOP
    requires Queue(Entries(h.pending), k0.pos, TOP, k0.end, Target)
      && k0 == Task(Entries(h.pending), [], k0.pos, k0.pos, k0.end, tlno, off, Parent)
    modifies m
    ensures HoldOpen(dstHead', dstLast', srcHead, srcLast, e, First(h.pending), h') && HoldIn(h', m + made)
      && fresh(made) && h'.kept == h.kept
    ensures Entries(h'.dst) == old(Entries(h.dst)) + passed && Entries(h.kept) == old(Entries(h.kept))
      && CutInTwo(k0, passed, Entries(h'.pending))
  {
    ListParts(srcHead, h.kept, h.pending);
    e := SlotBehind(srcHead, srcLast, h.kept, h.pending);
    ghost var d, mid;
    dstHead', dstLast', e, d, mid, passed,
      made := PassPart(e, tlno, off, dstHead, dstLast, h.pending, h.dst, h.kept, k0, m);
    FromWithin(d, mid, h.dst, h.pending, made, m);
    h' := Hold(d, h.kept, mid);
  }

  /** What the slot behind the nodes walked past holds. */
  method SlotBehind(srcHead: Node?, srcLast: Node?, ghost kept: seq<Node>, ghost pending: seq<Node>) returns (e: Node?)
    requires IsList(srcHead, kept + pending) && srcLast == Last(kept)
    ensures e == First(pending) && (kept != [] ==> srcHead == kept[0])
  {
    ListParts(srcHead, kept, pending);
    e := if srcLast == null then srcHead else srcLast.next;
    assert kept != [] ==> srcLast.next == Nexts(kept)[|kept| - 1];
  }

  /** The second half. */
  method HalfKeep(same: int, dstHead: Node?, dstLast: Node?, srcHead: Node?, srcLast: Node?, e: Node?,
                  ghost tail: Node?, ghost h: Hold, ghost k0: Task, ghost m: set<Node>)
    returns (srcHead': Node?, srcLast': Node?, ghost h': Hold, ghost stayed: seq<Entry>, ghost made: set<Node>)
    requires HoldOpen(dstHead, dstLast, srcHead, srcLast, e, tail, h) && HoldIn(h, m) && same < TOP
    requires Queue(Entries(h.pending), k0.pos, TOP, k0.end, Target)
      && k0 == Task(Entries(h.pending), [], k0.pos, k0.pos, k0.end, same, 0, Target)
    modifies m
    ensures HoldOk(dstHead, dstLast, srcHead', srcLast', h') && HoldIn(h', m + made) && fresh(made) && h'.dst == h.dst
    ensures Entries(h.dst) == old(Entries(h.dst)) && Entries(h'.kept) == old(Entries(h.kept)) + stayed
      && CutInTwo(k0, stayed, Entries(h'.pending))
  {
    ghost var kept, rest;
    srcHead', srcLast', kept, rest, stayed,
      made := KeepPart(e, same, srcHead, srcLast, h.pending, h.dst, h.kept, tail, k0, m);
    FromWithin(kept, rest, h.kept, h.pending, made, m);
    h' := Hold(h.dst, kept, rest);
  }

  // where the lists begin, and where they go on
  datatype Ends = Ends(dstHead: Node?, dstLast: Node?, srcHead: Node?, srcLast: Node?)

  /** One hunk: the entries of the three lists after it. */
  ghost predicate Chunked(all: seq<Entry>, passed: seq<Entry>, stayed: seq<Entry>, rest: seq<Entry>, tlno: int,
                          off: int, same: int, pos: int) {
    && HoldsBelow(all, passed, tlno, off) && Queue(passed, pos + off, tlno + off, tlno + off, Parent)
    && HoldsBetween(all, stayed, tlno, same) && Queue(stayed, tlno, same, same, Target)
    && HoldsFrom(all, rest, same) && Queue(rest, same, TOP, INT_MAX, Target)
  }

  lemma ChunkedIs(all: seq<Entry>, passed: seq<Entry>, middle: seq<Entry>, stayed: seq<Entry>, rest: seq<Entry>,
                  tlno: int, off: int, same: int, pos: int)
    requires CutInTwo(Task(all, [], pos, pos, INT_MAX, tlno, off, Parent), passed, middle) && tlno <= same
    requires CutInTwo(Task(middle, [], tlno, tlno, INT_MAX, same, 0, Target), stayed, rest)
    ensures Chunked(all, passed, stayed, rest, tlno, off, same, pos)
  {
    BetweenTwoCuts(all, middle, stayed, rest, tlno, same);
  }

  /** Lines before a hunk go to the parent, lines in it stay, the rest waits for later hunks. */
  method Chunk(x: Ends, tlno: int, off: int, same: int, ghost h: Hold, ghost pos: int, ghost m: set<Node>)
    returns (x': Ends, ghost h': Hold, ghost passed: seq<Entry>, ghost stayed: seq<Entry>, ghost made: set<Node>)
    requires HoldOk(x.dstHead, x.dstLast, x.srcHead, x.srcLast, h) && HoldIn(h, m)
      && Queue(Entries(h.pending), pos, TOP, INT_MAX, Target) && pos <= tlno <= same < TOP
    modifies m
    ensures HoldOk(x'.dstHead, x'.dstLast, x'.srcHead, x'.srcLast, h') && HoldIn(h', m + made) && fresh(made)
    ensures Entries(h'.dst) == old(Entries(h.dst)) + passed && Entries(h'.kept) == old(Entries(h.kept)) + stayed
    ensures Chunked(old(Entries(h.pending)), passed, stayed, Entries(h'.pending), tlno, off, same, pos)
  {
    ghost var all := Entries(h.pending);
    var d, dl, e;
    ghost var h1, made1;
    d, dl, e, h1, passed, made1 :=
      HalfPass(tlno, off, x.dstHead, x.dstLast, x.srcHead, x.srcLast, h,
               Task(all, [], pos, pos, INT_MAX, tlno, off, Parent), m);
    ghost var middle := Entries(h1.pending);
    var sh, sl;
    ghost var made2;
    sh, sl, h', stayed, made2 := HalfKeep(same, d, dl, x.srcHead, x.srcLast, e, First(h.pending), h1,
                                          Task(middle, [], tlno, tlno, INT_MAX, same, 0, Target), m + made1);
    ChunkedIs(all, passed, middle, stayed, Entries(h'.pending), tlno, off, same, pos);
    x', made := Ends(d, dl, sh, sl), made1 + made2;
    assert m + made == m + made1 + made2;
  }

  // ---- the pass ----

  class Pass {
    var dstHead: Node?       // the entries passed to the parent so far
    var dstLast: Node?       // the node behind which more of them go; none: the head
    var srcHead: Node?       // the target's entries
    var srcLast: Node?       // the last one walked past
    var offset: int          // parent line minus target line since the last hunk
    ghost var lists: Hold
    ghost var repr: set<Node>

    /** The parent's list, and the target's: nodes walked past and nodes still to be looked at. */
    ghost predicate Valid()
      reads this, repr
    {
      HoldIn(lists, repr) && HoldOk(dstHead, dstLast, srcHead, srcLast, lists)
    }

    // the entries passed, those walked past, and those pending
    ghost function Dst(): seq<Entry>
      requires Valid()
      reads this, repr
    {
      Entries(lists.dst)
    }

    ghost function Kept(): seq<Entry>
      requires Valid()
      reads this, repr
    {
      Entries(lists.kept)
    }

    ghost function Pending(): seq<Entry>
      requires Valid()
      reads this, repr
    {
      Entries(lists.pending)
    }

    constructor (suspects: Node?, ghost ns: seq<Node>)
      requires IsList(suspects, ns)
      ensures Valid() && Dst() == [] && Kept() == [] && Pending() == Entries(ns) && offset == 0 && repr == Nodes(ns)
    {
      dstHead, dstLast, srcHead, srcLast, offset := null, null, suspects, null, 0;
      lists, repr := Hold([], [], ns), Nodes(ns);
      assert [] + ns == ns;
    }

    /** One hunk: lines before it go to the parent, lines in it stay, the rest waits for later hunks. */
    method BlameChunk(tlno: int, off: int, same: int, ghost pos: int)
      returns (ghost passed: seq<Entry>, ghost stayed: seq<Entry>)
      requires Valid() && Queue(Pending(), pos, TOP, INT_MAX, Target) && pos <= tlno <= same < TOP
      modifies this, repr
      ensures Valid() && fresh(repr - old(repr)) && offset == old(offset)
      ensures Dst() == old(Dst()) + passed && Kept() == old(Kept()) + stayed
      ensures Chunked(old(Pending()), passed, stayed, Pending(), tlno, off, same, pos)
    {
      var x;
      ghost var h, made;
      x, h, passed, stayed, made := Chunk(Ends(dstHead, dstLast, srcHead, srcLast), tlno, off, same, lists, pos, repr);
      Store(x, h, repr + made);
    }

    method Store(x: Ends, ghost h: Hold, ghost r: set<Node>)
      requires HoldOk(x.dstHead, x.dstLast, x.srcHead, x.srcLast, h) && HoldIn(h, r)
      modifies this
      ensures Valid() && lists == h && repr == r && offset == old(offset)
      ensures Dst() == old(Entries(h.dst)) && Kept() == old(Entries(h.kept)) && Pending() == old(Entries(h.pending))
    {
      dstHead, dstLast, srcHead, srcLast := x.dstHead, x.dstLast, x.srcHead, x.srcLast;
      lists, repr := h, r;
    }

    /** The diff's callback; refuses a hunk that does not line up with the last one. */
    method BlameChunkCb(h: Hunk, ghost src: seq<Entry>, ghost hs: seq<Hunk>) returns (ok: bool)
      requires Valid() && Walked(src, hs, Dst(), Kept(), Pending(), offset) && LastB(hs) <= h.startB
        && h.EndB() <= INT_MAX
      modifies this, repr
      ensures Valid() && fresh(repr - old(repr))
      ensures ok <==> h.startA - h.startB == LastA(hs) - LastB(hs)
      ensures ok ==> Walked(src, hs + [h], Dst(), Kept(), Pending(), offset)
    {
      if h.startA - h.startB != offset {
        return false;
      }
      ghost var dst0, kept0, pending0 := Dst(), Kept(), Pending();
      var off := h.startA - h.startB;
      ghost var passed, stayed := BlameChunk(h.startB, off, h.EndB(), LastB(hs));
      WalkedNext(src, hs, h, dst0, kept0, pending0, passed, stayed, Pending(), off);
      SetOffset(h.EndA() - h.EndB());
      return true;
    }

    method SetOffset(off: int)
      requires Valid()
      modifies this`offset
      ensures Valid() && offset == off && Dst() == old(Dst()) && Kept() == old(Kept()) && Pending() == old(Pending())
    {
      offset := off;
    }

    /** The rest is the same as in the parent. */
    method BlameRest(ghost src: seq<Entry>, ghost hs: seq<Hunk>)
      returns (toParent: Node?, remaining: Node?, ghost ps: seq<Node>, ghost rs: seq<Node>)
      requires Valid() && Walked(src, hs, Dst(), Kept(), Pending(), offset) && EndsBy(src, INT_MAX)
        && LastB(hs) <= INT_MAX
      modifies this, repr
      ensures IsList(toParent, ps) && IsList(remaining, rs) && Disjoint(ps, rs)
      ensures HandedOver(src, hs, Entries(ps), Entries(rs))
    {
      ghost var dst0, kept0, pending0 := Dst(), Kept(), Pending();
      ghost var passed, stayed := BlameChunk(INT_MAX, offset, INT_MAX, LastB(hs));
      HandedIs(src, hs, dst0, kept0, pending0, passed, stayed, Pending(), offset);
      toParent, remaining, ps, rs := dstHead, srcHead, lists.dst, lists.kept + lists.pending;
      EntriesConcat(lists.kept, lists.pending);
    }
  }

  /** Once the hunks hs have been walked: where the lines are, in what order, and how far the parent is ahead. */
  ghost predicate Walked(src: seq<Entry>, hs: seq<Hunk>, dst: seq<Entry>, kept: seq<Entry>, pending: seq<Entry>,
                         offset: int) {
    && Placed(src, hs, dst, kept, pending) && InOrder(hs, dst, kept, pending) && 0 <= LastA(hs) && 0 <= LastB(hs)
    && offset == LastA(hs) - LastB(hs)
  }

  lemma WalkedNext(src: seq<Entry>, hs: seq<Hunk>, h: Hunk, dst: seq<Entry>, kept: seq<Entry>, pending: seq<Entry>,
                   passed: seq<Entry>, stayed: seq<Entry>, pending': seq<Entry>, off: int)
    requires Walked(src, hs, dst, kept, pending, off) && off == h.startA - h.startB && LastB(hs) <= h.startB
      && h.EndB() <= INT_MAX
    requires Chunked(pending, passed, stayed, pending', h.startB, off, h.EndB(), LastB(hs))
    ensures Walked(src, hs + [h], dst + passed, kept + stayed, pending', h.EndA() - h.EndB())
  {
    PassedStep(src, hs, h, dst, pending, passed, off);
    KeptStep(src, hs, h, kept, pending, stayed);
    FromTwice(src, pending, pending', LastB(hs), h.EndB());
    QueueConcat(dst, passed, 0, LastA(hs), LastA(hs), h.startA, LastA(hs), h.startA, Parent);
    QueueConcat(kept, stayed, 0, LastB(hs), h.startB, h.EndB(), LastB(hs), h.EndB(), Target);
  }

  /**
     What becomes of the entries src over the diff hs: the parent's list and what remains, both sorted, each with its
     suspect.
   */
  ghost predicate HandedOver(src: seq<Entry>, hs: seq<Hunk>, toParent: seq<Entry>, remaining: seq<Entry>) {
    PassedAlong(src, hs, toParent, remaining) && Sorted(toParent) && Blames(toParent, Parent) && Sorted(remaining)
      && Blames(remaining, Target)
  }

  lemma HandedIs(src: seq<Entry>, hs: seq<Hunk>, dst: seq<Entry>, kept: seq<Entry>, pending: seq<Entry>,
                 passed: seq<Entry>, stayed: seq<Entry>, pending': seq<Entry>, off: int)
    requires Walked(src, hs, dst, kept, pending, off) && EndsBy(src, INT_MAX) && LastB(hs) <= INT_MAX
    requires Chunked(pending, passed, stayed, pending', INT_MAX, off, INT_MAX, LastB(hs))
    ensures HandedOver(src, hs, dst + passed, kept + stayed + pending')
  {
    PlacedEnd(src, hs, dst, kept, pending, passed, stayed, pending', off);
    DoneInOrder(hs, dst, kept, pending, passed, stayed, pending', off);
  }

  lemma WalkStarts(src: seq<Entry>)
    requires Queue(src, 0, TOP, INT_MAX, Target)
    ensures Walked(src, [], [], [], src, 0)
  {
    StartPlaced(src);
  }

  lemma NothingHanded(hs: seq<Hunk>)
    ensures HandedOver([], hs, [], [])
  {
  }

  /**
   Passes blame for the target's entries to the parent.  Every line of every entry ends up in
   exactly one of the two lists: with the parent, under its number there, if no hunk changed
   it, and with the target otherwise.  A diff whose hunks do not line up is refused, unless
   there is nothing to pass.
   */
  method PassBlameToParent(suspects: Node?, hs: seq<Hunk>, ghost ns: seq<Node>)
    returns (ok: bool, toParent: Node?, remaining: Node?, ghost ps: seq<Node>, ghost rs: seq<Node>)
    requires IsList(suspects, ns) && Queue(Entries(ns), 0, TOP, INT_MAX, Target) && Ascending(hs)
    modifies ns
    ensures ok <==> ns == [] || Consistent(hs)
    ensures ok ==>
      IsList(toParent, ps) && IsList(remaining, rs) && Disjoint(ps, rs)
        && HandedOver(old(Entries(ns)), hs, Entries(ps), Entries(rs))
  {
    ok, toParent, remaining, ps, rs := true, null, suspects, [], ns;
    if suspects == null {
      NothingHanded(hs);
      return;
    }
    ghost var src := Entries(ns);
    var pass := new Pass(suspects, ns);
    WalkStarts(src);
    AllHunks(hs);
    ok := WalkHunks(pass, hs, 0, src);
    if ok {
      toParent, remaining, ps, rs := pass.BlameRest(src, hs);
    }
  }

  lemma HunksNext(hs: seq<Hunk>, i: nat)
    requires i < |hs|
    ensures hs[..i + 1] == hs[..i] + [hs[i]]
    ensures ConsistentUpTo(hs, i + 1) <==>
      ConsistentUpTo(hs, i) && hs[i].startA - hs[i].startB == LastA(hs[..i]) - LastB(hs[..i])
  {
  }

  lemma AllHunks(hs: seq<Hunk>)
    ensures hs[..|hs|] == hs && hs[..0] == [] && (ConsistentUpTo(hs, |hs|) <==> Consistent(hs))
    ensures Ascending(hs) ==> LastB(hs) <= INT_MAX && forall i ::
      0 <= i < |hs| ==> LastB(hs[..i]) <= hs[i].startB && hs[i].EndB() <= INT_MAX
  {
  }

  /** The callback for the hunks from i on, up to one that does not line up. */
  method WalkHunks(pass: Pass, hs: seq<Hunk>, i: nat, ghost src: seq<Entry>) returns (ok: bool)
    requires pass.Valid() && Ascending(hs) && i <= |hs|
      && Walked(src, hs[..i], pass.Dst(), pass.Kept(), pass.Pending(), pass.offset) && ConsistentUpTo(hs, i)
    modifies pass, pass.repr
    ensures ok <==> Consistent(hs)
    ensures ok ==> pass.Valid() && fresh(pass.repr - old(pass.repr))
    ensures ok ==> Walked(src, hs, pass.Dst(), pass.Kept(), pass.Pending(), pass.offset)
    decreases |hs| - i
  {
    AllHunks(hs);
    if i == |hs| {
      return true;
    }
    HunksNext(hs, i);
    ok := pass.BlameChunkCb(hs[i], src, hs[..i]);
    if ok {
      ok := WalkHunks(pass, hs, i + 1, src);
    }
  }
}
