/**
 The crit-bit tree in memory.  Each node is a leaf for its own key and at most one fork; a
 reference says which of the two is meant.
 */
module CritBitTree {
  import opened CritBitSpec

  // a tagged pointer
  datatype Ref = Null | Leaf(node: Node) | Inner(node: Node)

  class Node {
    const k: Key
    var child0: Ref
    var child1: Ref
    var byte: nat
    var otherbits: bv8

    constructor (k: Key)
      ensures this.k == k
    {
      this.k, child0, child1, byte, otherbits := k, Null, Null, 0, 0;
    }
  }

  method SetChild(n: Node, right: bool, r: Ref)
    modifies n`child0, n`child1
    ensures n.child0 == if right then old(n.child0) else r
    ensures n.child1 == if right then r else old(n.child1)
  {
    if right {
      n.child1 := r;
    } else {
      n.child0 := r;
    }
  }

  // ---- how a shape lies in memory ----

  datatype Link = Link(child0: Ref, child1: Ref, byte: nat, otherbits: bv8)

  ghost function Links(ns: set<Node>): (m: map<Node, Link>)
    reads ns
    ensures m.Keys == ns
  {
    map n | n in ns :: Link(n.child0, n.child1, n.byte, n.otherbits)
  }

  function RefOf(s: Shape<Node>): Ref {
    match s
    case Tip(n, _) => Leaf(n)
    case Fork(n, _, _, _) => Inner(n)
  }

  ghost function Forks(s: Shape<Node>): set<Node> {
    match s
    case Tip(_, _) => {}
    case Fork(n, _, l, r) => {n} + Forks(l) + Forks(r)
  }

  ghost function Tips(s: Shape<Node>): set<Node> {
    match s
    case Tip(n, _) => {n}
    case Fork(_, _, l, r) => Tips(l) + Tips(r)
  }

  /** No node is a fork twice. */
  ghost predicate Distinct(s: Shape<Node>) {
    s.Fork? ==>
      s.node !in Forks(s.left) + Forks(s.right) && Forks(s.left) !! Forks(s.right) && Distinct(s.left)
        && Distinct(s.right)
  }

  ghost predicate Linked(m: map<Node, Link>, s: Shape<Node>) {
    match s
    case Tip(n, k) => n.k == k
    case Fork(n, pos, l, r) =>
      n in m && m[n] == Link(RefOf(l), RefOf(r), pos / 8, OtherBits(pos % 8)) && Linked(m, l) && Linked(m, r)
  }

  lemma {:induction false} LinkedSame(m: map<Node, Link>, m': map<Node, Link>, s: Shape<Node>)
    requires Linked(m, s) && forall n :: n in Forks(s) ==> n in m && n in m' && m'[n] == m[n]
    ensures Linked(m', s)
  {
    match s
    case Tip(_, _) =>
    case Fork(_, _, l, r) =>
      LinkedSame(m, m', l);
      LinkedSame(m, m', r);
  }

  /** Every fork lives in a different node, one that is also a leaf. */
  ghost predicate Placed(s: Shape<Node>) { Distinct(s) && Forks(s) <= Tips(s) }

  // ---- places in a shape ----

  ghost predicate ValidPath(s: Shape<Node>, path: seq<bool>) {
    path != [] ==> s.Fork? && ValidPath(if path[0] then s.right else s.left, path[1..])
  }

  ghost function At(s: Shape<Node>, path: seq<bool>): Shape<Node>
    requires ValidPath(s, path)
  {
    if path == [] then s else At(if path[0] then s.right else s.left, path[1..])
  }

  /** s with t in place of what is there. */
  ghost function Put(s: Shape<Node>, path: seq<bool>, t: Shape<Node>): Shape<Node>
    requires ValidPath(s, path)
  {
    if path == [] then t
    else if path[0] then Fork(s.node, s.pos, s.left, Put(s.right, path[1..], t))
    else Fork(s.node, s.pos, Put(s.left, path[1..], t), s.right)
  }

  lemma {:induction false} Descend(s: Shape<Node>, path: seq<bool>, right: bool)
    requires ValidPath(s, path) && At(s, path).Fork?
    ensures ValidPath(s, path + [right])
    ensures At(s, path + [right]) == if right then At(s, path).right else At(s, path).left
    ensures forall t :: Put(s, path + [right], t) == Put(s, path,
      if right then Fork(At(s, path).node, At(s, path).pos, At(s, path).left, t)
      else Fork(At(s, path).node, At(s, path).pos, t, At(s, path).right))
  {
    if path == [] {
      assert [right][1..] == [];
    } else {
      assert (path + [right])[1..] == path[1..] + [right];
      Descend(if path[0] then s.right else s.left, path[1..], right);
    }
  }

  lemma {:induction false} AtLinked(m: map<Node, Link>, s: Shape<Node>, path: seq<bool>)
    requires Linked(m, s) && ValidPath(s, path)
    ensures Linked(m, At(s, path)) && Forks(At(s, path)) <= Forks(s) && Tips(At(s, path)) <= Tips(s)
  {
    if path != [] {
      AtLinked(m, if path[0] then s.right else s.left, path[1..]);
    }
  }

  lemma {:induction false} PutForks(s: Shape<Node>, path: seq<bool>, t: Shape<Node>)
    requires ValidPath(s, path)
    ensures Forks(Put(s, path, t)) <= Forks(s) + Forks(t)
    ensures Distinct(s) && Distinct(t) && Forks(t) * Forks(s) <= Forks(At(s, path)) ==> Distinct(Put(s, path, t))
  {
    if path != [] {
      var side := if path[0] then s.right else s.left;
      PutForks(side, path[1..], t);
      AtForks(side, path[1..]);
    }
  }

  lemma {:induction false} AtForks(s: Shape<Node>, path: seq<bool>)
    requires ValidPath(s, path)
    ensures Forks(At(s, path)) <= Forks(s)
  {
    if path != [] {
      AtForks(if path[0] then s.right else s.left, path[1..]);
    }
  }

  /** Setting one child slot of the parent, and nothing else in s, moves t into place. */
  lemma {:induction false} Relink(m: map<Node, Link>, m': map<Node, Link>, s: Shape<Node>, path: seq<bool>,
                                  right: bool, t: Shape<Node>)
    requires Linked(m, s) && Distinct(s) && ValidPath(s, path) && At(s, path).Fork? && ValidPath(s, path + [right])
    requires Forks(s) <= m.Keys && Forks(s) <= m'.Keys && Linked(m', t)
    requires forall n :: n in Forks(s) && n != At(s, path).node ==> m'[n] == m[n]
    requires var q := At(s, path).node;
      q in m && q in m' && m'[q] == if right then m[q].(child1 := RefOf(t)) else m[q].(child0 := RefOf(t))
    ensures Linked(m', Put(s, path + [right], t))
  {
    if path == [] {
      assert [right][1..] == [];
      LinkedSame(m, m', if right then s.left else s.right);
    } else {
      assert (path + [right])[1..] == path[1..] + [right];
      var side, other := if path[0] then s.right else s.left, if path[0] then s.left else s.right;
      AtForks(side, path[1..]);
      assert At(s, path).node in Forks(side);
      LinkedSame(m, m', other);
      Relink(m, m', side, path[1..], right, t);
      PutRef(side, path[1..], right, t);
    }
  }

  lemma PutRef(s: Shape<Node>, path: seq<bool>, right: bool, t: Shape<Node>)
    requires ValidPath(s, path + [right])
    ensures RefOf(Put(s, path + [right], t)) == RefOf(s)
  {
  }

  lemma {:induction false} InsertNodes(s: Shape<Node>, n: Node, k: Key, d: nat)
    ensures Forks(Insert(s, n, k, d)) == Forks(s) + {n}
    ensures Tips(Insert(s, n, k, d)) == Tips(s) + {n}
    ensures Distinct(s) && n !in Forks(s) ==> Distinct(Insert(s, n, k, d))
  {
    if s.Fork? && s.pos <= d {
      InsertNodes(if Bit(k, s.pos) then s.right else s.left, n, k, d);
    }
  }

  function ByteAt(k: Key, i: nat): bv8 { if i < |k| then k[i] else 0 }

  lemma ForkDirection(k: Key, pos: nat)
    ensures Direction(OtherBits(pos % 8), ByteAt(k, pos / 8)) == if Bit(k, pos) then 1 else 0
  {
    DirectionIsBit(pos % 8, ByteAt(k, pos / 8));
    assert !BitOf(0, pos % 8);
  }

  /** A node in the tree is found under its own key. */
  lemma {:induction false} TipHeld(m: map<Node, Link>, s: Shape<Node>, len: nat, n: Node)
    requires WellFormed(s, len) && Linked(m, s) && n in Tips(s)
    ensures n.k in Keys(s) && n.k in Contents(s) && Contents(s)[n.k] == n
  {
    match s
    case Tip(_, _) =>
    case Fork(_, _, l, r) =>
      if n in Tips(r) {
        TipHeld(m, r, len, n);
      } else {
        TipHeld(m, l, len, n);
        ContentsKeys(r, n.k);
      }
  }

  /** A key is in the tree exactly if it is sent to itself. */
  lemma BestDecides(s: Shape<Node>, len: nat, k: Key)
    requires WellFormed(s, len)
    ensures |Best(s, k).key| == len && (k in Contents(s) <==> Best(s, k).key == k)
    ensures k in Contents(s) ==> Contents(s)[k] == Best(s, k).node
  {
    KeyLengths(s, len);
    BestContents(s, len, k);
    ContentsKeys(s, k);
    if k in Contents(s) {
      BestFinds(s, len, k);
    }
  }

  method FirstDifferent(a: Key, b: Key) returns (i: nat)
    requires |a| == |b|
    ensures i <= |a| && a[..i] == b[..i] && (i == |a| <==> a == b) && (i < |a| ==> a[i] != b[i])
  {
    i := 0;
    while i < |a| && a[i] == b[i]
      invariant i <= |a| && a[..i] == b[..i]
    {
      i := i + 1;
    }
    assert i == |a| ==> a == a[..i] && b == b[..i];
  }

  /** The bit where two keys part, as a fork holds it, and the side p is on. */
  method ForkBits(p: Key, k: Key, newbyte: nat) returns (newotherbits: bv8, right: bool, ghost d: nat)
    requires newbyte < |p| == |k| && p[..newbyte] == k[..newbyte] && p[newbyte] != k[newbyte]
    ensures d / 8 == newbyte && newotherbits == OtherBits(d % 8) && d < 8 * |k| && AgreeBelow(p, k, d)
    ensures Bit(p, d) != Bit(k, d) && right == !Bit(k, d)
  {
    newotherbits := NewOtherBits(p[newbyte] ^ k[newbyte]);
    d := NewForkBit(p, k, newbyte);
    ForkDirection(p, d);
    right := Direction(newotherbits, p[newbyte]) == 1;
  }

  datatype Option<+T> = None | Some(value: T)

  /** root leads to a proper crit-bit tree of shape s, with m what its forks hold. */
  ghost predicate InMemory(root: Ref, s: Shape<Node>, m: map<Node, Link>, len: nat) {
    root == RefOf(s) && WellFormed(s, len) && Placed(s) && m.Keys == Forks(s) && Linked(m, s)
  }

  class Tree {
    var root: Ref
    ghost var shape: Option<Shape<Node>>
    ghost var forks: set<Node>

    ghost predicate Valid(len: nat)
      reads this, forks
    {
      match shape
      case None => root == Null && forks == {}
      case Some(s) => InMemory(root, s, Links(forks), len)
    }

    /** The nodes whose keys are held. */
    ghost function Nodes(): set<Node>
      reads this
    {
      if shape.None? then {} else Tips(shape.value)
    }

    /** The keys held, each with its node. */
    ghost function Map(): map<Key, Node>
      reads this
    {
      if shape.None? then map[] else Contents(shape.value)
    }

    /** The keys held, left to right. */
    ghost function InOrder(): seq<Key>
      reads this
    {
      if shape.None? then [] else Keys(shape.value)
    }

    constructor ()
      ensures forall len :: Valid(len)
      ensures Map() == map[] && InOrder() == [] && Nodes() == {}
    {
      root, shape, forks := Null, None, {};
    }

    method BestMatch(k: Key, ghost len: nat) returns (p: Node)
      requires Valid(len) && root != Null
      ensures p == Best(shape.value, k).node && p.k == Best(shape.value, k).key
    {
      var cur := root;
      ghost var cs, m := shape.value, Links(forks);
      while cur.Inner?
        invariant cur == RefOf(cs) && Linked(m, cs) && Best(cs, k) == Best(shape.value, k)
        decreases cs
      {
        var q := cur.node;
        var c := ByteAt(k, q.byte);
        ForkDirection(k, cs.pos);
        if Direction(q.otherbits, c) == 1 {
          cur, cs := q.child1, cs.right;
        } else {
          cur, cs := q.child0, cs.left;
        }
      }
      p := cur.node;
    }

    /** The node of the first key that begins with k (for a key of full length: that carries k). */
    method Lookup(k: Key, ghost len: nat) returns (found: Ref)
      requires Valid(len) && |k| <= len
      ensures found == Null <==> Select(InOrder(), k) == []
      ensures found != Null ==> Select(InOrder(), k)[0] in Map() && found == Leaf(Map()[Select(InOrder(), k)[0]])
      ensures |k| == len ==> found == if k in Map() then Leaf(Map()[k]) else Null
    {
      if root == Null {
        return Null;
      }
      var p := BestMatch(k, len);
      BestIsFirstSelected(shape.value, len, k);
      BestContents(shape.value, len, k);
      KeyLengths(shape.value, len);
      ContentsKeys(shape.value, k);
      if k in Map() {
        BestFinds(shape.value, len, k);
      }
      if p.k[..|k|] == k {
        assert |k| == len ==> p.k == k;
        return Leaf(p);
      }
      return Null;
    }

    /** The slot to put a fork at bit d into: the root (slot Null) or a child of a fork. */
    method FindPlace(k: Key, newbyte: nat, newotherbits: bv8, ghost n: Node, ghost d: nat, ghost len: nat)
      returns (slot: Ref, right: bool, p: Ref, ghost path: seq<bool>)
      requires Valid(len) && root != Null && newbyte == d / 8 && newotherbits == OtherBits(d % 8)
      ensures OnTheWay(shape.value, path, n, k, d) && p == RefOf(At(shape.value, path))
      ensures At(shape.value, path).Fork? ==> At(shape.value, path).pos > d
      ensures SlotOf(shape.value, path, slot, right)
    {
      ghost var s, m := shape.value, Links(forks);
      slot, right, p, path := Null, false, root, [];
      while true
        invariant OnTheWay(s, path, n, k, d) && p == RefOf(At(s, path))
        invariant SlotOf(s, path, slot, right)
        decreases At(s, path)
      {
        if !p.Inner? {
          break;
        }
        var q := p.node;
        ghost var cs := At(s, path);
        AtLinked(m, s, path);
        ForkLater(cs.pos, d);
        if q.byte > newbyte || (q.byte == newbyte && q.otherbits > newotherbits) {
          break;
        }
        var c := ByteAt(k, q.byte);
        ForkDirection(k, cs.pos);
        right := Direction(q.otherbits, c) == 1;
        StepDown(s, path, n, k, d, right);
        slot, path := p, path + [right];
        p := if right then q.child1 else q.child0;
      }
    }

    /** Adds node under its key, unless the key is already there: then nothing changes. */
    method Insert(node: Node, ghost len: nat) returns (existing: Ref)
      requires Valid(len) && |node.k| == len
      modifies this, node, forks
      ensures Valid(len) && (old(node in Nodes()) ==> old(node.k in Map()) && existing == Leaf(node))
      ensures old(node.k in Map()) ==>
        existing == Leaf(old(Map()[node.k])) && unchanged(this) && unchanged(node) && unchanged(old(forks))
      ensures old(node.k !in Map()) ==>
        existing == Null && Map() == old(Map())[node.k := node] && Nodes() == old(Nodes()) + {node}
    {
      if root == Null {
        root, shape := Leaf(node), Some(Tip(node, node.k));
        return Null;
      }
      ghost var s := shape.value;
      var p := BestMatch(node.k, len);
      BestDecides(s, len, node.k);
      assert node in Nodes() ==> node.k in Map() && Map()[node.k] == node by {
        if node in Nodes() {
          TipHeld(Links(forks), s, len, node);
        }
      }
      var newbyte := FirstDifferent(p.k, node.k);
      if newbyte == |node.k| {
        return Leaf(p);
      }
      AddFork(node, p, newbyte, len);
      existing := Null;
    }

    /** Adds node next to those that part from its key where p's key does. */
    method AddFork(node: Node, p: Node, newbyte: nat, ghost len: nat)
      requires Valid(len) && root != Null && node !in Nodes() && |node.k| == len
      requires p.k == Best(shape.value, node.k).key && |p.k| == len && newbyte < len
      requires p.k[..newbyte] == node.k[..newbyte] && p.k[newbyte] != node.k[newbyte]
      modifies this, node, forks
      ensures Valid(len) && Map() == old(Map())[node.k := node] && Nodes() == old(Nodes()) + {node}
    {
      var newotherbits, right;
      ghost var d;
      newotherbits, right, d := ForkBits(p.k, node.k, newbyte);
      InsertIsGood(shape.value, len, node, d);
      LinkFork(node, newbyte, newotherbits, right, d, len);
    }

    /** Sets a child of a node that is no fork yet. */
    method SetOwn(node: Node, right: bool, r: Ref, ghost m: map<Node, Link>)
      requires node !in forks && Links(forks) == m
      modifies node
      ensures node.byte == old(node.byte) && node.otherbits == old(node.otherbits) && Links(forks) == m
      ensures if right then node.child1 == r && node.child0 == old(node.child0)
        else node.child0 == r && node.child1 == old(node.child1)
    {
      SetChild(node, right, r);
    }

    /** Makes node the fork for its key: its own fields first, then the slot found for it. */
    method LinkFork(node: Node, newbyte: nat, newotherbits: bv8, right: bool, ghost d: nat, ghost len: nat)
      requires Valid(len) && root != Null && node !in Nodes()
      requires newbyte == d / 8 && newotherbits == OtherBits(d % 8) && right == !Bit(node.k, d)
      requires WellFormed(CritBitSpec.Insert(shape.value, node, node.k, d), len)
      modifies this, node, forks
      ensures Valid(len) && shape == Some(CritBitSpec.Insert(old(shape).value, node, node.k, d))
    {
      ghost var s, m := shape.value, Links(forks);
      node.byte, node.otherbits := newbyte, newotherbits;
      assert Links(forks) == m;
      SetOwn(node, !right, Leaf(node), m);
      var slot, slotRight, p;
      ghost var path;
      slot, slotRight, p, path := FindPlace(node.k, newbyte, newotherbits, node, d, len);
      SlotIsFork(s, path, slot, slotRight);
      assert ReadyToHang(s, m, path, slot, slotRight, node, d, len);
      SetOwn(node, right, p, m);
      NewLinkIs(s, path, node, d, right, p, node.child0, node.child1);
      HangIn(slot, slotRight, node, m, path, d, len);
    }

    /** node's fields are set; the slot, and the tree's shape, follow. */
    method HangIn(slot: Ref, slotRight: bool, node: Node, ghost m: map<Node, Link>, ghost path: seq<bool>,
                  ghost d: nat, ghost len: nat)
      requires shape.Some? && root == RefOf(shape.value) && forks == Forks(shape.value) && Links(forks) == m
      requires ReadyToHang(shape.value, m, path, slot, slotRight, node, d, len)
      requires Link(node.child0, node.child1, node.byte, node.otherbits) == NewLink(shape.value, path, node, d)
      modifies this, forks
      ensures Valid(len) && shape == Some(CritBitSpec.Insert(old(shape).value, node, node.k, d))
    {
      ghost var s := shape.value;
      forks, shape := forks + {node}, Some(CritBitSpec.Insert(s, node, node.k, d));
      assert Links(forks) == m[node := NewLink(s, path, node, d)];
      SetSlot(slot, slotRight, node, m[node := NewLink(s, path, node, d)]);
      InsertInMemory(root, m, Links(forks), s, path, slot, slotRight, node, d, len);
    }

    /** *wherep = node, as a fork. */
    method SetSlot(slot: Ref, right: bool, node: Node, ghost m: map<Node, Link>)
      requires Links(forks) == m
      requires slot == Null || (slot.Inner? && slot.node in m && slot.node != node)
      modifies this`root, if slot == Null then {} else {slot.node}
      ensures root == if slot == Null then Inner(node) else old(root)
      ensures Links(forks) == SlotSet(m, slot, right, node)
    {
      if slot == Null {
        root := Inner(node);
      } else {
        SetChild(slot.node, right, Inner(node));
      }
    }

    /**
     Calls back for the keys that begin with kpfx, in ascending order, until a call breaks;
     breaks(i) is what call number i answers.
     */
    method Each(kpfx: Key, breaks: nat -> bool, ghost len: nat) returns (visited: seq<Node>, ghost stopped: bool)
      requires Valid(len) && |kpfx| <= len
      ensures Walked(Select(InOrder(), kpfx), KeysOf(visited), 0, stopped, breaks)
      ensures Ascending(KeysOf(visited))
    {
      visited, stopped := [], false;
      if root == Null {
        return;
      }
      ghost var s, m := shape.value, Links(forks);
      var p, top := FindTop(kpfx, len);
      EachSelects(s, len, kpfx);
      if p.k[..|kpfx|] != kpfx {
        return;
      }
      var broke;
      visited, broke := CbDescend(top, 0, breaks, Top(s, kpfx), m);
      stopped := broke;
      PrefixAscends(KeysOf(visited), Select(Keys(s), kpfx));
    }

    /** Walks to the best match for the prefix, remembering the last place where the prefix decided. */
    method FindTop(kpfx: Key, ghost len: nat) returns (best: Node, top: Ref)
      requires Valid(len) && root != Null
      ensures best == Best(shape.value, kpfx).node && best.k == Best(shape.value, kpfx).key
      ensures top == RefOf(Top(shape.value, kpfx)) && Linked(Links(forks), Top(shape.value, kpfx))
    {
      var p := root;
      top := root;
      ghost var s, m := shape.value, Links(forks);
      ghost var cs, ts := s, s;
      while p.Inner?
        invariant p == RefOf(cs) && Linked(m, cs) && Best(cs, kpfx) == Best(s, kpfx) && WellFormed(cs, len)
        invariant top == RefOf(ts) && Linked(m, ts) && Top(ts, kpfx) == Top(s, kpfx)
        invariant ts == cs || (ts.Fork? && ts.pos / 8 >= |kpfx| && (cs.Fork? ==> cs.pos / 8 >= |kpfx|))
        decreases cs
      {
        var q := p.node;
        var c := ByteAt(kpfx, q.byte);
        ForkDirection(kpfx, cs.pos);
        var right := Direction(q.otherbits, c) == 1;
        p, cs := if right then q.child1 else q.child0, if right then cs.right else cs.left;
        if q.byte < |kpfx| {
          top, ts := p, cs;
        }
      }
      best := p.node;
    }

    /** In-order descent; n0 calls have been made before. */
    method CbDescend(p: Ref, n0: nat, breaks: nat -> bool, ghost s: Shape<Node>, ghost m: map<Node, Link>)
      returns (visited: seq<Node>, stopped: bool)
      requires p == RefOf(s) && Linked(m, s) && m == Links(forks)
      ensures Walked(Keys(s), KeysOf(visited), n0, stopped, breaks)
      decreases s
    {
      if p.Inner? {
        var q := p.node;
        visited, stopped := CbDescend(q.child0, n0, breaks, s.left, m);
        if !stopped {
          var more;
          more, stopped := CbDescend(q.child1, n0 + |visited|, breaks, s.right, m);
          WalkedOn(Keys(s.left), Keys(s.right), KeysOf(visited), KeysOf(more), n0, stopped, breaks);
          KeysOfConcat(visited, more);
          visited := visited + more;
        }
      } else {
        visited := [p.node];
        stopped := breaks(n0);
      }
    }
  }

  ghost function SlotSet(m: map<Node, Link>, slot: Ref, right: bool, node: Node): map<Node, Link>
    requires slot != Null ==> slot.node in m
  {
    if slot == Null then m
    else m[slot.node := if right then m[slot.node].(child1 := Inner(node)) else m[slot.node].(child0 := Inner(node))]
  }

  /** path is where the new fork belongs, slot the place that refers to it. */
  ghost predicate ReadyToHang(s: Shape<Node>, m: map<Node, Link>, path: seq<bool>, slot: Ref, right: bool, n: Node,
                              d: nat, len: nat) {
    && Linked(m, s) && Placed(s) && m.Keys == Forks(s) && n !in Tips(s)
    && OnTheWay(s, path, n, n.k, d) && SlotOf(s, path, slot, right) && (At(s, path).Fork? ==> At(s, path).pos > d)
    && (slot == Null || (slot.Inner? && slot.node in Forks(s)))
    && WellFormed(Insert(s, n, n.k, d), len)
  }

  /** What the new fork's node holds: itself as a leaf on its key's side, the old subtree on the other. */
  ghost function NewLink(s: Shape<Node>, path: seq<bool>, n: Node, d: nat): Link
    requires ValidPath(s, path)
  {
    var p := RefOf(At(s, path));
    Link(if Bit(n.k, d) then p else Leaf(n), if Bit(n.k, d) then Leaf(n) else p, d / 8, OtherBits(d % 8))
  }

  lemma NewLinkIs(s: Shape<Node>, path: seq<bool>, n: Node, d: nat, right: bool, p: Ref, child0: Ref, child1: Ref)
    requires ValidPath(s, path) && p == RefOf(At(s, path)) && right == !Bit(n.k, d)
    requires if right then child0 == Leaf(n) && child1 == p else child0 == p && child1 == Leaf(n)
    ensures Link(child0, child1, d / 8, OtherBits(d % 8)) == NewLink(s, path, n, d)
  {
  }

  lemma InsertInMemory(root: Ref, m: map<Node, Link>, m': map<Node, Link>, s: Shape<Node>, path: seq<bool>, slot: Ref,
                       right: bool, n: Node, d: nat, len: nat)
    requires ReadyToHang(s, m, path, slot, right, n, d, len)
    requires m' == SlotSet(m[n := NewLink(s, path, n, d)], slot, right, n)
    requires root == if slot == Null then Inner(n) else RefOf(s)
    ensures InMemory(root, Insert(s, n, n.k, d), m', len)
  {
    InsertNodes(s, n, n.k, d);
    InsertLinked(m, m', s, path, slot, right, n, n.k, d);
  }

  lemma SlotIsFork(s: Shape<Node>, path: seq<bool>, slot: Ref, right: bool)
    requires ValidPath(s, path) && SlotOf(s, path, slot, right)
    ensures slot == Null || (slot.Inner? && slot.node in Forks(s))
  {
    if path != [] {
      AtForks(s, path[..|path| - 1]);
    }
  }

  /** The bit the code computes from the first differing byte is where the key parts from its best match. */
  lemma NewForkBit(p: Key, k: Key, newbyte: nat) returns (d: nat)
    requires newbyte < |p| == |k| && p[..newbyte] == k[..newbyte] && p[newbyte] != k[newbyte]
    ensures d / 8 == newbyte && d < 8 * |k| && AgreeBelow(p, k, d) && Bit(p, d) != Bit(k, d)
    ensures NewOtherBits(p[newbyte] ^ k[newbyte]) == OtherBits(d % 8)
  {
    var h := FirstDifference(p[newbyte], k[newbyte]);
    d := ByteAndBit(newbyte, h);
    PartAt(p, k, newbyte, h);
  }

  lemma ByteAndBit(byte: nat, bit: nat) returns (d: nat)
    requires bit < 8
    ensures d == 8 * byte + bit && d / 8 == byte && d % 8 == bit
  {
    d := 8 * byte + bit;
  }

  lemma InsertIsGood(s: Shape<Node>, len: nat, n: Node, d: nat)
    requires WellFormed(s, len) && |n.k| == len && d < 8 * len && PartsAt(s, n.k, d)
    ensures n.k !in Contents(s) && Contents(Insert(s, n, n.k, d)) == Contents(s)[n.k := n]
    ensures WellFormed(Insert(s, n, n.k, d), len) && Tips(Insert(s, n, n.k, d)) == Tips(s) + {n}
  {
    InsertContents(s, len, n, n.k, d);
    InsertWellFormed(s, len, n, n.k, d);
    InsertNodes(s, n, n.k, d);
  }

  lemma ForkLater(pos: nat, d: nat)
    ensures pos / 8 > d / 8 || (pos / 8 == d / 8 && OtherBits(pos % 8) > OtherBits(d % 8)) <==> pos > d
  {
    OtherBitsOrder(pos % 8, d % 8);
  }

  /** The way k takes through s leads along path, and the fork at d is not due before it. */
  ghost predicate OnTheWay(s: Shape<Node>, path: seq<bool>, n: Node, k: Key, d: nat) {
    ValidPath(s, path) && Insert(s, n, k, d) == Put(s, path, Insert(At(s, path), n, k, d))
  }

  /** slot is the fork that path hangs from and right its side; Null if path is the root. */
  ghost predicate SlotOf(s: Shape<Node>, path: seq<bool>, slot: Ref, right: bool) {
    if path == [] then slot == Null
    else
      var up := path[..|path| - 1];
      right == path[|path| - 1] && ValidPath(s, up) && At(s, up).Fork? && slot == Inner(At(s, up).node)
  }

  lemma StepDown(s: Shape<Node>, path: seq<bool>, n: Node, k: Key, d: nat, right: bool)
    requires OnTheWay(s, path, n, k, d) && At(s, path).Fork? && At(s, path).pos <= d && right == Bit(k, At(s, path).pos)
    ensures OnTheWay(s, path + [right], n, k, d)
    ensures At(s, path + [right]) == if right then At(s, path).right else At(s, path).left
    ensures SlotOf(s, path + [right], Inner(At(s, path).node), right)
  {
    Descend(s, path, right);
    assert (path + [right])[..|path|] == path;
  }

  /** The new fork over what was at path is linked once node's own fields and the slot are set. */
  lemma InsertLinked(m: map<Node, Link>, m': map<Node, Link>, s: Shape<Node>, path: seq<bool>, slot: Ref, right: bool,
                     n: Node, k: Key, d: nat)
    requires Linked(m, s) && Distinct(s) && m.Keys == Forks(s) && m'.Keys == Forks(s) + {n} && n !in Forks(s)
      && n.k == k
    requires OnTheWay(s, path, n, k, d) && SlotOf(s, path, slot, right) && (At(s, path).Fork? ==> At(s, path).pos > d)
    requires m'[n] == NewLink(s, path, n, d)
    requires forall x :: x in Forks(s) && Inner(x) != slot ==> m'[x] == m[x]
    requires slot.Inner? ==> slot.node in m && slot.node in m'
    requires slot.Inner? ==> m'[slot.node] == if right then m[slot.node].(child1 := Inner(n))
      else m[slot.node].(child0 := Inner(n))
    ensures Linked(m', Insert(s, n, k, d))
    ensures RefOf(Insert(s, n, k, d)) == if slot == Null then Inner(n) else RefOf(s)
  {
    var sub := At(s, path);
    var t := Insert(sub, n, k, d);
    AtLinked(m, s, path);
    if path != [] {
      var up := path[..|path| - 1];
      SplitLast(path);
      Descend(s, up, right);
      AtLinked(m, s, up);
      AtDistinct(s, up);
      LinkedSame(m, m', sub);
      Relink(m, m', s, up, right, t);
      PutRef(s, up, right, t);
    } else {
      LinkedSame(m, m', sub);
    }
  }

  lemma SplitLast(path: seq<bool>)
    requires path != []
    ensures path[..|path| - 1] + [path[|path| - 1]] == path
  {
  }

  lemma {:induction false} AtDistinct(s: Shape<Node>, path: seq<bool>)
    requires Distinct(s) && ValidPath(s, path)
    ensures Distinct(At(s, path))
  {
    if path != [] {
      AtDistinct(if path[0] then s.right else s.left, path[1..]);
    }
  }

  function KeysOf(ns: seq<Node>): (ks: seq<Key>)
    ensures |ks| == |ns| && forall i :: 0 <= i < |ns| ==> ks[i] == ns[i].k
  {
    if ns == [] then [] else KeysOf(ns[..|ns| - 1]) + [ns[|ns| - 1].k]
  }

  lemma KeysOfConcat(a: seq<Node>, b: seq<Node>)
    ensures KeysOf(a + b) == KeysOf(a) + KeysOf(b)
  {
  }

  /** The calls for ks, numbered from n0: all of them, or up to the first that broke off. */
  ghost predicate Walked(ks: seq<Key>, visited: seq<Key>, n0: nat, stopped: bool, breaks: nat -> bool) {
    && visited <= ks && (stopped ==> visited != []) && (!stopped ==> visited == ks)
    && (forall i :: n0 <= i < n0 + |visited| ==> (breaks(i) <==> stopped && i == n0 + |visited| - 1))
  }

  lemma WalkedOn(left: seq<Key>, right: seq<Key>, visited: seq<Key>, more: seq<Key>, n0: nat, stopped: bool,
                 breaks: nat -> bool)
    requires Walked(left, visited, n0, false, breaks) && Walked(right, more, n0 + |visited|, stopped, breaks)
    ensures Walked(left + right, visited + more, n0, stopped, breaks)
  {
  }

  lemma {:induction false} SelectAscends(ks: seq<Key>, pfx: Key)
    requires Ascending(ks)
    ensures Ascending(Select(ks, pfx)) && forall k :: k in Select(ks, pfx) ==> k in ks
  {
    if ks != [] {
      SelectAscends(ks[1..], pfx);
      assert forall k :: k in ks[1..] ==> Less(ks[0], k);
    }
  }

  lemma PrefixAscends(a: seq<Key>, b: seq<Key>)
    requires a <= b && Ascending(b)
    ensures Ascending(a)
  {
  }

  /** What the walk and the descent together cover. */
  lemma EachSelects(s: Shape<Node>, len: nat, kpfx: Key)
    requires WellFormed(s, len) && |kpfx| <= len
    ensures |Best(s, kpfx).key| == len && Ascending(Select(Keys(s), kpfx))
    ensures Select(Keys(s), kpfx) == if Best(s, kpfx).key[..|kpfx|] == kpfx then Keys(Top(s, kpfx)) else []
  {
    KeyLengths(s, len);
    PrefixUnderTop(s, len, kpfx);
    KeysAscend(s, len);
    SelectAscends(Keys(s), kpfx);
  }
}
