/**
 Crit-bit trees as shapes: which node forks where, at which bit of the key.  Bits of a key
 are numbered from the most significant bit of its first byte.
 */
module CritBitSpec {

  type Key = seq<bv8>

  // ---- bits of a byte ----

  function BitMask(i: nat): bv8 {
    if i == 0 then 0x80 else if i == 1 then 0x40 else if i == 2 then 0x20 else if i == 3 then 0x10
    else if i == 4 then 0x08 else if i == 5 then 0x04 else if i == 6 then 0x02 else 0x01
  }

  predicate BitOf(c: bv8, i: nat) { c & BitMask(i) != 0 }

  /** All bits but bit i: how a fork stores the bit it looks at. */
  function OtherBits(i: nat): bv8 { BitMask(i) ^ 0xff }

  /** The way a fork with these other bits sends a key whose byte there is c. */
  function Direction(otherbits: bv8, c: bv8): bv16 {
    (1 + ((otherbits | c) as bv16)) >> 8
  }

  lemma DirectionIsBit(i: nat, c: bv8)
    requires i < 8
    ensures Direction(OtherBits(i), c) == if BitOf(c, i) then 1 else 0
  {
  }

  /** The other bits for the highest bit in which two bytes differ. */
  function NewOtherBits(x: bv8): bv8 {
    var x1 := x | (x >> 1);
    var x2 := x1 | (x1 >> 2);
    var x3 := x2 | (x2 >> 4);
    (x3 & !(x3 >> 1)) ^ 0xff
  }

  function HighBit(x: bv8): nat {
    if x & 0x80 != 0 then 0 else if x & 0x40 != 0 then 1 else if x & 0x20 != 0 then 2 else if x & 0x10 != 0 then 3
    else if x & 0x08 != 0 then 4 else if x & 0x04 != 0 then 5 else if x & 0x02 != 0 then 6 else 7
  }

  lemma HighBitTwiddle(x: bv8)
    requires x != 0
    ensures NewOtherBits(x) == OtherBits(HighBit(x))
  {
  }

  lemma HighBitIsFirst(x: bv8, i: nat)
    requires x != 0
    ensures HighBit(x) < 8 && BitOf(x, HighBit(x))
    ensures i < HighBit(x) ==> !BitOf(x, i)
  {
  }

  lemma XorBit(a: bv8, b: bv8, i: nat)
    ensures BitOf(a ^ b, i) <==> BitOf(a, i) != BitOf(b, i)
  {
    XorMask(a, b, BitMask(i));
    OneBit(a, i);
    OneBit(b, i);
  }

  lemma XorMask(a: bv8, b: bv8, m: bv8)
    ensures (a ^ b) & m == (a & m) ^ (b & m)
  {
  }

  lemma OneBit(a: bv8, i: nat)
    ensures a & BitMask(i) == 0 || a & BitMask(i) == BitMask(i)
  {
  }

  /** The bit twiddling finds the first bit in which two bytes differ. */
  lemma FirstDifference(a: bv8, b: bv8) returns (h: nat)
    requires a != b
    ensures h < 8 && NewOtherBits(a ^ b) == OtherBits(h)
    ensures BitOf(a, h) != BitOf(b, h)
    ensures forall i :: 0 <= i < h ==> BitOf(a, i) == BitOf(b, i)
  {
    h := HighBit(a ^ b);
    HighBitTwiddle(a ^ b);
    HighBitIsFirst(a ^ b, 0);
    XorBit(a, b, h);
    forall i | 0 <= i < h
      ensures BitOf(a, i) == BitOf(b, i)
    {
      HighBitIsFirst(a ^ b, i);
      XorBit(a, b, i);
    }
  }

  lemma OtherBitsOrder(i: nat, j: nat)
    requires i < 8 && j < 8
    ensures OtherBits(i) > OtherBits(j) <==> i > j
  {
  }

  lemma BitsMakeByte(a: bv8, b: bv8)
    requires forall i :: 0 <= i < 8 ==> BitOf(a, i) == BitOf(b, i)
    ensures a == b
  {
    assert BitOf(a, 0) == BitOf(b, 0) && BitOf(a, 1) == BitOf(b, 1) && BitOf(a, 2) == BitOf(b, 2)
      && BitOf(a, 3) == BitOf(b, 3);
    assert BitOf(a, 4) == BitOf(b, 4) && BitOf(a, 5) == BitOf(b, 5) && BitOf(a, 6) == BitOf(b, 6)
      && BitOf(a, 7) == BitOf(b, 7);
  }

  lemma BitsOrderBytes(a: bv8, b: bv8, j: nat)
    requires j < 8 && !BitOf(a, j) && BitOf(b, j)
    requires forall i :: 0 <= i < j ==> BitOf(a, i) == BitOf(b, i)
    ensures a < b
  {
    assert j > 0 ==> BitOf(a, 0) == BitOf(b, 0);
    assert j > 1 ==> BitOf(a, 1) == BitOf(b, 1);
    assert j > 2 ==> BitOf(a, 2) == BitOf(b, 2);
    assert j > 3 ==> BitOf(a, 3) == BitOf(b, 3);
    assert j > 4 ==> BitOf(a, 4) == BitOf(b, 4);
    assert j > 5 ==> BitOf(a, 5) == BitOf(b, 5);
    assert j > 6 ==> BitOf(a, 6) == BitOf(b, 6);
  }

  // ---- bits of a key ----

  /** Bit p of the key; a key reads as zero beyond its end. */
  predicate Bit(k: Key, p: nat) { p / 8 < |k| && BitOf(k[p / 8], p % 8) }

  /** The keys agree on all bits before p. */
  ghost predicate AgreeBelow(a: Key, b: Key, p: nat) {
    forall i: nat :: i < p ==> Bit(a, i) == Bit(b, i)
  }

  lemma SameBytesAgree(a: Key, b: Key, m: nat)
    requires m <= |a| && m <= |b| && a[..m] == b[..m]
    ensures AgreeBelow(a, b, 8 * m)
  {
    forall i: nat | i < 8 * m
      ensures Bit(a, i) == Bit(b, i)
    {
      assert a[..m][i / 8] == b[..m][i / 8];
    }
  }

  lemma AgreeSameBytes(a: Key, b: Key, m: nat)
    requires m <= |a| && m <= |b| && AgreeBelow(a, b, 8 * m)
    ensures a[..m] == b[..m]
  {
    forall j | 0 <= j < m
      ensures a[j] == b[j]
    {
      forall i | 0 <= i < 8
        ensures BitOf(a[j], i) == BitOf(b[j], i)
      {
        assert Bit(a, 8 * j + i) == Bit(b, 8 * j + i);
      }
      BitsMakeByte(a[j], b[j]);
    }
  }

  /** Byte-wise lexicographic order, as memcmp has it. */
  ghost predicate Less(a: Key, b: Key) {
    exists j :: 0 <= j < |a| && j < |b| && a[..j] == b[..j] && a[j] < b[j]
  }

  lemma BitsOrderKeys(a: Key, b: Key, p: nat)
    requires |a| == |b| && p < 8 * |a| && AgreeBelow(a, b, p) && !Bit(a, p) && Bit(b, p)
    ensures Less(a, b)
  {
    var j, i := p / 8, p % 8;
    assert AgreeBelow(a, b, 8 * j);
    AgreeSameBytes(a, b, j);
    forall i' | 0 <= i' < i
      ensures BitOf(a[j], i') == BitOf(b[j], i')
    {
      assert Bit(a, 8 * j + i') == Bit(b, 8 * j + i');
    }
    BitsOrderBytes(a[j], b[j], i);
  }

  /** Keys that first differ in byte j, and there in bit h, part at bit 8 * j + h. */
  lemma PartAt(a: Key, b: Key, j: nat, h: nat)
    requires j < |a| && j < |b| && a[..j] == b[..j] && h < 8 && BitOf(a[j], h) != BitOf(b[j], h)
    requires forall i :: 0 <= i < h ==> BitOf(a[j], i) == BitOf(b[j], i)
    ensures AgreeBelow(a, b, 8 * j + h)
    ensures Bit(a, 8 * j + h) != Bit(b, 8 * j + h)
  {
    SameBytesAgree(a, b, j);
    forall i: nat | i < 8 * j + h
      ensures Bit(a, i) == Bit(b, i)
    {
      if i >= 8 * j {
        assert i / 8 == j && i % 8 == i - 8 * j;
      }
    }
    assert (8 * j + h) / 8 == j && (8 * j + h) % 8 == h;
  }

  // ---- trees ----

  // A tip carries a key; a fork sends keys left or right by one bit.  node is whatever stores it.
  datatype Shape<N> = Tip(node: N, key: Key) | Fork(node: N, pos: nat, left: Shape<N>, right: Shape<N>)

  /** The keys, left to right. */
  function Keys<N>(s: Shape<N>): (ks: seq<Key>)
    ensures |ks| > 0
  {
    match s
    case Tip(_, k) => [k]
    case Fork(_, _, l, r) => Keys(l) + Keys(r)
  }

  ghost predicate Deeper<N>(s: Shape<N>, pos: nat) { s.Fork? ==> pos < s.pos }

  /** Positions grow downwards; keys under a fork share all bits before its own and part there. */
  ghost predicate WellFormed<N>(s: Shape<N>, len: nat) {
    match s
    case Tip(_, k) => |k| == len
    case Fork(_, pos, l, r) =>
      && pos < 8 * len && Deeper(l, pos) && Deeper(r, pos) && WellFormed(l, len) && WellFormed(r, len)
      && (forall k :: k in Keys(l) ==> !Bit(k, pos))
      && (forall k :: k in Keys(r) ==> Bit(k, pos))
      && (forall k, k' :: k in Keys(s) && k' in Keys(s) ==> AgreeBelow(k, k', pos))
  }

  lemma {:induction false} KeyLengths<N>(s: Shape<N>, len: nat)
    requires WellFormed(s, len)
    ensures forall k :: k in Keys(s) ==> |k| == len
  {
    match s
    case Tip(_, _) =>
    case Fork(_, _, l, r) =>
      KeyLengths(l, len);
      KeyLengths(r, len);
  }

  /** The tip a key is sent to. */
  function Best<N>(s: Shape<N>, k: Key): (t: Shape<N>)
    ensures t.Tip? && t.key in Keys(s)
  {
    match s
    case Tip(_, _) => s
    case Fork(_, pos, l, r) => if Bit(k, pos) then Best(r, k) else Best(l, k)
  }

  /** A key that is in the tree is sent to itself. */
  lemma {:induction false} BestFinds<N>(s: Shape<N>, len: nat, k: Key)
    requires WellFormed(s, len) && k in Keys(s)
    ensures Best(s, k).key == k
  {
    match s
    case Tip(_, _) =>
    case Fork(_, pos, l, r) =>
      if Bit(k, pos) {
        BestFinds(r, len, k);
      } else {
        BestFinds(l, len, k);
      }
  }

  ghost predicate Ascending(ks: seq<Key>) {
    forall i, j :: 0 <= i < j < |ks| ==> Less(ks[i], ks[j])
  }

  /** Left to right, the keys are strictly ascending. */
  lemma {:induction false} KeysAscend<N>(s: Shape<N>, len: nat)
    requires WellFormed(s, len)
    ensures Ascending(Keys(s))
  {
    match s
    case Tip(_, _) =>
    case Fork(_, pos, l, r) =>
      KeysAscend(l, len);
      KeysAscend(r, len);
      KeyLengths(s, len);
      forall i, j | 0 <= i < |Keys(l)| && 0 <= j < |Keys(r)|
        ensures Less(Keys(l)[i], Keys(r)[j])
      {
        assert Keys(l)[i] in Keys(s) && Keys(r)[j] in Keys(s);
        BitsOrderKeys(Keys(l)[i], Keys(r)[j], pos);
      }
  }

  // ---- insertion ----

  /** The tree as a map from keys to the nodes that carry them. */
  ghost function Contents<N>(s: Shape<N>): map<Key, N> {
    match s
    case Tip(n, k) => map[k := n]
    case Fork(_, _, l, r) => Contents(l) + Contents(r)
  }

  lemma {:induction false} ContentsKeys<N>(s: Shape<N>, k: Key)
    ensures k in Contents(s) <==> k in Keys(s)
  {
    match s
    case Tip(_, _) =>
    case Fork(_, _, l, r) =>
      ContentsKeys(l, k);
      ContentsKeys(r, k);
  }

  /** A fork at bit d for the new key k, put above the first subtree on k's way that forks later. */
  function Insert<N>(s: Shape<N>, n: N, k: Key, d: nat): Shape<N> {
    if s.Tip? || s.pos > d then
      if Bit(k, d) then Fork(n, d, s, Tip(n, k)) else Fork(n, d, Tip(n, k), s)
    else if Bit(k, s.pos) then Fork(s.node, s.pos, s.left, Insert(s.right, n, k, d))
    else Fork(s.node, s.pos, Insert(s.left, n, k, d), s.right)
  }

  /** d is where k parts from the tip it is sent to. */
  ghost predicate PartsAt<N>(s: Shape<N>, k: Key, d: nat) {
    AgreeBelow(Best(s, k).key, k, d) && Bit(Best(s, k).key, d) != Bit(k, d)
  }

  lemma {:induction false} InsertKeys<N>(s: Shape<N>, n: N, k: Key, d: nat, x: Key)
    ensures x in Keys(Insert(s, n, k, d)) <==> x in Keys(s) || x == k
  {
    if s.Fork? && s.pos <= d {
      if Bit(k, s.pos) {
        InsertKeys(s.right, n, k, d, x);
      } else {
        InsertKeys(s.left, n, k, d, x);
      }
    }
  }

  lemma AgreeTrans(a: Key, b: Key, c: Key, p: nat, q: nat)
    requires AgreeBelow(a, b, p) && AgreeBelow(b, c, q)
    ensures forall r: nat :: r <= p && r <= q ==> AgreeBelow(a, c, r) && AgreeBelow(c, a, r)
  {
  }

  /** Below the place of insertion every key parts from k at d, just as the tip k is sent to. */
  lemma AllPart<N>(s: Shape<N>, len: nat, k: Key, d: nat, x: Key)
    requires WellFormed(s, len) && PartsAt(s, k, d) && x in Keys(s) && (s.Fork? ==> s.pos > d)
    ensures AgreeBelow(x, k, d) && Bit(x, d) != Bit(k, d)
  {
    var p := Best(s, k).key;
    if s.Fork? {
      assert AgreeBelow(x, p, s.pos);
      AgreeTrans(x, p, k, s.pos, d);
    }
  }

  lemma NewFork<N>(s: Shape<N>, len: nat, n: N, k: Key, d: nat)
    requires WellFormed(s, len) && |k| == len && d < 8 * len && PartsAt(s, k, d) && (s.Fork? ==> s.pos > d)
    ensures WellFormed(Insert(s, n, k, d), len)
  {
    var t := Insert(s, n, k, d);
    forall x | x in Keys(s)
      ensures AgreeBelow(x, k, d) && Bit(x, d) != Bit(k, d)
    {
      AllPart(s, len, k, d, x);
    }
    forall x, y | x in Keys(t) && y in Keys(t)
      ensures AgreeBelow(x, y, d)
    {
      InsertKeys(s, n, k, d, x);
      InsertKeys(s, n, k, d, y);
      assert AgreeBelow(x, k, d) && AgreeBelow(y, k, d);
    }
  }

  /** At a fork on k's way down, k shares the earlier bits with every key below. */
  lemma SharesWay<N>(s: Shape<N>, len: nat, k: Key, d: nat, x: Key)
    requires WellFormed(s, len) && s.Fork? && s.pos < d && PartsAt(s, k, d) && x in Keys(s)
    ensures AgreeBelow(x, k, s.pos)
  {
    var p := Best(s, k).key;
    assert AgreeBelow(x, p, s.pos);
    AgreeTrans(x, p, k, s.pos, d);
  }

  lemma {:induction false} InsertWellFormed<N>(s: Shape<N>, len: nat, n: N, k: Key, d: nat)
    requires WellFormed(s, len) && |k| == len && d < 8 * len && PartsAt(s, k, d)
    ensures WellFormed(Insert(s, n, k, d), len)
    ensures forall pos :: 0 <= pos < d && Deeper(s, pos) ==> Deeper(Insert(s, n, k, d), pos)
  {
    if s.Tip? || s.pos > d {
      NewFork(s, len, n, k, d);
    } else {
      var side := if Bit(k, s.pos) then s.right else s.left;
      assert Best(s, k) == Best(side, k);
      assert s.pos != d;
      InsertWellFormed(side, len, n, k, d);
      InsertBelow(s, len, n, k, d);
    }
  }

  lemma InsertBelow<N>(s: Shape<N>, len: nat, n: N, k: Key, d: nat)
    requires WellFormed(s, len) && s.Fork? && s.pos < d && PartsAt(s, k, d)
    requires var side := if Bit(k, s.pos) then s.right else s.left;
      WellFormed(Insert(side, n, k, d), len) && Deeper(Insert(side, n, k, d), s.pos)
    ensures WellFormed(Insert(s, n, k, d), len)
  {
    var t := Insert(s, n, k, d);
    forall x
      ensures x in Keys(t.left) ==> !Bit(x, s.pos)
      ensures x in Keys(t.right) ==> Bit(x, s.pos)
    {
      InsertKeys(s.left, n, k, d, x);
      InsertKeys(s.right, n, k, d, x);
    }
    forall x | x in Keys(s)
      ensures AgreeBelow(x, k, s.pos)
    {
      SharesWay(s, len, k, d, x);
    }
    forall x, y | x in Keys(t) && y in Keys(t)
      ensures AgreeBelow(x, y, s.pos)
    {
      InsertKeys(s, n, k, d, x);
      InsertKeys(s, n, k, d, y);
    }
  }

  lemma {:induction false} InsertContents<N>(s: Shape<N>, len: nat, n: N, k: Key, d: nat)
    requires WellFormed(s, len) && PartsAt(s, k, d)
    ensures k !in Contents(s)
    ensures Contents(Insert(s, n, k, d)) == Contents(s)[k := n]
  {
    if k in Contents(s) {
      ContentsKeys(s, k);
      BestFinds(s, len, k);
    }
    if s.Fork? && s.pos <= d {
      if Bit(k, s.pos) {
        InsertContents(s.right, len, n, k, d);
        UpdateRight(Contents(s.left), Contents(s.right), k, n);
      } else {
        InsertContents(s.left, len, n, k, d);
        UpdateLeft(Contents(s.left), Contents(s.right), k, n);
      }
    }
  }

  lemma UpdateLeft<N>(a: map<Key, N>, b: map<Key, N>, k: Key, n: N)
    requires k !in b
    ensures a[k := n] + b == (a + b)[k := n]
  {
  }

  lemma UpdateRight<N>(a: map<Key, N>, b: map<Key, N>, k: Key, n: N)
    ensures a + b[k := n] == (a + b)[k := n]
  {
  }

  // ---- prefixes ----

  predicate HasPrefix(k: Key, pfx: Key) { |pfx| <= |k| && k[..|pfx|] == pfx }

  /** The keys with the prefix, in order. */
  function Select(ks: seq<Key>, pfx: Key): seq<Key> {
    if ks == [] then [] else (if HasPrefix(ks[0], pfx) then [ks[0]] else []) + Select(ks[1..], pfx)
  }

  lemma {:induction false} SelectConcat(a: seq<Key>, b: seq<Key>, pfx: Key)
    ensures Select(a + b, pfx) == Select(a, pfx) + Select(b, pfx)
  {
    if a == [] {
      assert a + b == b;
    } else {
      assert (a + b)[1..] == a[1..] + b;
      SelectConcat(a[1..], b, pfx);
    }
  }

  lemma {:induction false} SelectAllOrNone(ks: seq<Key>, pfx: Key, all: bool)
    requires forall k :: k in ks ==> HasPrefix(k, pfx) == all
    ensures Select(ks, pfx) == if all then ks else []
  {
    if ks != [] {
      SelectAllOrNone(ks[1..], pfx, all);
    }
  }

  /** The subtree reached once all bits of the prefix have been looked at. */
  function Top<N>(s: Shape<N>, pfx: Key): Shape<N> {
    if s.Fork? && s.pos / 8 < |pfx| then Top(if Bit(pfx, s.pos) then s.right else s.left, pfx) else s
  }

  lemma {:induction false} BestUnderTop<N>(s: Shape<N>, pfx: Key)
    ensures Best(s, pfx) == Best(Top(s, pfx), pfx)
  {
    if s.Fork? && s.pos / 8 < |pfx| {
      BestUnderTop(if Bit(pfx, s.pos) then s.right else s.left, pfx);
    }
  }

  lemma OtherSideLacks(ks: seq<Key>, pfx: Key, pos: nat)
    requires pos / 8 < |pfx| && forall k :: k in ks ==> Bit(k, pos) != Bit(pfx, pos)
    ensures Select(ks, pfx) == []
  {
    forall k | k in ks
      ensures !HasPrefix(k, pfx)
    {
      if HasPrefix(k, pfx) {
        SameBytesAgree(k, pfx, |pfx|);
      }
    }
    SelectAllOrNone(ks, pfx, false);
  }

  lemma TopShares<N>(s: Shape<N>, len: nat, pfx: Key)
    requires WellFormed(s, len) && |pfx| <= len && (s.Fork? ==> s.pos / 8 >= |pfx|)
    ensures Select(Keys(s), pfx) == if HasPrefix(Best(s, pfx).key, pfx) then Keys(s) else []
  {
    var p := Best(s, pfx).key;
    KeyLengths(s, len);
    forall k | k in Keys(s)
      ensures HasPrefix(k, pfx) == HasPrefix(p, pfx)
    {
      if s.Fork? {
        assert AgreeBelow(k, p, s.pos);
        assert 8 * |pfx| <= s.pos;
        AgreeSameBytes(k, p, |pfx|);
      }
    }
    SelectAllOrNone(Keys(s), pfx, HasPrefix(p, pfx));
  }

  /** The keys with a prefix are those under the top, or none if the best match lacks the prefix. */
  lemma {:induction false} PrefixUnderTop<N>(s: Shape<N>, len: nat, pfx: Key)
    requires WellFormed(s, len) && |pfx| <= len
    ensures Select(Keys(s), pfx) == if HasPrefix(Best(s, pfx).key, pfx) then Keys(Top(s, pfx)) else []
  {
    if s.Fork? && s.pos / 8 < |pfx| {
      SelectConcat(Keys(s.left), Keys(s.right), pfx);
      if Bit(pfx, s.pos) {
        OtherSideLacks(Keys(s.left), pfx, s.pos);
        PrefixUnderTop(s.right, len, pfx);
      } else {
        OtherSideLacks(Keys(s.right), pfx, s.pos);
        PrefixUnderTop(s.left, len, pfx);
      }
    } else {
      TopShares(s, len, pfx);
    }
  }

  /** Beyond the prefix a walk keeps left, so it ends at the first key. */
  lemma {:induction false} BestIsFirst<N>(s: Shape<N>, len: nat, pfx: Key)
    requires WellFormed(s, len) && (s.Fork? ==> s.pos / 8 >= |pfx|)
    ensures Best(s, pfx).key == Keys(s)[0]
  {
    if s.Fork? {
      BestIsFirst(s.left, len, pfx);
    }
  }

  lemma {:induction false} TopWellFormed<N>(s: Shape<N>, len: nat, pfx: Key)
    requires WellFormed(s, len)
    ensures WellFormed(Top(s, pfx), len) && (Top(s, pfx).Fork? ==> Top(s, pfx).pos / 8 >= |pfx|)
  {
    if s.Fork? && s.pos / 8 < |pfx| {
      TopWellFormed(if Bit(pfx, s.pos) then s.right else s.left, len, pfx);
    }
  }

  /** The walk ends at the first of the keys with the prefix, if there is any. */
  lemma BestIsFirstSelected<N>(s: Shape<N>, len: nat, pfx: Key)
    requires WellFormed(s, len) && |pfx| <= len
    ensures HasPrefix(Best(s, pfx).key, pfx) <==> Select(Keys(s), pfx) != []
    ensures Select(Keys(s), pfx) != [] ==> Select(Keys(s), pfx)[0] == Best(s, pfx).key
  {
    PrefixUnderTop(s, len, pfx);
    BestUnderTop(s, pfx);
    TopWellFormed(s, len, pfx);
    BestIsFirst(Top(s, pfx), len, pfx);
  }

  lemma {:induction false} BestContents<N>(s: Shape<N>, len: nat, k: Key)
    requires WellFormed(s, len)
    ensures Best(s, k).key in Contents(s) && Contents(s)[Best(s, k).key] == Best(s, k).node
  {
    match s
    case Tip(_, _) =>
    case Fork(_, pos, l, r) =>
      if Bit(k, pos) {
        BestContents(r, len, k);
      } else {
        BestContents(l, len, k);
        ContentsKeys(r, Best(l, k).key);
      }
  }
}
