/**
 The index as a sorted list of paths, and the tree object a directory of it stands for,
 computed from scratch.
 */
module IndexSpec {

  type Path = string

  type Oid = nat

  // one index entry; merged, present, neither sparse nor intent-to-add
  datatype IndexEntry = IndexEntry(name: Path, mode: nat, oid: Oid)

  const DIRECTORY := 0x4000

  // one line of a tree object
  datatype TreeItem = TreeItem(mode: nat, name: string, oid: Oid)

  // ---- order of paths ----

  /** Byte-wise order, a path before its extensions. */
  ghost predicate Less(a: Path, b: Path) {
    (|a| < |b| && a == b[..|a|]) || exists i :: DiffersAt(a, b, i) && a[i] < b[i]
  }

  ghost predicate DiffersAt(a: Path, b: Path, i: int) {
    0 <= i < |a| && i < |b| && a[..i] == b[..i] && a[i] != b[i]
  }

  /** name lies under the directory prefix base (empty, or ending in a slash). */
  predicate HasBase(name: Path, base: Path) { |name| > |base| && name[..|base|] == base }

  ghost predicate Sorted(es: seq<IndexEntry>) {
    forall i, j :: 0 <= i < j < |es| ==> Less(es[i].name, es[j].name)
  }

  predicate PathOk(p: Path) { |p| > 0 && p[|p| - 1] != '/' }

  ghost predicate IndexOk(es: seq<IndexEntry>) {
    Sorted(es) && forall i :: 0 <= i < |es| ==> PathOk(es[i].name) && es[i].mode != DIRECTORY
  }

  /** What lies between two paths with a common prefix has it too. */
  lemma BetweenHasBase(a: Path, b: Path, c: Path, base: Path)
    requires Less(a, b) && Less(b, c) && HasBase(a, base) && HasBase(c, base)
    ensures HasBase(b, base)
  {
    if b[..Min(|b|, |base|)] == base[..Min(|b|, |base|)] {
      if |b| <= |base| {
        ShorterIsNotAfter(a, b, base);
      }
    } else {
      var i := FirstDifference(b, base);
      Deviates(a, b, c, base, i);
    }
  }

  function Min(a: nat, b: nat): nat { if a < b then a else b }

  lemma FirstDifference(a: Path, b: Path) returns (i: nat)
    requires a[..Min(|a|, |b|)] != b[..Min(|a|, |b|)]
    ensures DiffersAt(a, b, i)
  {
    i := 0;
    while i < |a| && i < |b| && a[i] == b[i]
      invariant i <= |a| && i <= |b| && a[..i] == b[..i]
    {
      i := i + 1;
    }
  }

  lemma ShorterIsNotAfter(a: Path, b: Path, base: Path)
    requires HasBase(a, base) && |b| <= |base| && b == base[..|b|]
    ensures !Less(a, b)
  {
    assert b == a[..|b|];
    assert forall i :: 0 <= i < |b| ==> a[i] == a[..|b|][i];
  }

  lemma Deviates(a: Path, b: Path, c: Path, base: Path, i: nat)
    requires HasBase(a, base) && HasBase(c, base) && DiffersAt(b, base, i)
    ensures !(Less(a, b) && Less(b, c))
  {
    assert a[..i] == base[..i] && c[..i] == base[..i] && a[i] == base[i] && c[i] == base[i];
    if Less(a, b) {
      LessAtDifference(a, b, i);
    }
    if Less(b, c) {
      LessAtDifference(b, c, i);
    }
  }

  lemma LessAtDifference(a: Path, b: Path, i: nat)
    requires DiffersAt(a, b, i) && Less(a, b)
    ensures a[i] < b[i]
  {
    PrefixAgrees(a, b, i);
    assert |a| <= |b| ==> forall x :: 0 <= x < |a| ==> b[..|a|][x] == b[x];
    if exists j :: DiffersAt(a, b, j) && a[j] < b[j] {
      var j :| DiffersAt(a, b, j) && a[j] < b[j];
      PrefixAgrees(a, b, j);
    }
  }

  lemma PrefixAgrees(a: Path, b: Path, i: nat)
    requires i <= |a| && i <= |b| && a[..i] == b[..i]
    ensures forall x :: 0 <= x < i ==> a[x] == b[x]
  {
    assert forall x :: 0 <= x < i ==> a[..i][x] == b[..i][x];
  }

  // ---- the entries of a directory ----

  /** The entries under base, in order. */
  function Under(es: seq<IndexEntry>, base: Path): seq<IndexEntry> {
    if es == [] then [] else (if HasBase(es[0].name, base) then [es[0]] else []) + Under(es[1..], base)
  }

  lemma {:induction false} UnderConcat(a: seq<IndexEntry>, b: seq<IndexEntry>, base: Path)
    ensures Under(a + b, base) == Under(a, base) + Under(b, base)
  {
    if a == [] {
      assert a + b == b;
    } else {
      assert (a + b)[1..] == a[1..] + b;
      UnderConcat(a[1..], b, base);
      var x := if HasBase(a[0].name, base) then [a[0]] else [];
      assert x + (Under(a[1..], base) + Under(b, base)) == (x + Under(a[1..], base)) + Under(b, base);
    }
  }

  lemma {:induction false} UnderAll(es: seq<IndexEntry>, base: Path, all: bool)
    requires forall i :: 0 <= i < |es| ==> HasBase(es[i].name, base) == all
    ensures Under(es, base) == if all then es else []
  {
    if es != [] {
      UnderAll(es[1..], base, all);
    }
  }

  lemma {:induction false} UnderIn(es: seq<IndexEntry>, base: Path, e: IndexEntry)
    ensures e in Under(es, base) <==> e in es && HasBase(e.name, base)
  {
    if es != [] {
      UnderIn(es[1..], base, e);
    }
  }

  /** How many entries from the front lie under base. */
  function RunLength(es: seq<IndexEntry>, base: Path): (n: nat)
    ensures n <= |es|
    ensures forall i :: 0 <= i < n ==> HasBase(es[i].name, base)
    ensures n < |es| ==> !HasBase(es[n].name, base)
  {
    if es == [] || !HasBase(es[0].name, base) then 0 else 1 + RunLength(es[1..], base)
  }

  lemma SortedTail(es: seq<IndexEntry>, n: nat)
    requires n <= |es| && IndexOk(es)
    ensures IndexOk(es[n..]) && IndexOk(es[..n])
  {
  }

  lemma AfterRun(es: seq<IndexEntry>, base: Path, n: nat, i: nat)
    requires Sorted(es) && n <= i < |es| && HasBase(es[0].name, base) && !HasBase(es[n].name, base)
    ensures !HasBase(es[i].name, base)
  {
    if HasBase(es[i].name, base) && n < i {
      assert n > 0;
      BetweenHasBase(es[0].name, es[n].name, es[i].name, base);
    }
  }

  /** In a sorted index the entries of a directory stand together. */
  lemma RunIsUnder(es: seq<IndexEntry>, base: Path)
    requires Sorted(es) && (es != [] ==> HasBase(es[0].name, base))
    ensures Under(es, base) == es[..RunLength(es, base)] && Under(es[RunLength(es, base)..], base) == []
  {
    PrefixIsUnder(es, base, RunLength(es, base));
  }

  lemma PrefixIsUnder(es: seq<IndexEntry>, base: Path, n: nat)
    requires Sorted(es) && n <= |es| && (forall i :: 0 <= i < n ==> HasBase(es[i].name, base))
    requires n < |es| ==> HasBase(es[0].name, base) && !HasBase(es[n].name, base)
    ensures Under(es, base) == es[..n] && Under(es[n..], base) == []
  {
    UnderRun(es[..n], base);
    TailHasNone(es, base, n);
    UnderParts(es, es[..n], es[n..], base);
  }

  lemma UnderParts(es: seq<IndexEntry>, head: seq<IndexEntry>, tail: seq<IndexEntry>, base: Path)
    requires es == head + tail && Under(head, base) == head && Under(tail, base) == []
    ensures Under(es, base) == head
  {
    UnderConcat(head, tail, base);
  }

  lemma UnderRun(head: seq<IndexEntry>, base: Path)
    requires forall i :: 0 <= i < |head| ==> HasBase(head[i].name, base)
    ensures Under(head, base) == head
  {
    UnderAll(head, base, true);
  }

  lemma TailHasNone(es: seq<IndexEntry>, base: Path, n: nat)
    requires Sorted(es) && n <= |es| && (n < |es| ==> HasBase(es[0].name, base) && !HasBase(es[n].name, base))
    ensures Under(es[n..], base) == []
  {
    var tail := es[n..];
    forall i | 0 <= i < |tail|
      ensures !HasBase(tail[i].name, base)
    {
      AfterRun(es, base, n, n + i);
    }
    UnderAll(tail, base, false);
  }

  /** If the last entry before a boundary is not under base, no earlier one is, given one after it. */
  lemma NoneBefore(es: seq<IndexEntry>, i: nat, base: Path)
    requires IndexOk(es) && i < |es| && HasBase(es[i].name, base) && (i > 0 ==> !HasBase(es[i - 1].name, base))
    ensures Under(es[..i], base) == []
  {
    forall j | 0 <= j < i
      ensures !HasBase(es[j].name, base)
    {
      if HasBase(es[j].name, base) && j < i - 1 {
        BetweenHasBase(es[j].name, es[i - 1].name, es[i].name, base);
      }
    }
    UnderAll(es[..i], base, false);
  }

  // ---- components ----

  /** Index of the first slash of p at or after i, or |p|. */
  function SlashFrom(p: Path, i: nat): (k: nat)
    requires i <= |p|
    ensures i <= k <= |p| && '/' !in p[i..k] && (k < |p| ==> p[k] == '/')
    decreases |p| - i
  {
    if i == |p| || p[i] == '/' then i
    else
      assert forall k :: i < k <= |p| ==> p[i..k] == [p[i]] + p[i + 1..k];
      SlashFrom(p, i + 1)
  }

  predicate InSubdirectory(name: Path, base: Path)
    requires HasBase(name, base)
  {
    SlashFrom(name, |base|) < |name|
  }

  /** The directory under base that name lies in, as component and as prefix. */
  function Component(name: Path, base: Path): string
    requires HasBase(name, base)
  {
    name[|base|..SlashFrom(name, |base|)]
  }

  function SubBase(base: Path, comp: string): Path { base + comp + "/" }

  lemma InOwnSubdirectory(name: Path, base: Path)
    requires HasBase(name, base) && PathOk(name) && InSubdirectory(name, base)
    ensures HasBase(name, SubBase(base, Component(name, base))) && '/' !in Component(name, base)
  {
    var k := SlashFrom(name, |base|);
    assert name[..k + 1] == base + name[|base|..k] + "/";
  }

  /** A path under base/comp/ is in the subdirectory comp of base. */
  lemma SubBaseComponent(name: Path, base: Path, comp: string)
    requires HasBase(name, SubBase(base, comp)) && '/' !in comp
    ensures HasBase(name, base) && InSubdirectory(name, base) && Component(name, base) == comp
  {
    var s := SubBase(base, comp);
    assert name[..|base|] == s[..|base|] == base;
    assert name[|base|..|base| + |comp|] == s[|base|..|base| + |comp|] == comp;
    assert name[|base| + |comp|] == s[|base| + |comp|] == '/';
    SlashUnique(name, |base|, |base| + |comp|);
  }

  lemma SlashUnique(p: Path, i: nat, k: nat)
    requires i <= k < |p| && '/' !in p[i..k] && p[k] == '/'
    ensures SlashFrom(p, i) == k
  {
    NoSlashIn(p, i, k);
    NoSlashIn(p, i, SlashFrom(p, i));
  }

  lemma NoSlashIn(p: Path, i: nat, k: nat)
    requires i <= k <= |p| && '/' !in p[i..k]
    ensures forall x :: i <= x < k ==> p[x] != '/'
  {
    assert forall x :: i <= x < k ==> p[i..k][x - i] == p[x];
  }

  // ---- tree objects ----

  // hash stands for the object store: the id of the tree with these lines
  type Hash = seq<TreeItem> -> Oid

  ghost predicate AllUnder(run: seq<IndexEntry>, base: Path) {
    forall i :: 0 <= i < |run| ==> HasBase(run[i].name, base) && PathOk(run[i].name)
  }

  /** The lines of the tree for base whose entries are run: files as they are, directories by their own trees. */
  function Items(hash: Hash, run: seq<IndexEntry>, base: Path): seq<TreeItem>
    requires AllUnder(run, base)
    decreases |run|, if run == [] then 0 else |run[0].name| - |base|
  {
    if run == [] then []
    else
      var name := run[0].name;
      if !InSubdirectory(name, base) then
        [TreeItem(run[0].mode, name[|base|..], run[0].oid)] + Items(hash, run[1..], base)
      else
        var comp := Component(name, base);
        InOwnSubdirectory(name, base);
        var n := RunLength(run, SubBase(base, comp));
        [TreeItem(DIRECTORY, comp, hash(Items(hash, run[..n], SubBase(base, comp))))] + Items(hash, run[n..], base)
  }

  /** The id of the tree for a directory, from the index alone. */
  function TreeOid(hash: Hash, es: seq<IndexEntry>, base: Path): Oid
    requires AllUnder(es, base)
  {
    hash(Items(hash, es, base))
  }

  lemma {:induction false} UnderAllUnder(es: seq<IndexEntry>, base: Path)
    requires forall i :: 0 <= i < |es| ==> PathOk(es[i].name)
    ensures AllUnder(Under(es, base), base)
  {
    if es != [] {
      UnderAllUnder(es[1..], base);
    }
  }

  // ---- the order of tree lines ----

  /** Tree objects order a directory as if its name ended in a slash. */
  function TreeKey(item: TreeItem): string { if item.mode == DIRECTORY then item.name + "/" else item.name }

  /** The part of a path that decides its place in the tree for base. */
  function Head(name: Path, base: Path): string
    requires HasBase(name, base)
  {
    if InSubdirectory(name, base) then Component(name, base) + "/" else name[|base|..]
  }

  lemma HeadIsPrefix(name: Path, base: Path)
    requires HasBase(name, base)
    ensures var h := Head(name, base); var t := name[|base|..];
      |h| <= |t| && h == t[..|h|] && (forall x :: 0 <= x < |h| - 1 ==> h[x] != '/')
        && (!InSubdirectory(name, base) ==> h == t && '/' !in h)
  {
    var k := SlashFrom(name, |base|);
    NoSlashIn(name, |base|, k);
  }

  lemma TailOrder(a: Path, b: Path, base: Path)
    requires HasBase(a, base) && HasBase(b, base) && Less(a, b)
    ensures Less(a[|base|..], b[|base|..])
  {
    if |a| < |b| && a == b[..|a|] {
      assert a[|base|..] == b[|base|..][..|a| - |base|];
    } else {
      var i :| DiffersAt(a, b, i) && a[i] < b[i];
      PrefixAgrees(a, base, |base|);
      PrefixAgrees(b, base, |base|);
      assert i >= |base|;
      var x, y := a[|base|..], b[|base|..];
      assert x[..i - |base|] == a[..i][|base|..] && y[..i - |base|] == b[..i][|base|..];
      assert DiffersAt(x, y, i - |base|) && x[i - |base|] < y[i - |base|];
    }
  }

  lemma HeadOrder(a: Path, b: Path, base: Path)
    requires HasBase(a, base) && HasBase(b, base) && Less(a, b) && Head(a, base) != Head(b, base)
    ensures Less(Head(a, base), Head(b, base))
  {
    TailOrder(a, b, base);
    HeadIsPrefix(a, base);
    HeadIsPrefix(b, base);
    PrefixOrder(a[|base|..], b[|base|..], Head(a, base), Head(b, base), InSubdirectory(b, base));
  }

  /** Heads are ordered as the paths are: they hold at most one slash, at their end. */
  lemma PrefixOrder(a: string, b: string, ha: string, hb: string, dirB: bool)
    requires Less(a, b) && ha != hb && |ha| <= |a| && ha == a[..|ha|] && |hb| <= |b| && hb == b[..|hb|]
    requires forall x :: 0 <= x < |ha| - 1 ==> ha[x] != '/'
    requires if dirB then |hb| > 0 && hb[|hb| - 1] == '/' else hb == b
    ensures Less(ha, hb)
  {
    var m := Min(|ha|, |hb|);
    if ha[..m] == hb[..m] {
      if |hb| < |ha| {
        PrefixAgrees(ha, hb, m);
        if !dirB {
          ExtensionIsLater(b, a);
        }
        assert false;
      }
    } else {
      var i := FirstDifference(ha, hb);
      assert a[..i] == ha[..i] && b[..i] == hb[..i];
      LessAtDifference(a, b, i);
    }
  }

  lemma ExtensionIsLater(b: string, a: string)
    requires |b| <= |a| && b == a[..|b|]
    ensures !Less(a, b)
  {
    assert forall x :: 0 <= x < |b| ==> a[x] == a[..|b|][x];
  }

  /** How many entries make up the first line. */
  function LineLength(run: seq<IndexEntry>, base: Path): (n: nat)
    requires AllUnder(run, base) && run != []
    ensures 1 <= n <= |run|
  {
    if InSubdirectory(run[0].name, base) then
      InOwnSubdirectory(run[0].name, base);
      RunLength(run, SubBase(base, Component(run[0].name, base)))
    else 1
  }

  lemma ItemsUnfold(hash: Hash, run: seq<IndexEntry>, base: Path)
    requires AllUnder(run, base) && run != [] && (forall i :: 0 <= i < |run| ==> run[i].mode != DIRECTORY)
    ensures |Items(hash, run, base)| > 0
    ensures TreeKey(Items(hash, run, base)[0]) == Head(run[0].name, base)
    ensures Items(hash, run, base)[1..] == Items(hash, run[LineLength(run, base)..], base)
  {
    if InSubdirectory(run[0].name, base) {
      InOwnSubdirectory(run[0].name, base);
    }
  }

  lemma {:induction false} ItemKeys(hash: Hash, run: seq<IndexEntry>, base: Path, j: nat) returns (k: nat)
    requires AllUnder(run, base) && IndexOk(run) && j < |Items(hash, run, base)|
    ensures k < |run| && TreeKey(Items(hash, run, base)[j]) == Head(run[k].name, base)
    decreases |run|
  {
    ItemsUnfold(hash, run, base);
    k := 0;
    if j > 0 {
      var n := LineLength(run, base);
      SortedTail(run, n);
      k := ItemKeys(hash, run[n..], base, j - 1);
      k := k + n;
    }
  }

  ghost predicate InTreeOrder(items: seq<TreeItem>) {
    forall i, j :: 0 <= i < j < |items| ==> Less(TreeKey(items[i]), TreeKey(items[j]))
  }

  /** Head of the first entry against that of any entry outside its own line. */
  lemma FirstHead(run: seq<IndexEntry>, base: Path, n: nat, k: nat)
    requires AllUnder(run, base) && IndexOk(run) && run != [] && n == LineLength(run, base) <= k < |run|
    ensures Less(Head(run[0].name, base), Head(run[k].name, base))
  {
    var a, b := run[0].name, run[k].name;
    HeadIsPrefix(a, base);
    HeadIsPrefix(b, base);
    if InSubdirectory(a, base) {
      var s := SubBase(base, Component(a, base));
      InOwnSubdirectory(a, base);
      RunIsUnder(run, s);
      UnderIn(run[n..], s, run[k]);
      assert run[k] == run[n..][k - n];
      if InSubdirectory(b, base) {
        InOwnSubdirectory(b, base);
      }
      if Head(a, base) == Head(b, base) {
        SameHead(a, b, base);
      }
    } else if Head(a, base) == Head(b, base) {
      SameHead(a, b, base);
    }
    assert Less(a, b);
    HeadOrder(a, b, base);
  }

  lemma SameHead(a: Path, b: Path, base: Path)
    requires HasBase(a, base) && HasBase(b, base) && Head(a, base) == Head(b, base)
    ensures InSubdirectory(a, base) == InSubdirectory(b, base)
    ensures if InSubdirectory(a, base) then Component(a, base) == Component(b, base) else a == b
  {
    HeadTells(a, base, Head(a, base));
    HeadTells(b, base, Head(b, base));
  }

  lemma HeadTells(a: Path, base: Path, h: string)
    requires HasBase(a, base) && h == Head(a, base)
    ensures h != "" && (InSubdirectory(a, base) <==> h[|h| - 1] == '/')
    ensures if InSubdirectory(a, base) then h[..|h| - 1] == Component(a, base) else a == base + h
  {
    HeadIsPrefix(a, base);
  }

  /** Walking the sorted index emits every level in tree order. */
  lemma {:induction false} ItemsInTreeOrder(hash: Hash, run: seq<IndexEntry>, base: Path)
    requires AllUnder(run, base) && IndexOk(run)
    ensures InTreeOrder(Items(hash, run, base))
    decreases |run|
  {
    if run != [] {
      var items, n := Items(hash, run, base), LineLength(run, base);
      SortedTail(run, n);
      ItemsInTreeOrder(hash, run[n..], base);
      ItemsUnfold(hash, run, base);
      forall j | 0 < j < |items|
        ensures Less(TreeKey(items[0]), TreeKey(items[j]))
      {
        var k := ItemKeys(hash, run[n..], base, j - 1);
        FirstHead(run, base, n, n + k);
      }
    }
  }
}
