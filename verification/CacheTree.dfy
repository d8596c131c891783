/**
 The cache tree: for every directory of the index the number of its entries and the id of
 its tree object, or a mark that these are not known.  Editing a path invalidates the nodes
 above it; updating recomputes only what is invalid.
 */
module CacheTrees {
  import opened IndexSpec

  // entryCount < 0: invalid, oid means nothing
  datatype CacheTree = CacheTree(entryCount: int, oid: Oid, down: seq<Sub>)

  // count and used are scratch space of an update
  datatype Sub = Sub(name: string, tree: CacheTree, count: nat, used: bool)

  const EmptyTree := CacheTree(-1, 0, [])

  // ---- subtrees by name: shorter names first ----

  function ByteCmp(a: string, b: string): int
    requires |a| == |b|
  {
    if a == [] then 0
    else if a[0] < b[0] then -1
    else if a[0] > b[0] then 1
    else ByteCmp(a[1..], b[1..])
  }

  function NameCmp(a: string, b: string): int {
    if |a| < |b| then -1 else if |b| < |a| then 1 else ByteCmp(a, b)
  }

  lemma {:induction false} ByteCmpOrder(a: string, b: string, c: string)
    requires |a| == |b| == |c|
    ensures ByteCmp(a, b) == 0 <==> a == b
    ensures ByteCmp(a, b) < 0 <==> ByteCmp(b, a) > 0
    ensures ByteCmp(a, b) < 0 && ByteCmp(b, c) < 0 ==> ByteCmp(a, c) < 0
  {
    if a != [] {
      ByteCmpOrder(a[1..], b[1..], c[1..]);
      assert a == [a[0]] + a[1..] && b == [b[0]] + b[1..];
    }
  }

  lemma NameOrder(a: string, b: string, c: string)
    ensures NameCmp(a, b) == 0 <==> a == b
    ensures NameCmp(a, b) < 0 <==> NameCmp(b, a) > 0
    ensures NameCmp(a, b) < 0 && NameCmp(b, c) < 0 ==> NameCmp(a, c) < 0
  {
    if |a| == |b| == |c| {
      ByteCmpOrder(a, b, c);
    } else if |a| == |b| {
      ByteCmpOrder(a, b, a);
    }
  }

  ghost predicate SortedDown(down: seq<Sub>) {
    forall i, j :: 0 <= i < j < |down| ==> NameCmp(down[i].name, down[j].name) < 0
  }

  lemma DistinctNames(down: seq<Sub>, i: nat, j: nat)
    requires SortedDown(down) && i < |down| && j < |down| && down[i].name == down[j].name
    ensures i == j
  {
    NameOrder(down[i].name, down[j].name, down[i].name);
  }

  /** Where the subtree is, or -1 - the place where it would go. */
  method SubtreePos(down: seq<Sub>, name: string) returns (pos: int)
    requires SortedDown(down)
    ensures pos >= 0 ==> pos < |down| && down[pos].name == name
    ensures pos < 0 ==> -pos - 1 <= |down|
    ensures pos < 0 ==> forall i :: 0 <= i < -pos - 1 ==> NameCmp(down[i].name, name) < 0
    ensures pos < 0 ==> forall i :: -pos - 1 <= i < |down| ==> NameCmp(name, down[i].name) < 0
  {
    var lo, hi := 0, |down|;
    while lo < hi
      invariant 0 <= lo <= hi <= |down|
      invariant forall i :: 0 <= i < lo ==> NameCmp(down[i].name, name) < 0
      invariant forall i :: hi <= i < |down| ==> NameCmp(name, down[i].name) < 0
    {
      var mi := lo + (hi - lo) / 2;
      var cmp := NameCmp(name, down[mi].name);
      NameOrder(name, down[mi].name, name);
      if cmp == 0 {
        return mi;
      }
      if cmp < 0 {
        forall i | mi <= i < |down|
          ensures NameCmp(name, down[i].name) < 0
        {
          NameOrder(name, down[mi].name, down[i].name);
        }
        hi := mi;
      } else {
        forall i | 0 <= i <= mi
          ensures NameCmp(down[i].name, name) < 0
        {
          NameOrder(down[i].name, down[mi].name, name);
          NameOrder(down[mi].name, name, name);
        }
        lo := mi + 1;
      }
    }
    return -lo - 1;
  }

  ghost predicate Named(down: seq<Sub>, name: string) {
    exists i :: 0 <= i < |down| && down[i].name == name
  }

  lemma NotNamed(down: seq<Sub>, name: string, pos: int)
    requires 0 <= pos <= |down|
    requires forall i :: 0 <= i < pos ==> NameCmp(down[i].name, name) < 0
    requires forall i :: pos <= i < |down| ==> NameCmp(name, down[i].name) < 0
    ensures !Named(down, name)
  {
    NameOrder(name, name, name);
  }

  /** The position of the subtree, which is added, invalid, if it is not there. */
  method FindOrCreate(down: seq<Sub>, name: string) returns (down': seq<Sub>, pos: nat)
    requires SortedDown(down)
    ensures SortedDown(down') && pos < |down'| && down'[pos].name == name
    ensures down' == down || (pos <= |down| && down' == down[..pos] + [Sub(name, EmptyTree, 0, false)] + down[pos..]
                              && !Named(down, name))
  {
    var p := SubtreePos(down, name);
    if p >= 0 {
      return down, p;
    }
    pos := -p - 1;
    NotNamed(down, name, pos);
    down' := down[..pos] + [Sub(name, EmptyTree, 0, false)] + down[pos..];
  }

  // ---- agreement with the index ----

  ghost predicate PathsOk(es: seq<IndexEntry>) {
    forall i :: 0 <= i < |es| ==> PathOk(es[i].name)
  }

  /** The id of the tree for the directory base of the index. */
  function DirOid(hash: Hash, whole: seq<IndexEntry>, base: Path): Oid
    requires PathsOk(whole)
  {
    UnderAllUnder(whole, base);
    TreeOid(hash, Under(whole, base), base)
  }

  /** A valid node has the count and the id that the index gives, and valid subtrees. */
  ghost predicate NodeAgrees(hash: Hash, it: CacheTree, whole: seq<IndexEntry>, base: Path)
    requires PathsOk(whole)
  {
    it.entryCount >= 0 ==>
      && it.entryCount == |Under(whole, base)| && it.oid == DirOid(hash, whole, base)
      && forall s :: s in it.down ==> s.tree.entryCount >= 0
  }

  /** Every node of the tree agrees with the index. */
  ghost predicate Agrees(hash: Hash, it: CacheTree, whole: seq<IndexEntry>, base: Path)
    requires PathsOk(whole)
    decreases it
  {
    NodeAgrees(hash, it, whole, base) && SortedDown(it.down) && DownAgrees(hash, it.down, whole, base)
  }

  ghost predicate DownAgrees(hash: Hash, down: seq<Sub>, whole: seq<IndexEntry>, base: Path)
    requires PathsOk(whole)
    decreases down
  {
    forall s :: s in down ==> '/' !in s.name && Agrees(hash, s.tree, whole, SubBase(base, s.name))
  }

  // ---- edits ----

  /** The lists are the same but for the entry of path p, which may have come, gone or changed. */
  ghost predicate Edited(whole: seq<IndexEntry>, whole': seq<IndexEntry>, p: Path) {
    exists n, x, y :: EditedAt(whole, whole', p, n, x, y)
  }

  ghost predicate EditedAt(whole: seq<IndexEntry>, whole': seq<IndexEntry>, p: Path, n: int, x: seq<IndexEntry>,
                           y: seq<IndexEntry>) {
    && 0 <= n && n + |x| <= |whole| && |x| <= 1 && |y| <= 1
    && (forall e :: e in x || e in y ==> e.name == p)
    && whole == whole[..n] + x + whole[n + |x|..] && whole' == whole[..n] + y + whole[n + |x|..]
  }

  /** An edit leaves alone the directories p is not under. */
  lemma EditElsewhere(whole: seq<IndexEntry>, whole': seq<IndexEntry>, p: Path, base: Path)
    requires Edited(whole, whole', p) && !HasBase(p, base)
    ensures Under(whole', base) == Under(whole, base)
  {
    var n, x, y :| EditedAt(whole, whole', p, n, x, y);
    var a, c := whole[..n], whole[n + |x|..];
    UnderAll(x, base, false);
    UnderAll(y, base, false);
    UnderConcat(a + x, c, base);
    UnderConcat(a, x, base);
    UnderConcat(a + y, c, base);
    UnderConcat(a, y, base);
  }

  lemma {:induction false} AgreesElsewhere(hash: Hash, it: CacheTree, whole: seq<IndexEntry>, whole': seq<IndexEntry>,
                                           p: Path, base: Path)
    requires PathsOk(whole) && PathsOk(whole') && Edited(whole, whole', p) && !HasBase(p, base)
    requires Agrees(hash, it, whole, base)
    ensures Agrees(hash, it, whole', base)
    decreases it
  {
    EditElsewhere(whole, whole', p, base);
    forall s | s in it.down
      ensures Agrees(hash, s.tree, whole', SubBase(base, s.name))
    {
      if HasBase(p, SubBase(base, s.name)) {
        DeeperIsUnder(p, base, s.name);
      }
      AgreesElsewhere(hash, s.tree, whole, whole', p, SubBase(base, s.name));
    }
  }

  lemma DeeperIsUnder(p: Path, base: Path, name: string)
    requires HasBase(p, SubBase(base, name))
    ensures HasBase(p, base)
  {
    assert SubBase(base, name)[..|base|] == base;
    assert p[..|base|] == p[..|SubBase(base, name)|][..|base|];
  }

  /** The edited path lies in one subdirectory at most. */
  lemma OneSubdirectory(p: Path, base: Path, name: string)
    requires HasBase(p, base) && '/' !in name
    ensures HasBase(p, SubBase(base, name)) ==> InSubdirectory(p, base) && name == Component(p, base)
  {
    if HasBase(p, SubBase(base, name)) {
      SubBaseComponent(p, base, name);
    }
  }

  lemma {:induction false} SlashShift(base: Path, path: Path, i: nat)
    requires i <= |path|
    ensures SlashFrom(base + path, |base| + i) == |base| + SlashFrom(path, i)
    decreases |path| - i
  {
    if i < |path| && path[i] != '/' {
      SlashShift(base, path, i + 1);
    }
  }

  lemma PathParts(base: Path, path: Path)
    requires PathOk(path)
    ensures HasBase(base + path, base)
    ensures InSubdirectory(base + path, base) <==> SlashFrom(path, 0) < |path|
    ensures Component(base + path, base) == path[..SlashFrom(path, 0)]
  {
    SlashShift(base, path, 0);
    Appended(base, path, base + path, SlashFrom(path, 0));
  }

  lemma Appended(base: Path, path: Path, name: Path, k: nat)
    requires name == base + path && k <= |path|
    ensures name[..|base|] == base && name[|base|..|base| + k] == path[..k]
  {
  }

  lemma PathRest(base: Path, path: Path, k: nat)
    requires PathOk(path) && k < |path| && path[k] == '/'
    ensures PathOk(path[k + 1..]) && SubBase(base, path[..k]) + path[k + 1..] == base + path
  {
    assert path == path[..k] + ['/'] + path[k + 1..];
  }

  lemma NoneOnTheWay(down: seq<Sub>, p: Path, base: Path)
    requires HasBase(p, base) && (forall s :: s in down ==> '/' !in s.name)
    requires InSubdirectory(p, base) ==> !Named(down, Component(p, base))
    ensures forall s :: s in down ==> !HasBase(p, SubBase(base, s.name))
  {
    forall s | s in down
      ensures !HasBase(p, SubBase(base, s.name))
    {
      OneSubdirectory(p, base, s.name);
    }
  }

  /** Subtrees p is not under may be kept; others must be shown to agree with the new index. */
  lemma DownKept(hash: Hash, down: seq<Sub>, down': seq<Sub>, whole: seq<IndexEntry>, whole': seq<IndexEntry>,
                 p: Path, base: Path)
    requires PathsOk(whole) && PathsOk(whole') && Edited(whole, whole', p) && DownAgrees(hash, down, whole, base)
    requires forall s :: s in down' ==>
      (s in down && !HasBase(p, SubBase(base, s.name)))
        || ('/' !in s.name && Agrees(hash, s.tree, whole', SubBase(base, s.name)))
    ensures DownAgrees(hash, down', whole', base)
  {
    forall s | s in down'
      ensures '/' !in s.name && Agrees(hash, s.tree, whole', SubBase(base, s.name))
    {
      if s in down && !HasBase(p, SubBase(base, s.name)) {
        AgreesElsewhere(hash, s.tree, whole, whole', p, SubBase(base, s.name));
      }
    }
  }

  /** Invalidates every node on the way to path (relative to it), and drops a subtree in its place. */
  method DoInvalidatePath(hash: Hash, it: CacheTree, path: Path, ghost whole: seq<IndexEntry>,
                          ghost whole': seq<IndexEntry>, ghost base: Path)
    returns (it': CacheTree)
    requires PathsOk(whole) && PathsOk(whole') && Edited(whole, whole', base + path) && PathOk(path)
    requires Agrees(hash, it, whole, base)
    ensures Agrees(hash, it', whole', base) && it'.entryCount < 0
    decreases it
  {
    ghost var p := base + path;
    PathParts(base, path);
    var slash := SlashFrom(path, 0);
    var name := path[..slash];
    var pos := SubtreePos(it.down, name);
    var down := it.down;
    if slash == |path| {
      if pos >= 0 {
        down := it.down[..pos] + it.down[pos + 1..];
      }
      NoneOnTheWay(down, p, base);
      DownKept(hash, it.down, down, whole, whole', p, base);
    } else if pos >= 0 {
      PathRest(base, path, slash);
      var tree := DoInvalidatePath(hash, it.down[pos].tree, path[slash + 1..], whole, whole', SubBase(base, name));
      down := it.down[pos := it.down[pos].(tree := tree)];
      InvalidatedDown(hash, it.down, down, whole, whole', base, p, pos);
    } else {
      NotNamed(it.down, name, -pos - 1);
      NoneOnTheWay(down, p, base);
      DownKept(hash, it.down, down, whole, whole', p, base);
    }
    it' := CacheTree(-1, it.oid, down);
  }

  lemma InvalidatedDown(hash: Hash, down: seq<Sub>, down': seq<Sub>, whole: seq<IndexEntry>, whole': seq<IndexEntry>,
                        base: Path, p: Path, pos: nat)
    requires PathsOk(whole) && PathsOk(whole') && Edited(whole, whole', p) && DownAgrees(hash, down, whole, base)
      && SortedDown(down)
    requires HasBase(p, base) && pos < |down| == |down'| && down[pos].name == Component(p, base)
    requires forall i :: 0 <= i < |down| && i != pos ==> down'[i] == down[i]
    requires down'[pos].name == down[pos].name && Agrees(hash, down'[pos].tree, whole', SubBase(base, down[pos].name))
    ensures DownAgrees(hash, down', whole', base)
  {
    forall i | 0 <= i < |down'| && i != pos
      ensures down'[i] in down && !HasBase(p, SubBase(base, down'[i].name))
    {
      OneSubdirectory(p, base, down[i].name);
      if down[i].name == Component(p, base) {
        DistinctNames(down, i, pos);
      }
    }
    assert down[pos] in down;
    DownKept(hash, down, down', whole, whole', p, base);
  }

  // ---- the groups of a run ----

  /** Entry i starts a new file or subdirectory of base. */
  ghost predicate Boundary(cache: seq<IndexEntry>, base: Path, i: nat) {
    0 < i < |cache| && HasBase(cache[i].name, base) && InSubdirectory(cache[i].name, base) ==>
      !HasBase(cache[i - 1].name, SubBase(base, Component(cache[i].name, base)))
  }

  lemma BoundaryAfterFile(cache: seq<IndexEntry>, base: Path, i: nat)
    requires i < |cache| && HasBase(cache[i].name, base) && !InSubdirectory(cache[i].name, base)
    requires i + 1 < |cache| ==> PathOk(cache[i + 1].name)
    ensures Boundary(cache, base, i + 1)
  {
    if i + 1 < |cache| && HasBase(cache[i + 1].name, base) && InSubdirectory(cache[i + 1].name, base) {
      InOwnSubdirectory(cache[i + 1].name, base);
      OneSubdirectory(cache[i].name, base, Component(cache[i + 1].name, base));
    }
  }

  lemma BoundaryAfterGroup(cache: seq<IndexEntry>, base: Path, comp: string, i: nat)
    requires 0 < i <= |cache| && '/' !in comp && HasBase(cache[i - 1].name, SubBase(base, comp))
    requires i < |cache| ==> PathOk(cache[i].name) && !HasBase(cache[i].name, SubBase(base, comp))
    ensures Boundary(cache, base, i)
  {
    if i < |cache| && HasBase(cache[i].name, base) && InSubdirectory(cache[i].name, base) {
      InOwnSubdirectory(cache[i].name, base);
      SubBaseComponent(cache[i - 1].name, base, comp);
      OneSubdirectory(cache[i - 1].name, base, Component(cache[i].name, base));
    }
  }

  /** whole is the index, cache the part of it an update looks at for base. */
  ghost predicate Within(whole: seq<IndexEntry>, pre: seq<IndexEntry>, cache: seq<IndexEntry>, base: Path) {
    && IndexOk(whole) && PathsOk(whole) && whole == pre + cache && PathsOk(cache)
    && Under(pre, base) == [] && (cache != [] ==> HasBase(cache[0].name, base))
  }

  lemma RunOfBase(whole: seq<IndexEntry>, pre: seq<IndexEntry>, cache: seq<IndexEntry>, base: Path)
    requires Within(whole, pre, cache, base)
    ensures Under(whole, base) == cache[..RunLength(cache, base)]
  {
    UnderConcat(pre, cache, base);
    SortedTail(whole, |pre|);
    assert cache == whole[|pre|..];
    RunIsUnder(cache, base);
  }

  lemma SplitAt(pre: seq<IndexEntry>, cache: seq<IndexEntry>, i: nat)
    requires i <= |cache|
    ensures pre + cache == (pre + cache[..i]) + cache[i..]
  {
  }

  /** At a boundary the subdirectory's entries begin, and all of them follow. */
  lemma GroupOfComponent(whole: seq<IndexEntry>, pre: seq<IndexEntry>, cache: seq<IndexEntry>, base: Path, i: nat,
                         comp: string)
    requires Within(whole, pre, cache, base) && i < |cache| && Boundary(cache, base, i)
    requires HasBase(cache[i].name, base) && InSubdirectory(cache[i].name, base)
      && comp == Component(cache[i].name, base)
    ensures '/' !in comp && Within(whole, pre + cache[..i], cache[i..], SubBase(base, comp))
  {
    var s := SubBase(base, comp);
    assert cache[i] == whole[|pre| + i];
    InOwnSubdirectory(cache[i].name, base);
    SplitAt(pre, cache, i);
    UnderNoneDeeper(pre, base, comp);
    SortedTail(whole, |pre|);
    assert cache == whole[|pre|..];
    NoneBefore(cache, i, s);
    UnderConcat(pre, cache[..i], s);
  }

  lemma NextGroup(cache: seq<IndexEntry>, base: Path, i: nat, comp: string)
    requires PathsOk(cache) && i < |cache| && '/' !in comp && HasBase(cache[i].name, SubBase(base, comp))
    ensures 0 < RunLength(cache[i..], SubBase(base, comp))
      && Boundary(cache, base, i + RunLength(cache[i..], SubBase(base, comp)))
    ensures forall j ::
      i <= j < i + RunLength(cache[i..], SubBase(base, comp)) ==> HasBase(cache[j].name, SubBase(base, comp))
  {
    var n := RunLength(cache[i..], SubBase(base, comp));
    var t := cache[i..];
    assert forall j :: i <= j < |cache| ==> cache[j] == t[j - i];
    BoundaryAfterGroup(cache, base, comp, i + n);
  }

  lemma {:induction false} UnderNoneDeeper(es: seq<IndexEntry>, base: Path, comp: string)
    requires Under(es, base) == []
    ensures Under(es, SubBase(base, comp)) == []
  {
    if es != [] {
      if HasBase(es[0].name, SubBase(base, comp)) {
        DeeperIsUnder(es[0].name, base, comp);
      }
      UnderNoneDeeper(es[1..], base, comp);
    }
  }

  // ---- updating ----

  /** Subtrees marked used are up to date, with their number of entries noted. */
  ghost predicate UsedAreFresh(down: seq<Sub>) {
    forall s :: s in down && s.used ==> s.tree.entryCount >= 0 && s.count == s.tree.entryCount
  }

  /** The subdirectories of the first i entries have used subtrees. */
  ghost predicate Covered(down: seq<Sub>, cache: seq<IndexEntry>, base: Path, i: nat)
    requires i <= |cache|
  {
    forall j :: 0 <= j < i && HasBase(cache[j].name, base) && InSubdirectory(cache[j].name, base) ==>
      Used(down, Component(cache[j].name, base))
  }

  ghost predicate Used(down: seq<Sub>, name: string) {
    exists k :: 0 <= k < |down| && down[k].name == name && down[k].used
  }

  method ClearUsed(down: seq<Sub>) returns (down': seq<Sub>)
    ensures |down'| == |down|
    ensures forall k :: 0 <= k < |down| ==> down'[k] == down[k].(used := false)
  {
    down' := [];
    var i := 0;
    while i < |down|
      invariant 0 <= i <= |down| && |down'| == i
      invariant forall k :: 0 <= k < i ==> down'[k] == down[k].(used := false)
    {
      down' := down' + [down[i].(used := false)];
      i := i + 1;
    }
  }

  function KeepUsed(down: seq<Sub>): seq<Sub> {
    if down == [] then []
    else KeepUsed(down[..|down| - 1]) + if down[|down| - 1].used then [down[|down| - 1]] else []
  }

  lemma {:induction false} KeepUsedKeeps(down: seq<Sub>, s: Sub)
    ensures s in KeepUsed(down) <==> s in down && s.used
  {
    if down != [] {
      KeepUsedKeeps(down[..|down| - 1], s);
      assert down == down[..|down| - 1] + [down[|down| - 1]];
    }
  }

  lemma {:induction false} KeepUsedSorted(down: seq<Sub>)
    requires SortedDown(down)
    ensures SortedDown(KeepUsed(down))
  {
    if down != [] {
      var rest := down[..|down| - 1];
      KeepUsedSorted(rest);
      forall k | 0 <= k < |KeepUsed(rest)|
        ensures NameCmp(KeepUsed(rest)[k].name, down[|down| - 1].name) < 0
      {
        KeepUsedKeeps(rest, KeepUsed(rest)[k]);
      }
    }
  }

  /** Drops the subtrees not used, keeping the order of the others. */
  method DiscardUnused(down: seq<Sub>) returns (down': seq<Sub>)
    requires SortedDown(down)
    ensures SortedDown(down')
    ensures forall s :: s in down' <==> s in down && s.used
  {
    down' := [];
    var src := 0;
    while src < |down|
      invariant 0 <= src <= |down| && down' == KeepUsed(down[..src])
    {
      assert down[..src + 1][..src] == down[..src];
      if down[src].used {
        down' := down' + [down[src]];
      }
      src := src + 1;
    }
    assert down[..src] == down;
    KeepUsedSorted(down);
    forall s ensures s in down' <==> s in down && s.used {
      KeepUsedKeeps(down, s);
    }
  }

  /** The subtrees agree with the index, and those of the first i entries are up to date. */
  ghost predicate DownUpTo(hash: Hash, down: seq<Sub>, whole: seq<IndexEntry>, base: Path, cache: seq<IndexEntry>,
                           i: nat)
    requires PathsOk(whole)
  {
    i <= |cache| && SortedDown(down) && DownAgrees(hash, down, whole, base) && UsedAreFresh(down)
      && Covered(down, cache, base, i)
  }

  /** down with the subtree at pos replaced by an up-to-date one of the same name. */
  lemma Replaced(hash: Hash, down: seq<Sub>, pos: nat, sub: Sub, whole: seq<IndexEntry>, base: Path,
                 cache: seq<IndexEntry>, i: nat)
    requires PathsOk(whole) && DownUpTo(hash, down, whole, base, cache, i)
    requires pos < |down| && sub.name == down[pos].name && sub.used && sub.tree.entryCount >= 0
      && sub.count == sub.tree.entryCount
    requires Agrees(hash, sub.tree, whole, SubBase(base, sub.name))
    ensures var down' := down[pos := sub]; DownUpTo(hash, down', whole, base, cache, i) && Used(down', sub.name)
  {
    var down' := down[pos := sub];
    assert down[pos] in down && down'[pos] == sub;
    assert forall s :: s in down' ==> s == sub || s in down;
    forall name | Used(down, name)
      ensures Used(down', name)
    {
      var k :| 0 <= k < |down| && down[k].name == name && down[k].used;
      assert down'[k].name == name && down'[k].used;
    }
  }

  lemma Created(hash: Hash, down: seq<Sub>, pos: nat, name: string, whole: seq<IndexEntry>, base: Path,
                cache: seq<IndexEntry>, i: nat)
    requires PathsOk(whole) && DownAgrees(hash, down, whole, base) && UsedAreFresh(down) && i <= |cache|
      && Covered(down, cache, base, i)
    requires pos <= |down| && '/' !in name
    ensures var down' := down[..pos] + [Sub(name, EmptyTree, 0, false)] + down[pos..];
      DownAgrees(hash, down', whole, base) && UsedAreFresh(down') && Covered(down', cache, base, i)
  {
    var down' := down[..pos] + [Sub(name, EmptyTree, 0, false)] + down[pos..];
    assert forall s :: s in down' ==> s == Sub(name, EmptyTree, 0, false) || s in down;
    forall n | Used(down, n)
      ensures Used(down', n)
    {
      var k :| 0 <= k < |down| && down[k].name == n && down[k].used;
      assert down'[if k < pos then k else k + 1] == down[k];
    }
  }

  /** The subtree of that name, new if there is none. */
  method PlaceFor(hash: Hash, down: seq<Sub>, name: string, ghost whole: seq<IndexEntry>, ghost base: Path,
                  ghost cache: seq<IndexEntry>, ghost i: nat)
    returns (down': seq<Sub>, pos: nat)
    requires PathsOk(whole) && DownUpTo(hash, down, whole, base, cache, i) && '/' !in name
    ensures DownUpTo(hash, down', whole, base, cache, i) && pos < |down'| && down'[pos].name == name
    ensures Agrees(hash, down'[pos].tree, whole, SubBase(base, name))
  {
    down', pos := FindOrCreate(down, name);
    if down' != down {
      Created(hash, down, pos, name, whole, base, cache, i);
    }
    assert down'[pos] in down';
  }

  /** How many entries are in the subdirectory the i-th entry is in. */
  lemma GroupLength(whole: seq<IndexEntry>, pre: seq<IndexEntry>, cache: seq<IndexEntry>, base: Path, i: nat,
                    name: string, n: nat)
    requires i <= |cache| && Within(whole, pre + cache[..i], cache[i..], SubBase(base, name))
      && n == |Under(whole, SubBase(base, name))|
    requires PathsOk(cache) && i < |cache| && '/' !in name
    ensures 0 < n && i + n <= |cache| && Boundary(cache, base, i + n)
    ensures forall j :: i <= j < i + n ==> HasBase(cache[j].name, SubBase(base, name))
  {
    RunOfBase(whole, pre + cache[..i], cache[i..], SubBase(base, name));
    assert cache[i..][0] == cache[i];
    NextGroup(cache, base, i, name);
  }

  /** The subdirectory the i-th entry is in. */
  method UpdateSubtree(hash: Hash, down: seq<Sub>, cache: seq<IndexEntry>, i: nat, base: Path,
                       ghost whole: seq<IndexEntry>, ghost pre: seq<IndexEntry>)
    returns (down': seq<Sub>, n: nat)
    requires Within(whole, pre, cache, base) && i < |cache| && Boundary(cache, base, i)
    requires HasBase(cache[i].name, base) && InSubdirectory(cache[i].name, base)
      && DownUpTo(hash, down, whole, base, cache, i)
    ensures 0 < n && i + n <= |cache| && Boundary(cache, base, i + n)
      && (forall j :: i <= j < i + n ==> HasBase(cache[j].name, base))
    ensures DownUpTo(hash, down', whole, base, cache, i + n)
    decreases |cache| - i, |cache[i].name| - |base|, 0
  {
    var name := Component(cache[i].name, base);
    GroupOfComponent(whole, pre, cache, base, i, name);
    var pos;
    down', pos := PlaceFor(hash, down, name, whole, base, cache, i);
    var tree;
    tree, n := UpdateOne(hash, down'[pos].tree, cache[i..], base + name + "/", whole, pre + cache[..i]);
    GroupLength(whole, pre, cache, base, i, name, n);
    var sub := Sub(name, tree, n, true);
    Replaced(hash, down', pos, sub, whole, base, cache, i);
    down' := down'[pos := sub];
    CoveredGroup(hash, down', whole, cache, base, i, n, name);
  }

  lemma CoveredGroup(hash: Hash, down: seq<Sub>, whole: seq<IndexEntry>, cache: seq<IndexEntry>, base: Path, i: nat,
                     n: nat, comp: string)
    requires PathsOk(whole) && i + n <= |cache| && DownUpTo(hash, down, whole, base, cache, i) && Used(down, comp)
      && '/' !in comp
    requires forall j :: i <= j < i + n ==> HasBase(cache[j].name, SubBase(base, comp))
    ensures DownUpTo(hash, down, whole, base, cache, i + n) && forall j ::
      i <= j < i + n ==> HasBase(cache[j].name, base)
  {
    forall j | i <= j < i + n
      ensures HasBase(cache[j].name, base) && InSubdirectory(cache[j].name, base)
        && Component(cache[j].name, base) == comp
    {
      SubBaseComponent(cache[j].name, base, comp);
    }
  }

  /** The first i entries of the run have been looked at, their subdirectories are up to date. */
  ghost predicate Updating(hash: Hash, down: seq<Sub>, whole: seq<IndexEntry>, cache: seq<IndexEntry>, base: Path,
                           i: nat)
    requires PathsOk(whole)
  {
    && i <= |cache| && Boundary(cache, base, i) && (forall j :: 0 <= j < i ==> HasBase(cache[j].name, base))
    && DownUpTo(hash, down, whole, base, cache, i)
  }

  lemma FilePassed(hash: Hash, down: seq<Sub>, whole: seq<IndexEntry>, cache: seq<IndexEntry>, base: Path, i: nat)
    requires PathsOk(whole) && PathsOk(cache) && Updating(hash, down, whole, cache, base, i)
    requires i < |cache| && HasBase(cache[i].name, base) && !InSubdirectory(cache[i].name, base)
    ensures Updating(hash, down, whole, cache, base, i + 1)
  {
    BoundaryAfterFile(cache, base, i);
  }

  lemma GroupPassed(hash: Hash, down: seq<Sub>, down': seq<Sub>, whole: seq<IndexEntry>, cache: seq<IndexEntry>,
                    base: Path, i: nat, n: nat)
    requires PathsOk(whole) && Updating(hash, down, whole, cache, base, i)
    requires i + n <= |cache| && Boundary(cache, base, i + n)
      && (forall j :: i <= j < i + n ==> HasBase(cache[j].name, base))
    requires DownUpTo(hash, down', whole, base, cache, i + n)
    ensures Updating(hash, down', whole, cache, base, i + n)
  {
  }

  method UpdateEntry(hash: Hash, down: seq<Sub>, cache: seq<IndexEntry>, i: nat, base: Path,
                     ghost whole: seq<IndexEntry>, ghost pre: seq<IndexEntry>)
    returns (down': seq<Sub>, i': nat)
    requires Within(whole, pre, cache, base) && i < |cache| && HasBase(cache[i].name, base)
      && Updating(hash, down, whole, cache, base, i)
    ensures i < i' && Updating(hash, down', whole, cache, base, i')
    decreases |cache| - i, |cache[i].name| - |base|, 1
  {
    if !InSubdirectory(cache[i].name, base) {
      FilePassed(hash, down, whole, cache, base, i);
      down', i' := down, i + 1;
    } else {
      var n;
      down', n := UpdateSubtree(hash, down, cache, i, base, whole, pre);
      i' := i + n;
      GroupPassed(hash, down, down', whole, cache, base, i, n);
    }
  }

  /** The first loop of an update: all subdirectories of the run. */
  method UpdateSubtrees(hash: Hash, down: seq<Sub>, cache: seq<IndexEntry>, base: Path, ghost whole: seq<IndexEntry>,
                        ghost pre: seq<IndexEntry>)
    returns (down': seq<Sub>)
    requires Within(whole, pre, cache, base)
    requires SortedDown(down) && DownAgrees(hash, down, whole, base) && forall s :: s in down ==> !s.used
    ensures SortedDown(down') && DownAgrees(hash, down', whole, base) && UsedAreFresh(down')
    ensures Covered(down', cache, base, RunLength(cache, base))
    decreases |cache|, if cache == [] then 0 else |cache[0].name| - |base|, 2
  {
    down' := down;
    var i := 0;
    while i < |cache| && HasBase(cache[i].name, base)
      invariant Updating(hash, down', whole, cache, base, i)
    {
      down', i := UpdateEntry(hash, down', cache, i, base, whole, pre);
    }
    RunLengthIs(cache, base, i);
  }

  lemma {:induction false} RunLengthIs(cache: seq<IndexEntry>, base: Path, i: nat)
    requires i <= |cache| && (forall j :: 0 <= j < i ==> HasBase(cache[j].name, base))
      && (i < |cache| ==> !HasBase(cache[i].name, base))
    ensures RunLength(cache, base) == i
  {
  }

  /** All subtrees are used and up to date. */
  ghost predicate AllFresh(down: seq<Sub>) {
    forall s :: s in down ==> s.tree.entryCount >= 0 && s.count == s.tree.entryCount
  }

  lemma ItemsOfGroup(hash: Hash, run: seq<IndexEntry>, base: Path, comp: string, n: nat, group: seq<IndexEntry>,
                     rest: seq<IndexEntry>)
    requires AllUnder(run, base) && run != [] && InSubdirectory(run[0].name, base)
      && comp == Component(run[0].name, base)
    requires n == RunLength(run, SubBase(base, comp)) && group == run[..n] && rest == run[n..]
    requires AllUnder(group, SubBase(base, comp)) && AllUnder(rest, base) && n > 0
    ensures Items(hash, run, base) == [TreeItem(DIRECTORY, comp, TreeOid(hash, group, SubBase(base, comp)))] +
      Items(hash, rest, base)
  {
  }

  /** From a boundary on, the entries of the subdirectory there are the next ones. */
  lemma GroupIsNext(whole: seq<IndexEntry>, pre: seq<IndexEntry>, cache: seq<IndexEntry>, base: Path, i: nat, i2: nat,
                    r: nat, comp: string, s: Path)
    requires Within(whole, pre, cache, base) && r == RunLength(cache, base) && i < r && Boundary(cache, base, i)
    requires InSubdirectory(cache[i].name, base) && comp == Component(cache[i].name, base)
    requires s == SubBase(base, comp) && i2 == i + |Under(whole, s)|
    ensures i < i2 <= r && Boundary(cache, base, i2) && i2 - i == RunLength(cache[i..r], s)
      && Under(whole, s) == cache[i..i2]
  {
    GroupOfComponent(whole, pre, cache, base, i, comp);
    RunOfBase(whole, pre + cache[..i], cache[i..], s);
    NextGroup(cache, base, i, comp);
    var n := RunLength(cache[i..], s);
    GroupInRun(cache, base, comp, i, n, r);
    Slices(cache, i, n, r);
    RunLengthIn(cache, s, i, n, r);
  }

  lemma Slices(cache: seq<IndexEntry>, i: nat, n: nat, r: nat)
    requires i + n <= r <= |cache|
    ensures cache[i..][..n] == cache[i..i + n] && cache[i..r][..n] == cache[i..i + n]
      && cache[i..r][n..] == cache[i + n..r]
  {
  }

  lemma RunLengthIn(cache: seq<IndexEntry>, s: Path, i: nat, n: nat, r: nat)
    requires i + n <= r <= |cache| && n == RunLength(cache[i..], s)
    ensures n == RunLength(cache[i..r], s)
  {
    var t, u := cache[i..], cache[i..r];
    assert forall j :: 0 <= j < |u| ==> u[j] == t[j];
    RunLengthIs(u, s, n);
  }

  /** The tree lines of the entries from i up to r. */
  ghost function Lines(hash: Hash, cache: seq<IndexEntry>, base: Path, i: nat, r: nat): seq<TreeItem>
    requires i <= r <= |cache| && AllUnder(cache[i..r], base)
  {
    Items(hash, cache[i..r], base)
  }

  /** item is the tree line for the entries from i up to i2. */
  ghost predicate IsLine(hash: Hash, item: TreeItem, cache: seq<IndexEntry>, base: Path, i: nat, i2: nat, r: nat) {
    && i < i2 <= r <= |cache| && AllUnder(cache[i..r], base) && AllUnder(cache[i2..r], base)
    && Lines(hash, cache, base, i, r) == [item] + Lines(hash, cache, base, i2, r)
  }

  /** The tree line of a subdirectory, from its cached subtree, is what the index gives. */
  lemma SubtreeLine(hash: Hash, item: TreeItem, n: nat, whole: seq<IndexEntry>, pre: seq<IndexEntry>,
                    cache: seq<IndexEntry>, base: Path, i: nat, r: nat)
    requires Within(whole, pre, cache, base) && r == RunLength(cache, base) && i < r && Boundary(cache, base, i)
      && AllUnder(cache[i..r], base)
    requires PathsOk(whole) && HasBase(cache[i].name, base) && InSubdirectory(cache[i].name, base)
      && item.mode == DIRECTORY && item.name == Component(cache[i].name, base)
    requires n == |Under(whole, SubBase(base, item.name))| && item.oid == DirOid(hash, whole, SubBase(base, item.name))
    ensures Boundary(cache, base, i + n) && IsLine(hash, item, cache, base, i, i + n, r)
  {
    var s, i2 := SubBase(base, item.name), i + n;
    GroupIsNext(whole, pre, cache, base, i, i2, r, item.name, s);
    LineOfGroup(hash, item, whole, cache, base, i, i2, r, s);
  }

  lemma LineOfGroup(hash: Hash, item: TreeItem, whole: seq<IndexEntry>, cache: seq<IndexEntry>, base: Path, i: nat,
                    i2: nat, r: nat, s: Path)
    requires PathsOk(whole) && i < i2 <= r <= |cache| && AllUnder(cache[i..r], base)
    requires HasBase(cache[i].name, base) && InSubdirectory(cache[i].name, base) && s == SubBase(base, item.name)
    requires item.mode == DIRECTORY && item.name == Component(cache[i].name, base) && item.oid == DirOid(hash, whole, s)
    requires i2 - i == RunLength(cache[i..r], s) && Under(whole, s) == cache[i..i2]
    ensures IsLine(hash, item, cache, base, i, i2, r)
  {
    var n := i2 - i;
    Slices(cache, i, n, r);
    UnderAllUnder(whole, s);
    AllUnderRest(cache[i..r], base, n);
    assert cache[i..r][0] == cache[i];
    LineOfRun(hash, item, cache[i..r], cache[i..i2], cache[i2..r], base, s, n);
  }

  /** The same of a run, its first group and the rest. */
  lemma LineOfRun(hash: Hash, item: TreeItem, run: seq<IndexEntry>, group: seq<IndexEntry>, rest: seq<IndexEntry>,
                  base: Path, s: Path, n: nat)
    requires AllUnder(run, base) && run != [] && InSubdirectory(run[0].name, base)
      && item.name == Component(run[0].name, base)
    requires s == SubBase(base, item.name) && 0 < n == RunLength(run, s) && group == run[..n] && rest == run[n..]
    requires AllUnder(group, s) && AllUnder(rest, base) && item.mode == DIRECTORY && item.oid == TreeOid(hash, group, s)
    ensures Items(hash, run, base) == [item] + Items(hash, rest, base)
  {
    ItemsOfGroup(hash, run, base, item.name, n, group, rest);
  }

  lemma AllUnderRest(run: seq<IndexEntry>, base: Path, n: nat)
    requires AllUnder(run, base) && n <= |run|
    ensures AllUnder(run[n..], base)
  {
  }

  lemma GroupInRun(cache: seq<IndexEntry>, base: Path, comp: string, i: nat, n: nat, r: nat)
    requires r == RunLength(cache, base) && i < r && i + n <= |cache| && '/' !in comp
    requires forall j :: i <= j < i + n ==> HasBase(cache[j].name, SubBase(base, comp))
    ensures i + n <= r
  {
    if r < i + n {
      SubBaseComponent(cache[r].name, base, comp);
    }
  }

  lemma FileLine(hash: Hash, cache: seq<IndexEntry>, base: Path, i: nat, r: nat)
    requires i < r <= |cache| && AllUnder(cache[i..r], base) && HasBase(cache[i].name, base)
      && !InSubdirectory(cache[i].name, base)
    ensures IsLine(hash, TreeItem(cache[i].mode, cache[i].name[|base|..], cache[i].oid), cache, base, i, i + 1, r)
  {
    assert cache[i..r][0] == cache[i];
    Slices(cache, i, 1, r);
    AllUnderRest(cache[i..r], base, 1);
  }

  /** The lines written so far, followed by those of the rest, are the lines of the whole run. */
  ghost predicate WrittenTo(hash: Hash, buffer: seq<TreeItem>, cache: seq<IndexEntry>, base: Path, i: nat, r: nat) {
    && i <= r <= |cache| && AllUnder(cache[i..r], base) && AllUnder(cache[0..r], base)
    && buffer + Lines(hash, cache, base, i, r) == Lines(hash, cache, base, 0, r)
  }

  lemma WrittenLine(hash: Hash, buffer: seq<TreeItem>, cache: seq<IndexEntry>, base: Path, i: nat, r: nat,
                    item: TreeItem, i': nat)
    requires WrittenTo(hash, buffer, cache, base, i, r) && IsLine(hash, item, cache, base, i, i', r)
    ensures WrittenTo(hash, buffer + [item], cache, base, i', r)
  {
    assert buffer + ([item] + Lines(hash, cache, base, i', r)) == (buffer + [item]) + Lines(hash, cache, base, i', r);
  }

  lemma SubtreeWritten(hash: Hash, buffer: seq<TreeItem>, item: TreeItem, n: nat, whole: seq<IndexEntry>,
                       pre: seq<IndexEntry>, cache: seq<IndexEntry>, base: Path, i: nat, r: nat,
                         buffer': seq<TreeItem>, i': nat)
    requires buffer' == buffer + [item] && i' == i + n && PathsOk(whole)
    requires Within(whole, pre, cache, base) && r == RunLength(cache, base) && i < r && Boundary(cache, base, i)
    requires HasBase(cache[i].name, base) && InSubdirectory(cache[i].name, base)
    requires item.mode == DIRECTORY && item.name == Component(cache[i].name, base)
    requires n == |Under(whole, SubBase(base, item.name))| && item.oid == DirOid(hash, whole, SubBase(base, item.name))
    requires WrittenTo(hash, buffer, cache, base, i, r)
    ensures i < i' <= r && Boundary(cache, base, i') && WrittenTo(hash, buffer', cache, base, i', r)
  {
    SubtreeLine(hash, item, n, whole, pre, cache, base, i, r);
    WrittenLine(hash, buffer, cache, base, i, r, item, i + n);
  }

  method FindSubtree(hash: Hash, down: seq<Sub>, comp: string, ghost whole: seq<IndexEntry>, ghost base: Path)
    returns (sub: Sub)
    requires PathsOk(whole) && SortedDown(down) && DownAgrees(hash, down, whole, base) && AllFresh(down)
      && Used(down, comp)
    ensures sub.name == comp && sub.count == |Under(whole, SubBase(base, comp))|
      && sub.tree.oid == DirOid(hash, whole, SubBase(base, comp))
  {
    var pos := SubtreePos(down, comp);
    if pos < 0 {
      NotNamed(down, comp, -pos - 1);
      assert false;
    }
    sub := down[pos];
    assert sub in down;
  }

  /** The line of a subdirectory, taken from its subtree. */
  method WriteSubtreeLine(hash: Hash, down: seq<Sub>, buffer: seq<TreeItem>, cache: seq<IndexEntry>, base: Path, i: nat,
                          ghost r: nat, ghost whole: seq<IndexEntry>, ghost pre: seq<IndexEntry>)
    returns (buffer': seq<TreeItem>, i': nat)
    requires Within(whole, pre, cache, base) && r == RunLength(cache, base) && i < r && Boundary(cache, base, i)
    requires SortedDown(down) && DownAgrees(hash, down, whole, base) && AllFresh(down) && Covered(down, cache, base, r)
    requires InSubdirectory(cache[i].name, base) && WrittenTo(hash, buffer, cache, base, i, r)
    ensures i < i' <= r && Boundary(cache, base, i') && WrittenTo(hash, buffer', cache, base, i', r)
  {
    var comp := Component(cache[i].name, base);
    var sub := FindSubtree(hash, down, comp, whole, base);
    var item := TreeItem(DIRECTORY, comp, sub.tree.oid);
    buffer', i' := buffer + [item], i + sub.count;
    SubtreeWritten(hash, buffer, item, sub.count, whole, pre, cache, base, i, r, buffer', i');
  }

  /** One line of the tree object; skips the entries it stands for. */
  method WriteLine(hash: Hash, down: seq<Sub>, buffer: seq<TreeItem>, cache: seq<IndexEntry>, base: Path, i: nat,
                   ghost r: nat, ghost whole: seq<IndexEntry>, ghost pre: seq<IndexEntry>)
    returns (buffer': seq<TreeItem>, i': nat)
    requires Within(whole, pre, cache, base) && r == RunLength(cache, base) && i < r && Boundary(cache, base, i)
    requires SortedDown(down) && DownAgrees(hash, down, whole, base) && AllFresh(down) && Covered(down, cache, base, r)
    requires WrittenTo(hash, buffer, cache, base, i, r)
    ensures i < i' <= r && Boundary(cache, base, i') && WrittenTo(hash, buffer', cache, base, i', r)
  {
    if InSubdirectory(cache[i].name, base) {
      buffer', i' := WriteSubtreeLine(hash, down, buffer, cache, base, i, r, whole, pre);
    } else {
      BoundaryAfterFile(cache, base, i);
      FileLine(hash, cache, base, i, r);
      var item := TreeItem(cache[i].mode, cache[i].name[|base|..], cache[i].oid);
      buffer', i' := buffer + [item], i + 1;
      WrittenLine(hash, buffer, cache, base, i, r, item, i');
    }
  }

  /** The second loop of an update: the tree object's lines, subdirectories from the cache. */
  method WriteLevel(hash: Hash, down: seq<Sub>, cache: seq<IndexEntry>, base: Path, ghost whole: seq<IndexEntry>,
                    ghost pre: seq<IndexEntry>)
    returns (buffer: seq<TreeItem>, i: nat)
    requires Within(whole, pre, cache, base)
    requires SortedDown(down) && DownAgrees(hash, down, whole, base) && AllFresh(down)
      && Covered(down, cache, base, RunLength(cache, base))
    ensures i == RunLength(cache, base) && AllUnder(cache[..i], base) && buffer == Items(hash, cache[..i], base)
  {
    ghost var r := RunLength(cache, base);
    buffer, i := [], 0;
    assert cache[0..r] == cache[..r] && AllUnder(cache[..r], base);
    assert buffer + Lines(hash, cache, base, 0, r) == Lines(hash, cache, base, 0, r);
    while i < |cache| && HasBase(cache[i].name, base)
      invariant i <= r && Boundary(cache, base, i) && WrittenTo(hash, buffer, cache, base, i, r)
    {
      buffer, i := WriteLine(hash, down, buffer, cache, base, i, r, whole, pre);
    }
    assert cache[i..r] == [];
  }

  /** Recomputes the node, and below it whatever is invalid; n is the number of entries it covers. */
  method UpdateOne(hash: Hash, it: CacheTree, cache: seq<IndexEntry>, base: Path, ghost whole: seq<IndexEntry>,
                   ghost pre: seq<IndexEntry>)
    returns (it': CacheTree, n: nat)
    requires Within(whole, pre, cache, base) && Agrees(hash, it, whole, base)
    ensures Agrees(hash, it', whole, base) && it'.entryCount == n == |Under(whole, base)|
    decreases |cache|, if cache == [] then 0 else |cache[0].name| - |base|, 3
  {
    if 0 <= it.entryCount {
      return it, it.entryCount;
    }
    var down := ClearUsed(it.down);
    down := UpdateSubtrees(hash, down, cache, base, whole, pre);
    down := DiscardUnused(down);
    RunOfBase(whole, pre, cache, base);
    var items;
    items, n := WriteLevel(hash, down, cache, base, whole, pre);
    it' := CacheTree(n, hash(items), down);
  }

  // ---- the index and its cache tree over time ----

  datatype Option<+T> = None | Some(value: T)

  /** a is a file where b needs a directory. */
  predicate Conflict(a: Path, b: Path) { |a| < |b| && b[..|a|] == a && b[|a|] == '/' }

  /** At the root, the whole index is one run. */
  lemma RootIsWithin(entries: seq<IndexEntry>)
    requires IndexOk(entries)
    ensures Within(entries, [], entries, "") && Under(entries, "") == entries && AllUnder(entries, "")
  {
    UnderAll(entries, "", true);
    assert entries == [] + entries;
  }

  class IndexState {
    const hash: Hash
    var entries: seq<IndexEntry>
    var tree: Option<CacheTree>

    /** Whatever the cache tree claims to know is what the index says. */
    ghost predicate Valid()
      reads this
    {
      IndexOk(entries) && (tree.Some? ==> Agrees(hash, tree.value, entries, ""))
    }

    constructor (hash: Hash)
      ensures Valid() && entries == [] && tree == None && this.hash == hash
    {
      this.hash, entries, tree := hash, [], None;
    }

    /** An entry comes, goes or changes, and its path is invalidated. */
    method Edit(entries': seq<IndexEntry>, path: Path)
      requires Valid() && IndexOk(entries') && PathOk(path) && Edited(entries, entries', path)
      modifies this
      ensures Valid() && entries == entries' && (tree.Some? <==> old(tree).Some?)
      ensures tree.Some? ==> tree.value.entryCount < 0
    {
      if tree.Some? {
        assert "" + path == path;
        var t := DoInvalidatePath(hash, tree.value, path, entries, entries', "");
        tree := Some(t);
      }
      entries := entries';
    }

    /** The check made before a tree is written: no file directly before a path under it. */
    method VerifyCache() returns (ok: bool)
      ensures ok <==> forall i :: 0 <= i < |entries| - 1 ==> !Conflict(entries[i].name, entries[i + 1].name)
    {
      var i := 0;
      while i + 1 < |entries|
        invariant 0 <= i && forall j ::
          0 <= j < i && j < |entries| - 1 ==> !Conflict(entries[j].name, entries[j + 1].name)
      {
        if Conflict(entries[i].name, entries[i + 1].name) {
          return false;
        }
        i := i + 1;
      }
      return true;
    }

    /** Afterwards the root has the count and the id that hashing the whole index from scratch gives. */
    method CacheTreeUpdate() returns (ok: bool)
      requires Valid()
      modifies this`tree
      ensures Valid()
      ensures ok <==> forall i :: 0 <= i < |entries| - 1 ==> !Conflict(entries[i].name, entries[i + 1].name)
      ensures !ok ==> tree == old(tree)
      ensures ok ==>
        tree.Some? && tree.value.entryCount == |entries| && AllUnder(entries, "")
          && tree.value.oid == TreeOid(hash, entries, "")
    {
      ok := VerifyCache();
      if !ok {
        return;
      }
      if tree.None? {
        tree := Some(EmptyTree);
      }
      RootIsWithin(entries);
      var t, n := UpdateOne(hash, tree.value, entries, "", entries, []);
      tree := Some(t);
    }
  }

  /** The check looks at neighbours only: with a-b in between, a file a and a path under a pass it. */
  lemma VerifyMissesConflict()
    ensures var es := [IndexEntry("a", 1, 1), IndexEntry("a-b", 1, 1), IndexEntry("a/c", 1, 1)];
      && IndexOk(es) && Conflict(es[0].name, es[2].name)
      && forall i :: 0 <= i < |es| - 1 ==> !Conflict(es[i].name, es[i + 1].name)
  {
    assert DiffersAt("a-b", "a/c", 1);
    assert "a-b"[..1] == "a" && "a/c"[..1] == "a";
  }

  /** b goes on from a with a character that sorts before the slash. */
  predicate SortsBeforeSlash(a: Path, b: Path) { |a| < |b| && b[..|a|] == a && b[|a|] < '/' }

  /** A file in the way of a directory is noticed exactly if the entry after it does not push in between. */
  lemma ConflictSeen(es: seq<IndexEntry>, i: nat, j: nat)
    requires IndexOk(es) && i < j < |es| && Conflict(es[i].name, es[j].name)
    ensures Conflict(es[i].name, es[i + 1].name) <==> !SortsBeforeSlash(es[i].name, es[i + 1].name)
  {
    var a, z, c := es[i].name, es[i + 1].name, es[j].name;
    assert Less(a, z) && (z == c || Less(z, c));
    if !(|a| < |z| && a == z[..|a|]) {
      var k :| DiffersAt(a, z, k) && a[k] < z[k];
      assert c[..k] == c[..|a|][..k] == a[..k] && c[k] == c[..|a|][k] == a[k];
      LessAtDifference(z, c, k);
    } else if z[|a|] > '/' {
      LessAtDifference(z, c, |a|);
    }
  }
}
