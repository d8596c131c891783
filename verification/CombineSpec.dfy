/**
 What a combined diff keeps for every result line, how each parent changes it, and when the
 parents can be rebuilt from it.
 */
module CombineSpec {
  import opened LineMerge

  // one line of the result, with the lines lost before it: those of the parents folded so far,
  // and those of the current one; pLno holds a line number for each parent
  datatype SLine = SLine(lost: seq<Lost>, plost: seq<Lost>, text: string, flag: set<nat>, pLno: map<nat, nat>)

  // parent lines [a, a + |lost|) are replaced by the result lines [b, b + added)
  datatype Hunk = Hunk(a: nat, lost: seq<string>, b: nat, added: nat)

  /** The hunks turn the parent's lines from a on into the result's from b on; lines between hunks are common. */
  ghost predicate IsDiff(parent: seq<string>, result: seq<string>, hunks: seq<Hunk>, a: nat, b: nat)
    requires a <= |parent| && b <= |result|
    decreases |hunks|
  {
    if hunks == [] then parent[a..] == result[b..]
    else
      var h := hunks[0];
      && a <= h.a && b <= h.b && h.a - a == h.b - b && h.a + |h.lost| <= |parent| && h.b + h.added <= |result|
      && parent[a..h.a] == result[b..h.b] && parent[h.a..h.a + |h.lost|] == h.lost
      && IsDiff(parent, result, hunks[1..], h.a + |h.lost|, h.b + h.added)
  }

  /** The hunks end within the result. */
  ghost predicate Fit(hunks: seq<Hunk>, cnt: nat) {
    forall i :: 0 <= i < |hunks| ==> hunks[i].b + hunks[i].added <= cnt
  }

  lemma {:induction false} DiffFits(parent: seq<string>, result: seq<string>, hunks: seq<Hunk>, a: nat, b: nat)
    requires a <= |parent| && b <= |result| && IsDiff(parent, result, hunks, a, b)
    ensures Fit(hunks, |result|)
    decreases |hunks|
  {
    if hunks != [] {
      DiffFits(parent, result, hunks[1..], hunks[0].a + |hunks[0].lost|, hunks[0].b + hunks[0].added);
      assert forall i :: 0 < i < |hunks| ==> hunks[i] == hunks[1..][i - 1];
    }
  }

  // ---- rebuilding a parent ----

  function Own(s: SLine, n: nat, inFile: bool): seq<string> { if inFile && n !in s.flag then [s.text] else [] }

  /** What parent n had at result line k: lost lines with its bit, and the line itself unless n does not have it. */
  function Part(slines: seq<SLine>, cnt: nat, n: nat, k: nat): seq<string>
    requires k < |slines|
  {
    LinesOf(slines[k].lost, n) + Own(slines[k], n, k < cnt)
  }

  /** The lines of parent n before result line k. */
  function Rebuilt(slines: seq<SLine>, cnt: nat, n: nat, k: nat): seq<string>
    requires k <= |slines|
  {
    if k == 0 then [] else Rebuilt(slines, cnt, n, k - 1) + Part(slines, cnt, n, k - 1)
  }

  function PendingPart(slines: seq<SLine>, cnt: nat, n: nat, k: nat): seq<string>
    requires k < |slines|
  {
    Texts(slines[k].plost) + Own(slines[k], n, k < cnt)
  }

  /** The same while the lines lost from n are still kept apart. */
  function Pending(slines: seq<SLine>, cnt: nat, n: nat, k: nat): seq<string>
    requires k <= |slines|
  {
    if k == 0 then [] else Pending(slines, cnt, n, k - 1) + PendingPart(slines, cnt, n, k - 1)
  }

  ghost predicate NumberedAt(slines: seq<SLine>, cnt: nat, n: nat, k: nat) {
    k < |slines| && n in slines[k].pLno && slines[k].pLno[n] == 1 + |Rebuilt(slines, cnt, n, k)|
  }

  ghost predicate Numbered(slines: seq<SLine>, cnt: nat, n: nat) {
    forall k :: 0 <= k < |slines| ==> NumberedAt(slines, cnt, n, k)
  }

  /** Parent n can be rebuilt, and every result line knows its place in it. */
  ghost predicate Folded(slines: seq<SLine>, cnt: nat, n: nat, parent: seq<string>) {
    |slines| == cnt + 2 && Rebuilt(slines, cnt, n, cnt + 1) == parent && Numbered(slines, cnt, n)
  }

  // ---- what folding in a parent does ----

  function LostFrom(lines: seq<string>, n: nat): seq<Lost> {
    seq(|lines|, i requires 0 <= i < |lines| => Lost(lines[i], {n}))
  }

  /** The result line whose number the hunk's header sets, and that number. */
  function HeaderLine(h: Hunk): nat { if h.added == 0 && h.b > 0 then h.b - 1 else h.b }

  function HeaderNumber(h: Hunk): nat { if h.lost == [] then h.a else h.a + 1 }

  /** Result line l after a hunk of the diff from parent n. */
  function FedLine(s: SLine, n: nat, h: Hunk, l: nat): SLine {
    SLine(s.lost, if l == h.b then s.plost + LostFrom(h.lost, n) else s.plost, s.text,
          if h.b <= l < h.b + h.added then s.flag + {n} else s.flag,
          if l == HeaderLine(h) then s.pLno[n := HeaderNumber(h)] else s.pLno)
  }

  function FedHunk(s: seq<SLine>, n: nat, h: Hunk): seq<SLine> {
    seq(|s|, l requires 0 <= l < |s| => FedLine(s[l], n, h, l))
  }

  function FedAll(s: seq<SLine>, n: nat, hunks: seq<Hunk>): seq<SLine>
    decreases |hunks|
  {
    if hunks == [] then s else FedAll(FedHunk(s, n, hunks[0]), n, hunks[1..])
  }

  /** The pending lines coalesced into those lost before; a match sets these bits. */
  function CoalescedLine(s: SLine, bits: set<nat>): SLine {
    s.(lost := Merge(s.lost, s.plost, bits), plost := [])
  }

  function Coalesced(s: seq<SLine>, cnt: nat, bits: set<nat>): seq<SLine> {
    seq(|s|, k requires 0 <= k < |s| => if k <= cnt then CoalescedLine(s[k], bits) else s[k])
  }

  function NumberedLine(s: SLine, n: nat, p: nat): SLine { s.(pLno := s.pLno[n := p]) }

  /** Every line gets the number of the parent's line it stands at. */
  function Renumbered(s: seq<SLine>, cnt: nat, n: nat): seq<SLine> {
    seq(|s|, k requires 0 <= k < |s| => NumberedLine(s[k], n, 1 + |Rebuilt(s, cnt, n, k)|))
  }

  function FoldOne(s: seq<SLine>, cnt: nat, n: nat, hunks: seq<Hunk>, bits: set<nat>): seq<SLine> {
    Renumbered(Coalesced(FedAll(s, n, hunks), cnt, bits), cnt, n)
  }

  /** Parents that are the same share their lost lines. */
  function Share(lost: seq<Lost>, i: nat, j: nat): seq<Lost> {
    seq(|lost|, k requires 0 <= k < |lost| =>
        if j in lost[k].parents then lost[k].(parents := lost[k].parents + {i}) else lost[k])
  }

  /** A number that was never set is 0. */
  function NumberOf(s: SLine, j: nat): nat { if j in s.pLno then s.pLno[j] else 0 }

  function ShareLine(s: SLine, i: nat, j: nat): SLine {
    SLine(Share(s.lost, i, j), s.plost, s.text, if j in s.flag then s.flag + {i} else s.flag,
          s.pLno[i := NumberOf(s, j)])
  }

  /** Parent i takes over what parent j has; the line behind the last one only has numbers. */
  function ShareAll(s: seq<SLine>, cnt: nat, i: nat, j: nat): seq<SLine> {
    seq(|s|, k requires 0 <= k < |s| =>
        if k <= cnt then ShareLine(s[k], i, j) else NumberedLine(s[k], i, NumberOf(s[k], j)))
  }

  // ---- all parents ----

  function Blank(result: seq<string>): seq<SLine> {
    seq(|result| + 2, k => SLine([], [], if 0 <= k < |result| then result[k] else "", {}, map[]))
  }

  /** The first parent from j on that is the same as parent i. */
  function SameBefore(parents: seq<seq<string>>, i: nat, j: nat): nat
    requires j <= i < |parents|
    decreases i - j
  {
    if j == i || parents[j] == parents[i] then j else SameBefore(parents, i, j + 1)
  }

  /** The result lines with the first k parents folded in, by their diffs unless an earlier parent is the same. */
  function Combined(result: seq<string>, parents: seq<seq<string>>, diffs: seq<seq<Hunk>>, shift: Shift, k: nat)
    : seq<SLine>
    requires k <= |parents| == |diffs|
  {
    if k == 0 then Blank(result)
    else
      var s, j := Combined(result, parents, diffs, shift, k - 1), SameBefore(parents, k - 1, 0);
      if j < k - 1 then ShareAll(s, |result|, k - 1, j)
      else FoldOne(s, |result|, k - 1, diffs[k - 1], shift(k - 1))
  }

  /** A result with its parents and the diffs from them. */
  ghost predicate Family(result: seq<string>, parents: seq<seq<string>>, diffs: seq<seq<Hunk>>) {
    |diffs| == |parents| && forall i :: 0 <= i < |parents| ==> IsDiff(parents[i], result, diffs[i], 0, 0)
  }

  ghost predicate AllRebuilt(slines: seq<SLine>, cnt: nat, parents: seq<seq<string>>) {
    forall i :: 0 <= i < |parents| ==> Folded(slines, cnt, i, parents[i])
  }

  // ---- a diff fed in ----

  /** One result line differs from another only in what belongs to parent n. */
  ghost predicate Alike(s: SLine, s': SLine, n: nat) {
    && s'.lost == s.lost && s'.text == s.text
    && (forall q :: q != n ==> (q in s'.flag <==> q in s.flag))
    && (forall q :: q != n && q in s.pLno ==> q in s'.pLno && s'.pLno[q] == s.pLno[q])
  }

  ghost predicate AllAlike(slines: seq<SLine>, slines': seq<SLine>, n: nat) {
    |slines'| == |slines| && forall k :: 0 <= k < |slines| ==> Alike(slines[k], slines'[k], n)
  }

  ghost predicate Untouched(slines: seq<SLine>, n: nat) {
    forall k :: 0 <= k < |slines| ==> NoneFrom(slines[k].lost, n) && n !in slines[k].flag
  }

  ghost predicate TextsAre(slines: seq<SLine>, result: seq<string>) {
    |slines| >= |result| && forall l :: 0 <= l < |result| ==> slines[l].text == result[l]
  }

  /** After the hunks up to parent line a and result line b: what is pending is the parent so far. */
  ghost predicate Fed(slines: seq<SLine>, cnt: nat, n: nat, parent: seq<string>, a: nat, b: nat) {
    && |slines| == cnt + 2 && b <= cnt && a <= |parent|
    && Pending(slines, cnt, n, b) + Texts(slines[b].plost) == parent[..a]
    && (forall l :: b < l < |slines| ==> slines[l].plost == [])
    && (forall l :: b <= l < |slines| ==> n !in slines[l].flag)
    && (forall l :: 0 <= l < |slines| ==> OnlyFrom(slines[l].plost, n))
  }

  ghost predicate SamePending(slines: seq<SLine>, slines': seq<SLine>, n: nat, l: nat) {
    && l < |slines| && l < |slines'| && slines'[l].plost == slines[l].plost && slines'[l].text == slines[l].text
    && (n in slines'[l].flag <==> n in slines[l].flag)
  }

  lemma {:induction false} PendingSame(slines: seq<SLine>, slines': seq<SLine>, cnt: nat, n: nat, k: nat)
    requires k <= |slines| && k <= |slines'| && forall l :: 0 <= l < k ==> SamePending(slines, slines', n, l)
    ensures Pending(slines', cnt, n, k) == Pending(slines, cnt, n, k)
  {
    if k > 0 {
      PendingSame(slines, slines', cnt, n, k - 1);
      assert SamePending(slines, slines', n, k - 1);
    }
  }

  lemma FedCommonLine(slines: seq<SLine>, cnt: nat, n: nat, parent: seq<string>, a: nat, b: nat)
    requires Fed(slines, cnt, n, parent, a, b) && a < |parent| && b < cnt && parent[a] == slines[b].text
    ensures Fed(slines, cnt, n, parent, a + 1, b + 1)
  {
    assert parent[..a + 1] == parent[..a] + [parent[a]];
    assert Pending(slines, cnt, n, b + 1) + [] == parent[..a + 1];
  }

  /** Common lines: both files move on. */
  lemma {:induction false} FedCommon(slines: seq<SLine>, cnt: nat, n: nat, parent: seq<string>, result: seq<string>,
                                     a: nat, b: nat, d: nat)
    requires Fed(slines, cnt, n, parent, a, b) && a + d <= |parent| && b + d <= cnt == |result|
    requires parent[a..a + d] == result[b..b + d] && TextsAre(slines, result)
    ensures Fed(slines, cnt, n, parent, a + d, b + d)
    decreases d
  {
    if d > 0 {
      assert parent[a] == parent[a..a + d][0] == result[b];
      assert parent[a + 1..a + d] == parent[a..a + d][1..] && result[b + 1..b + d] == result[b..b + d][1..];
      FedCommonLine(slines, cnt, n, parent, a, b);
      FedCommon(slines, cnt, n, parent, result, a + 1, b + 1, d - 1);
    }
  }

  ghost predicate AddedAt(slines: seq<SLine>, n: nat, l: nat) {
    l + 1 < |slines| && n in slines[l].flag && slines[l + 1].plost == []
  }

  /** Result lines that the parent does not have, with nothing lost between them. */
  lemma {:induction false} PendingAdded(slines: seq<SLine>, cnt: nat, n: nat, b: nat, d: nat)
    requires b + d < |slines| && forall l :: b <= l < b + d ==> AddedAt(slines, n, l)
    ensures Pending(slines, cnt, n, b + d) + Texts(slines[b + d].plost) ==
      Pending(slines, cnt, n, b) + Texts(slines[b].plost)
    decreases d
  {
    if d > 0 {
      PendingAdded(slines, cnt, n, b, d - 1);
      assert AddedAt(slines, n, b + d - 1);
      assert PendingPart(slines, cnt, n, b + d - 1) == Texts(slines[b + d - 1].plost);
    }
  }

  lemma LostTexts(plost: seq<Lost>, lines: seq<string>, n: nat)
    ensures Texts(plost + LostFrom(lines, n)) == Texts(plost) + lines
    ensures OnlyFrom(plost, n) ==> OnlyFrom(plost + LostFrom(lines, n), n)
  {
  }

  lemma HunkBefore(s: seq<SLine>, s': seq<SLine>, cnt: nat, n: nat, h: Hunk)
    requires h.b <= |s| && s' == FedHunk(s, n, h)
    ensures Pending(s', cnt, n, h.b) == Pending(s, cnt, n, h.b)
  {
    forall l | 0 <= l < h.b
      ensures SamePending(s, s', n, l)
    {
    }
    PendingSame(s, s', cnt, n, h.b);
  }

  lemma HunkAfter(s: seq<SLine>, s': seq<SLine>, cnt: nat, n: nat, h: Hunk, b': nat)
    requires b' == h.b + h.added < |s| && s' == FedHunk(s, n, h) && forall l :: h.b < l < |s| ==> s[l].plost == []
    ensures Pending(s', cnt, n, b') + Texts(s'[b'].plost) == Pending(s', cnt, n, h.b) + Texts(s'[h.b].plost)
  {
    forall l | h.b <= l < b'
      ensures AddedAt(s', n, l)
    {
      LineAdded(s, s', n, h, l);
    }
    PendingAdded(s', cnt, n, h.b, h.added);
  }

  lemma LineAdded(s: seq<SLine>, s': seq<SLine>, n: nat, h: Hunk, l: nat)
    requires s' == FedHunk(s, n, h) && h.b <= l < h.b + h.added && l + 1 < |s| && s[l + 1].plost == []
    ensures AddedAt(s', n, l)
  {
  }

  lemma HunkPending(s: seq<SLine>, s': seq<SLine>, cnt: nat, n: nat, h: Hunk, b': nat)
    requires |s| == cnt + 2 && b' == h.b + h.added <= cnt && forall l :: h.b < l < |s| ==> s[l].plost == []
    requires s' == FedHunk(s, n, h)
    ensures Pending(s', cnt, n, b') + Texts(s'[b'].plost) == Pending(s, cnt, n, h.b) + (Texts(s[h.b].plost) + h.lost)
  {
    HunkBefore(s, s', cnt, n, h);
    HunkAfter(s, s', cnt, n, h, b');
    LostTexts(s[h.b].plost, h.lost, n);
    assert s'[h.b].plost == s[h.b].plost + LostFrom(h.lost, n);
  }

  /** A hunk moves both files on. */
  lemma FedByHunk(s: seq<SLine>, s': seq<SLine>, cnt: nat, n: nat, parent: seq<string>, h: Hunk, a': nat, b': nat)
    requires Fed(s, cnt, n, parent, h.a, h.b) && b' == h.b + h.added <= cnt && a' == h.a + |h.lost| <= |parent|
    requires parent[h.a..a'] == h.lost && s' == FedHunk(s, n, h)
    ensures Fed(s', cnt, n, parent, a', b')
  {
    HunkSpells(s, s', cnt, n, parent, h, a', b');
    LostTexts(s[h.b].plost, h.lost, n);
  }

  lemma HunkSpells(s: seq<SLine>, s': seq<SLine>, cnt: nat, n: nat, parent: seq<string>, h: Hunk, a': nat, b': nat)
    requires |s| == cnt + 2 && b' == h.b + h.added <= cnt && a' == h.a + |h.lost| <= |parent|
    requires Pending(s, cnt, n, h.b) + Texts(s[h.b].plost) == parent[..h.a] && parent[h.a..a'] == h.lost
    requires s' == FedHunk(s, n, h) && forall l :: h.b < l < |s| ==> s[l].plost == []
    ensures Pending(s', cnt, n, b') + Texts(s'[b'].plost) == parent[..a']
  {
    HunkPending(s, s', cnt, n, h, b');
    LongerPrefix(Pending(s, cnt, n, h.b), Texts(s[h.b].plost), h.lost, parent, h.a, a');
  }

  lemma LongerPrefix(before: seq<string>, texts: seq<string>, lost: seq<string>, parent: seq<string>, a: nat, a': nat)
    requires a <= a' <= |parent| && before + texts == parent[..a] && parent[a..a'] == lost
    ensures before + (texts + lost) == parent[..a']
  {
    assert before + (texts + lost) == before + texts + lost;
    assert parent[..a'] == parent[..a] + parent[a..a'];
  }

  lemma {:induction false} FedLines(s: seq<SLine>, n: nat, hunks: seq<Hunk>)
    ensures AllAlike(s, FedAll(s, n, hunks), n)
    decreases |hunks|
  {
    if hunks != [] {
      var s' := FedHunk(s, n, hunks[0]);
      FedLines(s', n, hunks[1..]);
      forall k | 0 <= k < |s|
        ensures Alike(s[k], FedAll(s, n, hunks)[k], n)
      {
        assert Alike(s[k], s'[k], n) && Alike(s'[k], FedAll(s', n, hunks[1..])[k], n);
      }
    }
  }

  /** Between hunks: what is pending is the parent so far, and the rest of the diff is still to come. */
  ghost predicate Feeding(s: seq<SLine>, n: nat, parent: seq<string>, result: seq<string>, hunks: seq<Hunk>, a: nat,
                          b: nat) {
    && a <= |parent| && b <= |result| && IsDiff(parent, result, hunks, a, b) && TextsAre(s, result)
    && Fed(s, |result|, n, parent, a, b)
  }

  lemma HunkReached(s: seq<SLine>, n: nat, parent: seq<string>, result: seq<string>, hunks: seq<Hunk>, a: nat, b: nat)
    requires Feeding(s, n, parent, result, hunks, a, b) && hunks != []
    ensures Fed(s, |result|, n, parent, hunks[0].a, hunks[0].b)
  {
    var d := hunks[0].a - a;
    assert a + d == hunks[0].a && b + d == hunks[0].b;
    FedCommon(s, |result|, n, parent, result, a, b, d);
  }

  lemma HunkTexts(s: seq<SLine>, s': seq<SLine>, n: nat, h: Hunk, result: seq<string>)
    requires TextsAre(s, result) && s' == FedHunk(s, n, h)
    ensures TextsAre(s', result)
  {
  }

  lemma HunkFed(s: seq<SLine>, s': seq<SLine>, n: nat, parent: seq<string>, result: seq<string>, hunks: seq<Hunk>,
                a: nat, b: nat, a': nat, b': nat)
    requires Feeding(s, n, parent, result, hunks, a, b) && hunks != [] && s' == FedHunk(s, n, hunks[0])
    requires a' == hunks[0].a + |hunks[0].lost| && b' == hunks[0].b + hunks[0].added
    ensures Fed(s', |result|, n, parent, a', b')
  {
    HunkReached(s, n, parent, result, hunks, a, b);
    FedByHunk(s, s', |result|, n, parent, hunks[0], a', b');
  }

  lemma RestIsDiff(parent: seq<string>, result: seq<string>, hunks: seq<Hunk>, rest: seq<Hunk>, a: nat, b: nat,
                   a': nat, b': nat)
    requires a <= |parent| && b <= |result| && IsDiff(parent, result, hunks, a, b) && hunks != [] && rest == hunks[1..]
    requires a' == hunks[0].a + |hunks[0].lost| && b' == hunks[0].b + hunks[0].added
    ensures a' <= |parent| && b' <= |result| && IsDiff(parent, result, rest, a', b')
  {
  }

  lemma NextHunk(s: seq<SLine>, n: nat, parent: seq<string>, result: seq<string>, hunks: seq<Hunk>, a: nat, b: nat)
    returns (s': seq<SLine>, rest: seq<Hunk>, a': nat, b': nat)
    requires Feeding(s, n, parent, result, hunks, a, b) && hunks != []
    ensures Feeding(s', n, parent, result, rest, a', b')
    ensures |rest| < |hunks| && FedAll(s', n, rest) == FedAll(s, n, hunks)
  {
    s', rest := FedHunk(s, n, hunks[0]), hunks[1..];
    a', b' := hunks[0].a + |hunks[0].lost|, hunks[0].b + hunks[0].added;
    HunkFed(s, s', n, parent, result, hunks, a, b, a', b');
    RestIsDiff(parent, result, hunks, rest, a, b, a', b');
    HunkTexts(s, s', n, hunks[0], result);
  }

  lemma NoMoreHunks(s: seq<SLine>, n: nat, parent: seq<string>, result: seq<string>, a: nat, b: nat)
    requires Feeding(s, n, parent, result, [], a, b)
    ensures Fed(s, |result|, n, parent, |parent|, |result|)
  {
    var d := |result| - b;
    assert |parent[a..]| == |result[b..]| && a + d == |parent|;
    assert parent[a..a + d] == parent[a..] && result[b..b + d] == result[b..];
    FedCommon(s, |result|, n, parent, result, a, b, d);
  }

  /** After all hunks: what is pending is the parent. */
  lemma {:induction false} FedByAll(s: seq<SLine>, n: nat, parent: seq<string>, result: seq<string>, hunks: seq<Hunk>,
                                    a: nat, b: nat)
    requires Feeding(s, n, parent, result, hunks, a, b)
    ensures Fed(FedAll(s, n, hunks), |result|, n, parent, |parent|, |result|)
    decreases |hunks|
  {
    if hunks == [] {
      NoMoreHunks(s, n, parent, result, a, b);
    } else {
      var s', rest, a', b' := NextHunk(s, n, parent, result, hunks, a, b);
      FedByAll(s', n, parent, result, rest, a', b');
    }
  }

  // ---- one parent folded in ----

  ghost predicate NothingPending(slines: seq<SLine>) {
    forall k :: 0 <= k < |slines| ==> slines[k].plost == []
  }

  /** Between parents: the result's lines, and behind them only a place for line numbers. */
  ghost predicate Shaped(slines: seq<SLine>, result: seq<string>) {
    && |slines| == |result| + 2 && TextsAre(slines, result) && NothingPending(slines)
    && slines[|result| + 1].lost == [] && slines[|result| + 1].flag == {}
  }

  ghost predicate Foldable(s: SLine, n: nat) { OnlyFrom(s.plost, n) && NoneFrom(s.lost, n) }

  /** A match for parent n sets its bit, and none that another of the parents has. */
  ghost predicate OwnBit(bits: set<nat>, n: nat) {
    n in bits && forall q :: q < 32 && q != n ==> q !in bits
  }

  /** s0 with the diff of parent n fed in, and nothing of n in it before. */
  ghost predicate Loaded(s0: seq<SLine>, s: seq<SLine>, result: seq<string>, n: nat, parent: seq<string>) {
    && Shaped(s0, result) && AllAlike(s0, s, n) && Fed(s, |result|, n, parent, |parent|, |result|)
    && (forall l :: 0 <= l < |s| ==> Foldable(s[l], n))
  }

  lemma Loads(s0: seq<SLine>, result: seq<string>, n: nat, hunks: seq<Hunk>, parent: seq<string>)
    requires Shaped(s0, result) && Untouched(s0, n) && IsDiff(parent, result, hunks, 0, 0)
    ensures Loaded(s0, FedAll(s0, n, hunks), result, n, parent)
  {
    assert Fed(s0, |result|, n, parent, 0, 0) by {
      assert Texts([]) == [] && parent[..0] == [];
    }
    var s := FedAll(s0, n, hunks);
    FedByAll(s0, n, parent, result, hunks, 0, 0);
    FedLines(s0, n, hunks);
    assert forall l :: 0 <= l < |s| ==> Alike(s0[l], s[l], n);
  }

  /** The last line has nothing to coalesce, so that all lines are coalesced alike. */
  lemma CoalescedAt(s: seq<SLine>, cnt: nat, bits: set<nat>, k: nat)
    requires |s| == cnt + 2 && s[cnt + 1].plost == [] && k < |s|
    ensures Coalesced(s, cnt, bits)[k] == CoalescedLine(s[k], bits)
  {
    MergeWithNone(s[k].lost, bits);
  }

  ghost predicate FoldsIn(s: seq<SLine>, s': seq<SLine>, cnt: nat, n: nat, l: nat) {
    l < |s| && l < |s'| && Part(s', cnt, n, l) == PendingPart(s, cnt, n, l)
  }

  lemma {:induction false} RebuiltIsPending(s: seq<SLine>, s': seq<SLine>, cnt: nat, n: nat, k: nat)
    requires k <= |s| && k <= |s'| && forall l :: 0 <= l < k ==> FoldsIn(s, s', cnt, n, l)
    ensures Rebuilt(s', cnt, n, k) == Pending(s, cnt, n, k)
  {
    if k > 0 {
      RebuiltIsPending(s, s', cnt, n, k - 1);
      assert FoldsIn(s, s', cnt, n, k - 1);
    }
  }

  ghost predicate SamePart(s: seq<SLine>, s': seq<SLine>, cnt: nat, q: nat, q': nat, l: nat) {
    l < |s| && l < |s'| && Part(s', cnt, q', l) == Part(s, cnt, q, l)
  }

  lemma {:induction false} RebuiltSame(s: seq<SLine>, s': seq<SLine>, cnt: nat, q: nat, q': nat, k: nat)
    requires k <= |s| && k <= |s'| && forall l :: 0 <= l < k ==> SamePart(s, s', cnt, q, q', l)
    ensures Rebuilt(s', cnt, q', k) == Rebuilt(s, cnt, q, k)
  {
    if k > 0 {
      RebuiltSame(s, s', cnt, q, q', k - 1);
      assert SamePart(s, s', cnt, q, q', k - 1);
    }
  }

  /** Numbers do not matter for what is rebuilt; so the numbers set are those of the result. */
  lemma RenumberedRebuilt(s: seq<SLine>, cnt: nat, n: nat, q: nat, k: nat)
    requires k <= |s|
    ensures Rebuilt(Renumbered(s, cnt, n), cnt, q, k) == Rebuilt(s, cnt, q, k)
  {
    var s' := Renumbered(s, cnt, n);
    forall l | 0 <= l < k
      ensures SamePart(s, s', cnt, q, q, l)
    {
    }
    RebuiltSame(s, s', cnt, q, q, k);
  }

  lemma RenumberedIsNumbered(s: seq<SLine>, cnt: nat, n: nat)
    ensures Numbered(Renumbered(s, cnt, n), cnt, n)
  {
    forall k | 0 <= k < |s|
      ensures NumberedAt(Renumbered(s, cnt, n), cnt, n, k)
    {
      RenumberedRebuilt(s, cnt, n, n, k);
    }
  }

  lemma AllPending(s: seq<SLine>, cnt: nat, n: nat, parent: seq<string>)
    requires Fed(s, cnt, n, parent, |parent|, cnt)
    ensures Pending(s, cnt, n, cnt + 1) == parent
  {
    assert PendingPart(s, cnt, n, cnt) == Texts(s[cnt].plost);
    assert parent[..|parent|] == parent;
  }

  lemma CoalescedFoldsIn(s: seq<SLine>, cnt: nat, n: nat, bits: set<nat>, l: nat)
    requires |s| == cnt + 2 && s[cnt + 1].plost == [] && l < |s| && Foldable(s[l], n) && n in bits
    ensures FoldsIn(s, Coalesced(s, cnt, bits), cnt, n, l)
  {
    CoalescedAt(s, cnt, bits, l);
    MergeLinesOf(s[l].lost, s[l].plost, n, bits, n);
  }

  /** The parent just folded in can be rebuilt. */
  lemma FoldedNew(s0: seq<SLine>, s: seq<SLine>, result: seq<string>, n: nat, bits: set<nat>, parent: seq<string>)
    requires Loaded(s0, s, result, n, parent) && n in bits
    ensures Folded(Renumbered(Coalesced(s, |result|, bits), |result|, n), |result|, n, parent)
  {
    var cnt := |result|;
    var c := Coalesced(s, cnt, bits);
    forall l | 0 <= l < |s|
      ensures FoldsIn(s, c, cnt, n, l)
    {
      CoalescedFoldsIn(s, cnt, n, bits, l);
    }
    RebuiltIsPending(s, c, cnt, n, cnt + 1);
    AllPending(s, cnt, n, parent);
    RenumberedRebuilt(c, cnt, n, n, cnt + 1);
    RenumberedIsNumbered(c, cnt, n);
  }

  lemma CoalescedSamePart(s0: seq<SLine>, s: seq<SLine>, cnt: nat, n: nat, bits: set<nat>, q: nat, l: nat)
    requires |s| == cnt + 2 && s[cnt + 1].plost == [] && l < |s| && AllAlike(s0, s, n) && Foldable(s[l], n)
    requires n in bits && q !in bits
    ensures SamePart(s0, Renumbered(Coalesced(s, cnt, bits), cnt, n), cnt, q, q, l)
  {
    CoalescedAt(s, cnt, bits, l);
    MergeLinesOf(s[l].lost, s[l].plost, n, bits, q);
    assert Alike(s0[l], s[l], n);
  }

  lemma KeptNumber(s0: seq<SLine>, s: seq<SLine>, s': seq<SLine>, cnt: nat, n: nat, bits: set<nat>, q: nat, k: nat)
    requires |s| == cnt + 2 && k < |s| && AllAlike(s0, s, n) && q != n && NumberedAt(s0, cnt, q, k)
    requires s' == Renumbered(Coalesced(s, cnt, bits), cnt, n) && Rebuilt(s', cnt, q, k) == Rebuilt(s0, cnt, q, k)
    ensures NumberedAt(s', cnt, q, k)
  {
    assert Alike(s0[k], s[k], n);
  }

  /** Parents folded in before still can, unless a match sets their bits. */
  lemma FoldedOther(s0: seq<SLine>, s: seq<SLine>, result: seq<string>, n: nat, bits: set<nat>, parent: seq<string>,
                    q: nat, other: seq<string>)
    requires Loaded(s0, s, result, n, parent) && n in bits && q !in bits && Folded(s0, |result|, q, other)
    ensures Folded(Renumbered(Coalesced(s, |result|, bits), |result|, n), |result|, q, other)
  {
    var cnt := |result|;
    var s' := Renumbered(Coalesced(s, cnt, bits), cnt, n);
    forall l | 0 <= l < |s|
      ensures SamePart(s0, s', cnt, q, q, l)
    {
      CoalescedSamePart(s0, s, cnt, n, bits, q, l);
    }
    forall k | 0 <= k < |s|
      ensures NumberedAt(s', cnt, q, k)
    {
      RebuiltSame(s0, s', cnt, q, q, k);
      assert NumberedAt(s0, cnt, q, k);
      KeptNumber(s0, s, s', cnt, n, bits, q, k);
    }
    RebuiltSame(s0, s', cnt, q, q, cnt + 1);
  }

  lemma {:induction false} NoLinesNoneFrom(ls: seq<Lost>, q: nat)
    ensures LinesOf(ls, q) == [] <==> NoneFrom(ls, q)
  {
    if ls != [] {
      NoLinesNoneFrom(ls[..|ls| - 1], q);
    }
  }

  lemma UntouchedOther(s0: seq<SLine>, s: seq<SLine>, result: seq<string>, n: nat, bits: set<nat>, parent: seq<string>,
                       q: nat)
    requires Loaded(s0, s, result, n, parent) && n in bits && q !in bits && Untouched(s0, q)
    ensures Untouched(Renumbered(Coalesced(s, |result|, bits), |result|, n), q)
  {
    var s' := Renumbered(Coalesced(s, |result|, bits), |result|, n);
    forall k | 0 <= k < |s'|
      ensures NoneFrom(s'[k].lost, q) && q !in s'[k].flag
    {
      CoalescedAt(s, |result|, bits, k);
      assert Alike(s0[k], s[k], n);
      MergeLinesOf(s[k].lost, s[k].plost, n, bits, q);
      NoLinesNoneFrom(s'[k].lost, q);
      NoLinesNoneFrom(s0[k].lost, q);
    }
  }

  lemma ShapedNew(s0: seq<SLine>, s: seq<SLine>, result: seq<string>, n: nat, bits: set<nat>, parent: seq<string>)
    requires Loaded(s0, s, result, n, parent)
    ensures Shaped(Renumbered(Coalesced(s, |result|, bits), |result|, n), result)
  {
    var s', t := Renumbered(Coalesced(s, |result|, bits), |result|, n), |result| + 1;
    forall l | 0 <= l < |s|
      ensures s'[l].text == s0[l].text && s'[l].plost == []
    {
      assert Alike(s0[l], s[l], n);
      LineShape(s0, s, |result|, n, bits, l);
      RenumberedLine(Coalesced(s, |result|, bits), |result|, n, l);
    }
    assert Alike(s0[t], s[t], n);
    LineShape(s0, s, |result|, n, bits, t);
    RenumberedLine(Coalesced(s, |result|, bits), |result|, n, t);
  }

  lemma RenumberedLine(s: seq<SLine>, cnt: nat, n: nat, l: nat)
    requires l < |s|
    ensures var t := Renumbered(s, cnt, n)[l];
      t.text == s[l].text && t.plost == s[l].plost && t.lost == s[l].lost && t.flag == s[l].flag
  {
  }

  lemma LineShape(s0: seq<SLine>, s: seq<SLine>, cnt: nat, n: nat, bits: set<nat>, l: nat)
    requires |s| == cnt + 2 == |s0| && l < |s| && Alike(s0[l], s[l], n) && s[cnt + 1].plost == []
      && n !in s[cnt + 1].flag
    ensures var t := Coalesced(s, cnt, bits)[l];
      && t.text == s0[l].text && t.plost == []
      && (l == cnt + 1 && s0[l].flag == {} ==> t.lost == s0[l].lost && t.flag == {})
  {
  }

  // ---- a parent that is the same as another ----

  lemma {:induction false} ShareLinesOf(lost: seq<Lost>, i: nat, j: nat, q: nat)
    requires NoneFrom(lost, i) && i != j
    ensures LinesOf(Share(lost, i, j), q) == LinesOf(lost, if q == i then j else q)
  {
    if lost != [] {
      var rest := lost[..|lost| - 1];
      ShareLinesOf(rest, i, j, q);
      assert Share(lost, i, j)[..|lost| - 1] == Share(rest, i, j);
    }
  }

  /** The last line has nothing to share, so that all lines are shared alike. */
  lemma SharedAt(s: seq<SLine>, result: seq<string>, i: nat, j: nat, k: nat)
    requires Shaped(s, result) && k < |s|
    ensures ShareAll(s, |result|, i, j)[k] == ShareLine(s[k], i, j)
  {
    if k == |result| + 1 {
      assert Share(s[k].lost, i, j) == [];
    }
  }

  lemma FoldedShared(s: seq<SLine>, result: seq<string>, i: nat, j: nat, q: nat, parent: seq<string>)
    requires Shaped(s, result) && i != j && Untouched(s, i) && Folded(s, |result|, if q == i then j else q, parent)
    ensures Folded(ShareAll(s, |result|, i, j), |result|, q, parent)
  {
    var p, cnt, s' := if q == i then j else q, |result|, ShareAll(s, |result|, i, j);
    forall k | 0 <= k < |s|
      ensures SamePart(s, s', cnt, p, q, k)
    {
      SharedAt(s, result, i, j, k);
      ShareLinesOf(s[k].lost, i, j, q);
    }
    forall k | 0 <= k < |s|
      ensures NumberedAt(s', cnt, q, k)
    {
      RebuiltSame(s, s', cnt, p, q, k);
      SharedAt(s, result, i, j, k);
      assert NumberedAt(s, cnt, p, k);
    }
    RebuiltSame(s, s', cnt, p, q, cnt + 1);
  }

  lemma UntouchedShared(s: seq<SLine>, result: seq<string>, i: nat, j: nat, q: nat)
    requires Shaped(s, result) && q != i && Untouched(s, q)
    ensures Untouched(ShareAll(s, |result|, i, j), q)
  {
  }

  lemma ShapedShared(s: seq<SLine>, result: seq<string>, i: nat, j: nat)
    requires Shaped(s, result)
    ensures Shaped(ShareAll(s, |result|, i, j), result)
  {
    SharedAt(s, result, i, j, |result| + 1);
  }

  // ---- up to 32 parents ----

  /** With k parents folded in: each of them can be rebuilt, and nothing is there of those to come. */
  ghost predicate AllFolded(slines: seq<SLine>, result: seq<string>, parents: seq<seq<string>>, k: nat) {
    && k <= |parents| && Shaped(slines, result)
    && (forall i :: 0 <= i < k ==> Folded(slines, |result|, i, parents[i]))
    && (forall q :: k <= q < 32 ==> Untouched(slines, q))
  }

  lemma CompiledOwn(shift: Shift, n: nat)
    requires Compiled(shift) && n < 32
    ensures OwnBit(shift(n), n)
  {
  }

  lemma FoldsNext(s0: seq<SLine>, result: seq<string>, parents: seq<seq<string>>, k: nat, hunks: seq<Hunk>,
                  bits: set<nat>)
    requires AllFolded(s0, result, parents, k) && k < |parents| && k < 32 && OwnBit(bits, k)
    requires IsDiff(parents[k], result, hunks, 0, 0)
    ensures AllFolded(FoldOne(s0, |result|, k, hunks, bits), result, parents, k + 1)
  {
    var s := FedAll(s0, k, hunks);
    var s' := FoldOne(s0, |result|, k, hunks, bits);
    assert Untouched(s0, k);
    Loads(s0, result, k, hunks, parents[k]);
    ShapedNew(s0, s, result, k, bits, parents[k]);
    FoldedNew(s0, s, result, k, bits, parents[k]);
    forall i | 0 <= i < k
      ensures Folded(s', |result|, i, parents[i])
    {
      FoldedOther(s0, s, result, k, bits, parents[k], i, parents[i]);
    }
    forall q | k + 1 <= q < 32
      ensures Untouched(s', q)
    {
      UntouchedOther(s0, s, result, k, bits, parents[k], q);
    }
  }

  lemma SharesNext(s: seq<SLine>, result: seq<string>, parents: seq<seq<string>>, k: nat, j: nat)
    requires AllFolded(s, result, parents, k) && k < |parents| && k < 32 && j < k && parents[j] == parents[k]
    ensures AllFolded(ShareAll(s, |result|, k, j), result, parents, k + 1)
  {
    ShapedShared(s, result, k, j);
    assert Untouched(s, k);
    forall i | 0 <= i < k + 1
      ensures Folded(ShareAll(s, |result|, k, j), |result|, i, parents[i])
    {
      assert Folded(s, |result|, if i == k then j else i, parents[i]);
      FoldedShared(s, result, k, j, i, parents[i]);
    }
    forall q | k + 1 <= q < 32
      ensures Untouched(ShareAll(s, |result|, k, j), q)
    {
      UntouchedShared(s, result, k, j, q);
    }
  }

  lemma {:induction false} SameBeforeIs(parents: seq<seq<string>>, i: nat, j: nat)
    requires j <= i < |parents|
    ensures j <= SameBefore(parents, i, j) <= i && parents[SameBefore(parents, i, j)] == parents[i]
    ensures forall l :: j <= l < SameBefore(parents, i, j) ==> parents[l] != parents[i]
    decreases i - j
  {
    if j < i && parents[j] != parents[i] {
      SameBeforeIs(parents, i, j + 1);
    }
  }

  /** However they differ, up to 32 parents can be rebuilt. */
  lemma {:induction false} CombinedFolds(result: seq<string>, parents: seq<seq<string>>, diffs: seq<seq<Hunk>>,
                                         shift: Shift, k: nat)
    requires Family(result, parents, diffs) && Compiled(shift) && k <= |parents| <= 32
    ensures AllFolded(Combined(result, parents, diffs, shift, k), result, parents, k)
  {
    if k > 0 {
      var n := k - 1;
      CombinedFolds(result, parents, diffs, shift, n);
      var s, j := Combined(result, parents, diffs, shift, n), SameBefore(parents, n, 0);
      SameBeforeIs(parents, n, 0);
      if j < n {
        SharesNext(s, result, parents, n, j);
      } else {
        CompiledOwn(shift, n);
        FoldsNext(s, result, parents, n, diffs[n], shift(n));
      }
    }
  }

  // ---- more than 32 parents ----

  function Copies(n: nat): seq<string> { seq(n, _ => "z") }

  /** Parent 31 shares a lost line with parent 0, and parent 32 has nothing before the result's line. */
  function CrowdParent(i: nat): seq<string> {
    if i == 0 then ["a", "x"]
    else if i == 31 then ["a", "x", "b"]
    else if i == 32 then ["x", "y"]
    else ["x"] + Copies(i)
  }

  function CrowdDiff(i: nat): seq<Hunk> {
    if i == 0 then [Hunk(0, ["a"], 0, 0)]
    else if i == 31 then [Hunk(0, ["a"], 0, 0), Hunk(2, ["b"], 1, 0)]
    else if i == 32 then [Hunk(1, ["y"], 1, 0)]
    else [Hunk(1, Copies(i), 1, 0)]
  }

  function Crowd(n: nat): seq<seq<string>> { seq(n, i requires 0 <= i < n => CrowdParent(i)) }

  function CrowdDiffs(n: nat): seq<seq<Hunk>> { seq(n, i requires 0 <= i < n => CrowdDiff(i)) }

  lemma CrowdIsDiff(i: nat)
    ensures IsDiff(CrowdParent(i), ["x"], CrowdDiff(i), 0, 0) && CrowdParent(i) != ["x"]
  {
    var p, d := CrowdParent(i), CrowdDiff(i);
    if i == 0 {
      assert IsDiff(p, ["x"], d[1..], 1, 0);
    } else if i == 31 {
      assert d[1..] == [Hunk(2, ["b"], 1, 0)] && d[1..][1..] == [];
      assert IsDiff(p, ["x"], d[1..][1..], 3, 1);
      assert p[1..2] == ["x"] && p[2..3] == ["b"];
      assert IsDiff(p, ["x"], d[1..], 1, 0);
    } else {
      assert p[0..1] == ["x"] == ["x"][0..1] && p[1..|p|] == d[0].lost;
      assert d[1..] == [] && IsDiff(p, ["x"], d[1..], |p|, 1);
    }
  }

  lemma CrowdFamily(n: nat)
    ensures Family(["x"], Crowd(n), CrowdDiffs(n))
  {
    forall i | 0 <= i < n
      ensures IsDiff(Crowd(n)[i], ["x"], CrowdDiffs(n)[i], 0, 0)
    {
      CrowdIsDiff(i);
    }
  }

  lemma CrowdApart(i: nat, j: nat)
    requires j < i
    ensures CrowdParent(j) != CrowdParent(i)
  {
    assert |CrowdParent(i)| == if i == 0 || i == 32 then 2 else if i == 31 then 3 else i + 1;
    assert |CrowdParent(j)| == if j == 0 || j == 32 then 2 else if j == 31 then 3 else j + 1;
    assert forall k :: k == i || k == j ==> CrowdParent(k)[0] == if k == 0 || k == 31 then "a" else "x";
    if i == 32 && j == 1 {
      assert CrowdParent(j)[1] == "z";
    }
  }

  /** The lines lost before the result's only line. */
  function CrowdLost(k: nat, shift: Shift): seq<Lost> {
    if k == 0 then [] else if k < 32 then [Lost("a", {0})] else [Lost("a", {0} + shift(31))]
  }

  lemma FoldOneAt(s: seq<SLine>, n: nat, hunks: seq<Hunk>, bits: set<nat>)
    requires |s| == 3
    ensures |FoldOne(s, 1, n, hunks, bits)| == 3 == |FedAll(s, n, hunks)|
    ensures var fed, folded := FedAll(s, n, hunks)[0], FoldOne(s, 1, n, hunks, bits)[0];
      folded.lost == Merge(fed.lost, fed.plost, bits) && folded.plost == []
  {
    FedLines(s, n, hunks);
  }

  lemma CrowdFed(s: seq<SLine>, i: nat)
    requires |s| == 3 && s[0].plost == []
    ensures |FedAll(s, i, CrowdDiff(i))| == 3 && FedAll(s, i, CrowdDiff(i))[0].lost == s[0].lost
    ensures FedAll(s, i, CrowdDiff(i))[0].plost == if i == 0 || i == 31 then [Lost("a", {i})] else []
  {
    var d := CrowdDiff(i);
    var s1 := FedHunk(s, i, d[0]);
    assert LostFrom(["a"], i) == [Lost("a", {i})];
    if i == 31 {
      assert d[1..] == [Hunk(2, ["b"], 1, 0)] && d[1..][1..] == [];
      assert FedAll(s, i, d) == FedAll(FedHunk(s1, i, d[1]), i, []);
    } else {
      assert d[1..] == [] && FedAll(s, i, d) == s1;
    }
  }

  lemma CrowdMerge(shift: Shift, i: nat)
    ensures Merge(CrowdLost(i, shift), if i == 0 || i == 31 then [Lost("a", {i})] else [], shift(i)) ==
      CrowdLost(i + 1, shift)
  {
    if i == 0 {
      MergeIntoNone([Lost("a", {0})], shift(0));
    } else if i == 31 {
      var b, n := [Lost("a", {0})], [Lost("a", {31})];
      assert Texts(b)[0] == "a" == Texts(n)[0] && Merged(b, n, 0, 0, shift(31)) == [];
      assert Merged(b, n, 1, 1, shift(31)) == [] + [Lost("a", {0} + shift(31))];
    } else {
      MergeWithNone(CrowdLost(i, shift), shift(i));
    }
  }

  lemma {:induction false} CrowdCombined(n: nat, shift: Shift, k: nat)
    requires k <= n
    ensures var s := Combined(["x"], Crowd(n), CrowdDiffs(n), shift, k);
      |s| == 3 && s[0].lost == CrowdLost(k, shift) && s[0].plost == []
  {
    if k > 0 {
      var i := k - 1;
      CrowdCombined(n, shift, i);
      var s, j := Combined(["x"], Crowd(n), CrowdDiffs(n), shift, i), SameBefore(Crowd(n), i, 0);
      SameBeforeIs(Crowd(n), i, 0);
      if j < i {
        CrowdApart(i, j);
      }
      CrowdStep(s, shift, i);
    }
  }

  lemma CrowdStep(s: seq<SLine>, shift: Shift, i: nat)
    requires |s| == 3 && s[0].lost == CrowdLost(i, shift) && s[0].plost == []
    ensures var t := FoldOne(s, 1, i, CrowdDiff(i), shift(i));
      |t| == 3 && t[0].lost == CrowdLost(i + 1, shift) && t[0].plost == []
  {
    CrowdFed(s, i);
    CrowdMerge(shift, i);
    FoldOneAt(s, i, CrowdDiff(i), shift(i));
  }

  /** What comes first in a parent is what is lost first. */
  lemma RebuiltFirst(s: seq<SLine>, cnt: nat, n: nat, l: string)
    requires |s| == 3 && LinesOf(s[0].lost, n) == [l]
    ensures |Rebuilt(s, cnt, n, 2)| > 0 && Rebuilt(s, cnt, n, 2)[0] == l
  {
    assert Rebuilt(s, cnt, n, 0) == [] && Rebuilt(s, cnt, n, 1) == [] + Part(s, cnt, n, 0);
  }

  /** With more than 32 parents, parent 32 may get a line it does not have. */
  lemma CrowdFails(n: nat, shift: Shift)
    requires n > 32 && Compiled(shift)
    ensures !Folded(Combined(["x"], Crowd(n), CrowdDiffs(n), shift, n), 1, 32, Crowd(n)[32])
  {
    var s := Combined(["x"], Crowd(n), CrowdDiffs(n), shift, n);
    CrowdCombined(n, shift, n);
    LinesOfSnoc([], s[0].lost[0], 32);
    assert [] + s[0].lost == s[0].lost;
    assert 32 in shift(31);
    RebuiltFirst(s, 1, 32, "a");
  }

  /** So all parents can be rebuilt, whatever they and their diffs are, exactly if there are at most 32. */
  lemma ExactlyUpTo32(n: nat, shift: Shift)
    requires Compiled(shift)
    ensures n <= 32 <==> forall result, parents, diffs :: Family(result, parents, diffs) && |parents| == n ==>
      AllRebuilt(Combined(result, parents, diffs, shift, n), |result|, parents)
  {
    if n <= 32 {
      forall result, parents, diffs | Family(result, parents, diffs) && |parents| == n
        ensures AllRebuilt(Combined(result, parents, diffs, shift, n), |result|, parents)
      {
        CombinedFolds(result, parents, diffs, shift, n);
      }
    } else {
      CrowdFamily(n);
      CrowdFails(n, shift);
      assert !AllRebuilt(Combined(["x"], Crowd(n), CrowdDiffs(n), shift, n), |["x"]|, Crowd(n));
    }
  }
}
