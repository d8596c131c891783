/**
 Downloading and unpacking bundles (git/bundle-uri.c): by decreasing creation token, going deeper while
 bundles do not unpack and back up once one does; or, without tokens, until no more unpack.
 */
module BundleFetch {

  // hasFile tells that a download was attempted and a file name found for it
  datatype Bundle = Bundle(token: nat, hasFile: bool, unbundled: bool)

  // what a download attempt can come to: no name for a file, no content, content that is no bundle, a bundle
  datatype Download = NoName | Failed | NotABundle | Fetched

  // the world: what the t-th attempt to download, and to unbundle, comes to
  datatype Oracle = Oracle(download: nat -> Download, unbundle: nat -> bool)

  datatype Option<+T> = None | Some(value: T)

  /** What tokens must exceed: the one stored by the last fetch; 0 if there is none that can be read. */
  function Floor(stored: Option<nat>): nat { if stored.Some? then stored.value else 0 }

  ghost predicate Decreasing(bundles: seq<Bundle>) {
    forall i, j :: 0 <= i < j < |bundles| ==> bundles[i].token >= bundles[j].token
  }

  predicate Settled(b: Bundle) { b.hasFile && b.unbundled }

  /** Between lo and hi every bundle is downloaded and marked unbundled. */
  ghost predicate AllSettled(bundles: seq<Bundle>, lo: int, hi: int) {
    forall i :: lo <= i < hi && 0 <= i < |bundles| ==> Settled(bundles[i])
  }

  /** Going down, everything from here to the deepest is settled; going up, everything deeper is. */
  ghost predicate Heading(bundles: seq<Bundle>, cur: int, dir: int, deepest: int) {
    && -1 <= cur <= deepest + 1 <= |bundles|
    && (dir == 0 ==> cur == 0 && deepest == -1 && bundles != [] && !bundles[0].unbundled)
    && (dir == 1 ==> AllSettled(bundles, cur, deepest + 1))
    && (dir == -1 ==> AllSettled(bundles, cur + 1, deepest + 1))
    && (dir == 0 || ((dir == 1 || dir == -1) && deepest >= 0))
    && (cur < 0 ==> dir == -1)
  }

  /** max is the largest token of the bundles that have really been unbundled. */
  ghost predicate IsMax(bundles: seq<Bundle>, really: set<nat>, max: nat) {
    && (forall i :: i in really ==> i < |bundles| && bundles[i].token <= max && bundles[i].unbundled)
    && (max > 0 ==> exists i :: i in really && i < |bundles| && bundles[i].token == max)
  }

  ghost predicate SameTokens(bundles: seq<Bundle>, bundles': seq<Bundle>) {
    |bundles'| == |bundles| && forall i :: 0 <= i < |bundles| ==> bundles'[i].token == bundles[i].token
  }

  // what a visit to a bundle leads to: its new state, the direction to go on in, the largest token, and whether to
  // give up
  datatype Turn = Turn(bundle: Bundle, dir: int, max: nat, stop: bool)

  function VisitBundle(b: Bundle, dir: int, max: nat, download: Download, unbundle: bool): Turn {
    if !b.hasFile && (download == NoName || download == Failed) then
      Turn(Bundle(b.token, download == Failed, true), 1, max, false)
    else if !b.hasFile && download == NotABundle then Turn(b.(hasFile := true), dir, max, true)
    else if b.unbundled then Turn(b.(hasFile := true), dir, max, false)
    else if !unbundle then Turn(b.(hasFile := true), 1, max, false)
    else Turn(Bundle(b.token, true, true), -1, if b.token > max then b.token else max, false)
  }

  /**
     The first visit, with no direction yet, leads on whatever happens exactly if the bundle is not marked unbundled.
   */
  lemma LeadsOn(b: Bundle, max: nat)
    ensures (forall d, u :: VisitBundle(b, 0, max, d, u).stop || VisitBundle(b, 0, max, d, u).dir != 0) <==>
      !b.unbundled
  {
    assert b.unbundled ==>
      VisitBundle(b, 0, max, Fetched, true).dir == 0 && !VisitBundle(b, 0, max, Fetched, true).stop;
  }

  /** Once a first bundle that is marked has its file, every further visit leaves all as it is: the loop never ends. */
  lemma NeverEnds(b: Bundle, max: nat, d: Download, u: bool)
    requires Settled(b)
    ensures VisitBundle(b, 0, max, d, u) == Turn(b, 0, max, false)
  {
  }

  /**
     A visit keeps the course: only at the deepest point does it turn back, and from there on it finds everything
     settled.
   */
  lemma HeadingNext(bundles: seq<Bundle>, cur: nat, dir: int, deepest: int, deepest': int, t: Turn, max: nat,
                    d: Download, u: bool)
    requires Heading(bundles, cur, dir, deepest) && cur < |bundles| && t == VisitBundle(bundles[cur], dir, max, d, u)
      && !t.stop
    requires deepest' == if cur > deepest then cur as int else deepest
    ensures Heading(bundles[cur := t.bundle], cur + t.dir, t.dir, deepest')
      && Nearer(cur, dir, deepest, cur + t.dir, t.dir, deepest')
  {
  }

  /** The search gets closer to its end: deeper, or turned from going up to going down, or further in its direction. */
  predicate Nearer(cur: int, dir: int, deepest: int, cur': int, dir': int, deepest': int) {
    || deepest' > deepest
    || (deepest' == deepest && dir == -1 && dir' == 1)
    || (deepest' == deepest && dir == dir' == -1 && cur' < cur)
    || (deepest' == deepest && dir == dir' == 1 && cur < cur' <= deepest + 1)
  }

  /** The bundle was not marked, and the search turns up. */
  predicate TurnUnpacks(b: Bundle, turn: Turn) { !turn.stop && !b.unbundled && turn.dir == -1 }

  lemma IsMaxNext(bundles: seq<Bundle>, really: set<nat>, cur: nat, dir: int, max: nat, d: Download, u: bool)
    requires IsMax(bundles, really, max) && cur < |bundles|
    ensures var t := VisitBundle(bundles[cur], dir, max, d, u);
      IsMax(bundles[cur := t.bundle], if TurnUnpacks(bundles[cur], t) then really + {cur} else really, t.max)
  {
    var t := VisitBundle(bundles[cur], dir, max, d, u);
    var really' := if TurnUnpacks(bundles[cur], t) then really + {cur} else really;
    if t.max > 0 {
      if t.max == max {
        var i :| i in really && i < |bundles| && bundles[i].token == max;
        assert i in really' && bundles[cur := t.bundle][i].token == max;
      } else {
        assert cur in really';
      }
    }
  }

  /** The loop's state: where it is heading, and what has really been unbundled. */
  ghost predicate Going(bundles: seq<Bundle>, cur: int, dir: int, max: nat, deepest: int, really: set<nat>,
                        tokens: seq<Bundle>, stored: nat) {
    && Heading(bundles, cur, dir, deepest) && SameTokens(tokens, bundles) && IsMax(bundles, really, max)
    && (dir == -1 ==> really != {}) && (forall i :: i in really && i < |bundles| ==> bundles[i].token > stored)
  }

  lemma GoingNext(bundles: seq<Bundle>, cur: nat, dir: int, max: nat, deepest: int, deepest': int, really: set<nat>,
                  tokens: seq<Bundle>, stored: nat, t: Turn, d: Download, u: bool)
    returns (really': set<nat>)
    requires Going(bundles, cur, dir, max, deepest, really, tokens, stored) && cur < |bundles|
      && bundles[cur].token > stored
    requires t == VisitBundle(bundles[cur], dir, max, d, u) && deepest' == if cur > deepest then cur as int else deepest
    ensures really' == if TurnUnpacks(bundles[cur], t) then really + {cur} else really
    ensures SameTokens(tokens, bundles[cur := t.bundle])
    ensures !t.stop ==> Going(bundles[cur := t.bundle], cur + t.dir, t.dir, t.max, deepest', really', tokens, stored)
    ensures !t.stop ==> Nearer(cur, dir, deepest, cur + t.dir, t.dir, deepest')
  {
    really' := if TurnUnpacks(bundles[cur], t) then really + {cur} else really;
    IsMaxNext(bundles, really, cur, dir, max, d, u);
    if !t.stop {
      HeadingNext(bundles, cur, dir, deepest, deepest', t, max, d, u);
    }
  }

  // ---- a walk over the bundles ----

  /** A bundle that has its file, now at least, and is not marked is unpacked. */
  predicate Unpacks(b: Bundle, d: Download, u: bool) { (b.hasFile || d == Fetched) && !b.unbundled && u }

  predicate Resists(b: Bundle, d: Download, u: bool) { (b.hasFile || d == Fetched) && !b.unbundled && !u }

  /** A bundle cannot be had. */
  predicate Lost(b: Bundle, d: Download) { !b.hasFile && (d == NoName || d == Failed) }

  predicate NoBundle(b: Bundle, d: Download) { !b.hasFile && d == NotABundle }

  predicate PassedBy(b: Bundle, d: Download) { (b.hasFile || d == Fetched) && b.unbundled }

  // the places visited and the bundles as they were then; at the end, where the walk came to and how it left them
  datatype Log = Log(at: seq<int>, states: seq<seq<Bundle>>)

  ghost predicate InStep(log: Log, k: int) {
    |log.at| == |log.states| && 0 <= k < |log.at| - 1 && 0 <= log.at[k] < |log.states[k]|
  }

  /** The k-th visit, the k-th attempt after the first t ones, is to bundle i and unpacks it. */
  ghost predicate UnpacksAt(log: Log, world: Oracle, t: nat, k: int, i: int) {
    && InStep(log, k) && log.at[k] == i
    && Unpacks(log.states[k][i], world.download(t + k + 1), world.unbundle(t + k + 1))
  }

  ghost predicate LostAt(log: Log, world: Oracle, t: nat, k: int, i: int) {
    InStep(log, k) && log.at[k] == i && Lost(log.states[k][i], world.download(t + k + 1))
  }

  ghost predicate NoBundleAt(log: Log, world: Oracle, t: nat, k: int) {
    InStep(log, k) && NoBundle(log.states[k][log.at[k]], world.download(t + k + 1))
  }

  /**
     What a visit does to its bundle, and where the walk goes on: up where one is unpacked, down where one resists or
     is lost, and straight on past one that is done with; it halts where the file is no bundle.
   */
  ghost predicate VisitAt(log: Log, world: Oracle, t: nat, k: int) {
    InStep(log, k) &&
    var i, d, u := log.at[k], world.download(t + k + 1), world.unbundle(t + k + 1);
    var b, next := log.states[k][i], log.at[k + 1];
    && log.states[k + 1] ==
       log.states[k][i := Bundle(b.token, b.hasFile || d != NoName, b.unbundled || Unpacks(b, d, u) || Lost(b, d))]
    && (Unpacks(b, d, u) ==> next == i - 1)
    && (Resists(b, d, u) || Lost(b, d) ==> next == i + 1)
    && (PassedBy(b, d) ==> k > 0 && next - i == i - log.at[k - 1])
    && (NoBundle(b, d) ==> next == i && k + 1 == |log.at| - 1)
  }

  /** A walk from the first bundle on. */
  ghost predicate IsWalk(log: Log, world: Oracle, t: nat, from: seq<Bundle>) {
    && |log.at| == |log.states| >= 1 && log.at[0] == 0 && log.states[0] == from
    && forall k :: 0 <= k < |log.at| - 1 ==> VisitAt(log, world, t, k)
  }

  ghost predicate ReallyIs(log: Log, world: Oracle, t: nat, really: set<nat>) {
    forall i: nat :: i in really <==> exists k :: UnpacksAt(log, world, t, k, i)
  }

  function LastAt(log: Log): int
    requires log.at != []
  {
    log.at[|log.at| - 1]
  }

  function LastState(log: Log): seq<Bundle>
    requires log.states != []
  {
    log.states[|log.states| - 1]
  }

  /** The direction that the last step went in. */
  function LastDir(log: Log): int {
    if |log.at| < 2 then 0 else log.at[|log.at| - 1] - log.at[|log.at| - 2]
  }

  /** How the search so far is logged. */
  ghost predicate Logged(log: Log, world: Oracle, t: nat, from: seq<Bundle>, bundles: seq<Bundle>, cur: int, dir: int,
                         really: set<nat>) {
    && IsWalk(log, world, t, from) && LastAt(log) == cur && LastState(log) == bundles && LastDir(log) == dir
    && ReallyIs(log, world, t, really)
    && (forall k :: !NoBundleAt(log, world, t, k))
  }

  function Extended(log: Log, at: int, bundles: seq<Bundle>): Log { Log(log.at + [at], log.states + [bundles]) }

  lemma ExtendedOld(log: Log, at: int, bundles: seq<Bundle>, world: Oracle, t: nat, k: int)
    requires |log.at| == |log.states| && 0 <= k < |log.at| - 1
    ensures var log' := Extended(log, at, bundles);
      && (VisitAt(log, world, t, k) && !NoBundleAt(log, world, t, k) ==> VisitAt(log', world, t, k))
      && (forall i :: UnpacksAt(log', world, t, k, i) <==> UnpacksAt(log, world, t, k, i))
      && (NoBundleAt(log', world, t, k) <==> NoBundleAt(log, world, t, k))
  {
  }

  /** The turn that the next visit takes. */
  ghost predicate TurnsAt(log: Log, world: Oracle, t: nat, cur: nat, dir: int, max: nat, turn: Turn) {
    && |log.at| == |log.states| >= 1 && LastAt(log) == cur < |LastState(log)| && LastDir(log) == dir
    && (dir == 0 ==> !LastState(log)[cur].unbundled)
    && turn == VisitBundle(LastState(log)[cur], dir, max, world.download(t + |log.at|), world.unbundle(t + |log.at|))
  }

  ghost function NextLog(log: Log, cur: nat, turn: Turn): Log
    requires |log.at| == |log.states| >= 1 && cur < |LastState(log)|
  {
    Extended(log, if turn.stop then cur as int else cur + turn.dir, LastState(log)[cur := turn.bundle])
  }

  lemma ExtendedLast(log: Log, world: Oracle, t: nat, cur: nat, dir: int, max: nat, turn: Turn)
    requires TurnsAt(log, world, t, cur, dir, max, turn)
    ensures var log', k := NextLog(log, cur, turn), |log.at| - 1;
      && VisitAt(log', world, t, k) && (NoBundleAt(log', world, t, k) <==> turn.stop)
      && (forall i :: UnpacksAt(log', world, t, k, i) <==> i == cur && TurnUnpacks(LastState(log)[cur], turn))
  {
    var log', k := NextLog(log, cur, turn), |log.at| - 1;
    var b := log.states[k][cur];
    assert log'.at[k] == cur && log'.states[k] == log.states[k] && InStep(log', k);
    var d, u := world.download(t + k + 1), world.unbundle(t + k + 1);
    assert turn.bundle == Bundle(b.token, b.hasFile || d != NoName, b.unbundled || Unpacks(b, d, u) || Lost(b, d));
  }

  lemma WalkNext(log: Log, world: Oracle, t: nat, from: seq<Bundle>, cur: nat, dir: int, max: nat, turn: Turn,
                 log': Log)
    requires IsWalk(log, world, t, from) && (forall k :: !NoBundleAt(log, world, t, k))
    requires TurnsAt(log, world, t, cur, dir, max, turn) && log' == NextLog(log, cur, turn)
    ensures IsWalk(log', world, t, from) && (forall k :: k != |log.at| - 1 ==> !NoBundleAt(log', world, t, k))
    ensures NoBundleAt(log', world, t, |log.at| - 1) <==> turn.stop
  {
    ExtendedLast(log, world, t, cur, dir, max, turn);
    forall k | 0 <= k < |log'.at| - 1
      ensures VisitAt(log', world, t, k) && (k != |log.at| - 1 ==> !NoBundleAt(log', world, t, k))
    {
      if k < |log.at| - 1 {
        ExtendedOld(log, LastAt(log'), LastState(log'), world, t, k);
      }
    }
  }

  lemma ReallyNext(log: Log, world: Oracle, t: nat, really: set<nat>, cur: nat, dir: int, max: nat, turn: Turn,
                   log': Log, really': set<nat>)
    requires ReallyIs(log, world, t, really)
    requires TurnsAt(log, world, t, cur, dir, max, turn) && log' == NextLog(log, cur, turn)
    requires really' == if TurnUnpacks(LastState(log)[cur], turn) then really + {cur} else really
    ensures ReallyIs(log', world, t, really')
  {
    var last := |log.at| - 1;
    ExtendedLast(log, world, t, cur, dir, max, turn);
    forall k, i | 0 <= k < last
      ensures UnpacksAt(log', world, t, k, i) <==> UnpacksAt(log, world, t, k, i)
    {
      ExtendedOld(log, LastAt(log'), LastState(log'), world, t, k);
    }
    forall i: nat
      ensures i in really' <==> exists k :: UnpacksAt(log', world, t, k, i)
    {
      assert UnpacksAt(log', world, t, last, i) <==> i == cur && TurnUnpacks(LastState(log)[cur], turn);
      if i in really {
        var k :| UnpacksAt(log, world, t, k, i);
        assert UnpacksAt(log', world, t, k, i);
      }
      if k :| UnpacksAt(log', world, t, k, i) {
        assert k < last ==> UnpacksAt(log, world, t, k, i);
      }
    }
  }

  /** A visit is logged. */
  lemma LoggedNext(log: Log, world: Oracle, t: nat, from: seq<Bundle>, bundles: seq<Bundle>, cur: nat, dir: int,
                   max: nat, really: set<nat>, turn: Turn, log': Log, really': set<nat>)
    requires Logged(log, world, t, from, bundles, cur, dir, really)
      && TurnsAt(log, world, t, cur, dir, max, turn) && log' == NextLog(log, cur, turn)
    requires really' == if TurnUnpacks(bundles[cur], turn) then really + {cur} else really
    ensures IsWalk(log', world, t, from) && ReallyIs(log', world, t, really')
      && LastState(log') == bundles[cur := turn.bundle]
    ensures !turn.stop ==> Logged(log', world, t, from, bundles[cur := turn.bundle], cur + turn.dir, turn.dir, really')
    ensures turn.stop ==> NoBundleAt(log', world, t, |log'.at| - 2) && LastAt(log') == cur
  {
    WalkNext(log, world, t, from, cur, dir, max, turn, log');
    ReallyNext(log, world, t, really, cur, dir, max, turn, log', really');
  }

  /** Why the search did not come back up: it went past the end, it met a token too old, or a file was no bundle. */
  ghost predicate HaltedAt(log: Log, world: Oracle, t: nat, bundles: seq<Bundle>, floor: nat)
    requires log.at != []
  {
    || LastAt(log) == |bundles|
    || (0 <= LastAt(log) < |bundles| && bundles[LastAt(log)].token <= floor)
    || NoBundleAt(log, world, t, |log.at| - 2)
  }

  /** The k-th visit is to bundle i and leaves it marked. */
  ghost predicate MarksAt(log: Log, world: Oracle, t: nat, k: int, i: int) {
    UnpacksAt(log, world, t, k, i) || LostAt(log, world, t, k, i)
  }

  /** The first visits of a walk leave marked what was marked before or what one of them unpacked or found lost. */
  lemma {:induction false} MarkedAfter(log: Log, world: Oracle, t: nat, from: seq<Bundle>, n: nat, i: nat)
    requires IsWalk(log, world, t, from) && n < |log.at| && i < |from|
    ensures |log.states[n]| == |from|
    ensures log.states[n][i].unbundled <==>
      (from[i].unbundled || exists k :: k < n && MarksAt(log, world, t, k, i))
  {
    if n > 0 {
      MarkedAfter(log, world, t, from, n - 1, i);
      assert VisitAt(log, world, t, n - 1);
      assert log.states[n][i].unbundled <==>
        (log.states[n - 1][i].unbundled || MarksAt(log, world, t, n - 1, i));
    }
  }

  /** The state of the search: its course, and its log. */
  ghost predicate Searching(bundles: seq<Bundle>, cur: int, dir: int, max: nat, deepest: int, really: set<nat>,
                            tokens: seq<Bundle>, stored: nat, log: Log, world: Oracle, t: nat) {
    && Going(bundles, cur, dir, max, deepest, really, tokens, stored)
    && Logged(log, world, t, tokens, bundles, cur, dir, really)
  }

  /** What is known when the search halts. */
  ghost predicate Told(log: Log, world: Oracle, t: nat, from: seq<Bundle>, bundles: seq<Bundle>, really: set<nat>) {
    && SameTokens(from, bundles) && IsWalk(log, world, t, from) && ReallyIs(log, world, t, really)
    && LastState(log) == bundles
  }

  lemma SearchNext(bundles: seq<Bundle>, cur: nat, dir: int, max: nat, deepest: int, really: set<nat>,
                   tokens: seq<Bundle>, stored: nat, log: Log, world: Oracle, t: nat, a: nat, turn: Turn,
                   bundles': seq<Bundle>)
    returns (deepest': int, really': set<nat>, log': Log)
    requires Searching(bundles, cur, dir, max, deepest, really, tokens, stored, log, world, t) && cur < |bundles|
      && bundles[cur].token > stored && a == t + |log.at|
    requires turn == VisitBundle(bundles[cur], dir, max, world.download(a), world.unbundle(a))
      && bundles' == bundles[cur := turn.bundle]
    ensures |log'.at| == |log.at| + 1 && Told(log', world, t, tokens, bundles', really')
    ensures turn.stop ==> NoBundleAt(log', world, t, |log'.at| - 2) && LastAt(log') == cur
    ensures !turn.stop ==>
      && Searching(bundles', cur + turn.dir, turn.dir, turn.max, deepest', really', tokens, stored, log', world, t)
      && Nearer(cur, dir, deepest, cur + turn.dir, turn.dir, deepest')
  {
    deepest' := if cur > deepest then cur as int else deepest;
    really' := GoingNext(bundles, cur, dir, max, deepest, deepest', really, tokens, stored, turn, world.download(a),
      world.unbundle(a));
    log' := NextLog(log, cur, turn);
    LoggedNext(log, world, t, tokens, bundles, cur, dir, max, really, turn, log', really');
  }

  ghost predicate AllGoesWell(world: Oracle) { forall t: nat :: world.download(t) == Fetched && world.unbundle(t) }

  ghost predicate NothingUnpacks(world: Oracle) { forall t: nat :: !world.unbundle(t) }

  /**
     How the search ends: it succeeds just if the walk comes back up past the first bundle. If all goes well the first
     visit is the last; if nothing unpacks it fails.
   */
  ghost predicate Ended(ok: bool, log: Log, world: Oracle, t: nat, from: seq<Bundle>, bundles: seq<Bundle>,
                        really: set<nat>, floor: nat) {
    && from != [] && Told(log, world, t, from, bundles, really)
    && (ok <==> LastAt(log) == -1) && (!ok ==> HaltedAt(log, world, t, bundles, floor))
    && (AllGoesWell(world) && from[0].token > floor ==> ok && |log.at| == 2 && really == {0})
    && (NothingUnpacks(world) ==> !ok)
  }

  lemma Ends(ok: bool, log: Log, world: Oracle, t: nat, from: seq<Bundle>, bundles: seq<Bundle>, really: set<nat>,
             floor: nat)
    requires Told(log, world, t, from, bundles, really) && from != [] && !from[0].unbundled
    requires if ok then LastAt(log) == -1 && really != {}
      else LastAt(log) != -1 && HaltedAt(log, world, t, bundles, floor)
    ensures Ended(ok, log, world, t, from, bundles, really, floor)
  {
    if AllGoesWell(world) && from[0].token > floor {
      assert |log.at| > 1;
      assert VisitAt(log, world, t, 0);
      assert UnpacksAt(log, world, t, 0, 0);
      assert |log.at| > 2 ==> VisitAt(log, world, t, 1);
    }
  }

  /** Back at the top, all looked at is marked, and the largest token is that of a bundle really unpacked. */
  lemma EndsWell(bundles: seq<Bundle>, cur: int, dir: int, max: nat, deepest: int, really: set<nat>,
                 tokens: seq<Bundle>, stored: nat, log: Log, world: Oracle, t: nat)
    requires Searching(bundles, cur, dir, max, deepest, really, tokens, stored, log, world, t) && cur < 0
      && tokens != [] && !tokens[0].unbundled
    ensures 0 <= deepest < |bundles| && (forall i :: 0 <= i <= deepest ==> bundles[i].unbundled)
    ensures really != {} && IsMax(bundles, really, max) && max > stored
      && Ended(true, log, world, t, tokens, bundles, really, stored)
    ensures AllGoesWell(world) && tokens[0].token > stored ==> max == tokens[0].token
  {
    var i :| i in really;
    Ends(true, log, world, t, tokens, bundles, really, stored);
  }

  /** There is no bundle, or none newer than what a stored token tells; without one, no list is taken for old. */
  predicate NothingNew(bundles: seq<Bundle>, stored: Option<nat>) {
    bundles == [] || (stored.Some? && bundles[0].token <= stored.value)
  }

  class TokenFetch {
    var bundles: seq<Bundle>
    var stored: Option<nat>
    var attempts: nat
    const world: Oracle

    constructor (bundles: seq<Bundle>, stored: Option<nat>, world: Oracle)
      ensures this.bundles == bundles && this.stored == stored && this.world == world
    {
      this.bundles, this.stored, this.world, attempts := bundles, stored, world, 0;
    }

    /** One bundle: downloads it unless that was done, then unpacks it unless that was done. */
    method Visit(cur: nat, dir: int, max: nat) returns (stop: bool, dir': int, max': nat)
      requires cur < |bundles| && (bundles[cur].unbundled ==> dir != 0)
      modifies this`bundles, this`attempts
      ensures |bundles| == |old(bundles)| && bundles == old(bundles)[cur := bundles[cur]]
        && attempts == old(attempts) + 1
      ensures Turn(bundles[cur], dir', max', stop) ==
        VisitBundle(old(bundles[cur]), dir, max, world.download(attempts), world.unbundle(attempts))
    {
      stop, dir', max' := false, dir, max;
      attempts := attempts + 1;
      if !bundles[cur].hasFile {
        var d := world.download(attempts);
        if d != NoName {
          bundles := bundles[cur := bundles[cur].(hasFile := true)];
        }
        if d == NoName || d == Failed {
          bundles := bundles[cur := bundles[cur].(unbundled := true)];
          dir' := 1;
          return;
        }
        if d == NotABundle {
          stop := true;
          return;
        }
      }
      if bundles[cur].hasFile && !bundles[cur].unbundled {
        if !world.unbundle(attempts) {
          dir' := 1;
        } else {
          dir' := -1;
          bundles := bundles[cur := bundles[cur].(unbundled := true)];
          if bundles[cur].token > max {
            max' := bundles[cur].token;
          }
        }
      }
    }

    /** One round of the loop. */
    method Step(cur: nat, dir: int, max: nat, ghost deepest: int, ghost really: set<nat>, ghost tokens: seq<Bundle>,
                ghost t: nat, ghost log: Log)
      returns (stop: bool, cur': int, dir': int, max': nat, ghost deepest': int, ghost really': set<nat>,
               ghost log': Log)
      requires cur < |bundles| && bundles[cur].token > Floor(stored) && t + |log.at| == attempts + 1
        && Searching(bundles, cur, dir, max, deepest, really, tokens, Floor(stored), log, world, t)
      modifies this`bundles, this`attempts
      ensures Told(log', world, t, tokens, bundles, really') && t + |log'.at| == attempts + 1
      ensures stop ==> NoBundleAt(log', world, t, |log'.at| - 2) && LastAt(log') == cur
      ensures !stop ==>
        && Searching(bundles, cur', dir', max', deepest', really', tokens, Floor(stored), log', world, t)
        && Nearer(cur, dir, deepest, cur', dir', deepest')
    {
      ghost var before, a := bundles, attempts + 1;
      ghost var turn := VisitBundle(bundles[cur], dir, max, world.download(a), world.unbundle(a));
      deepest', really', log' :=
        SearchNext(bundles, cur, dir, max, deepest, really, tokens, Floor(stored), log, world, t, a, turn,
          bundles[cur := turn.bundle]);
      stop, dir', max' := Visit(cur, dir, max);
      assert bundles == before[cur := turn.bundle];
      cur' := cur + dir';
    }

    /** Terminates whatever happens, if the first bundle is not marked unbundled already. On success every
        bundle down to the deepest one looked at is marked, and the token stored is the largest of those really
        unbundled. The log tells each visit. */
    method FetchByToken() returns (ok: bool, ghost deepest: int, ghost really: set<nat>, ghost log: Log)
      requires Decreasing(bundles) && (bundles != [] ==> !bundles[0].unbundled)
      modifies this
      ensures SameTokens(old(bundles), bundles)
      ensures NothingNew(old(bundles), old(stored)) ==> ok && bundles == old(bundles) && stored == old(stored)
      ensures bundles != [] && old(stored) == None && bundles[0].token == 0 ==> !ok && bundles == old(bundles)
      ensures !NothingNew(old(bundles), old(stored)) ==>
        Ended(ok, log, world, old(attempts), old(bundles), bundles, really, Floor(old(stored)))
      ensures !NothingNew(old(bundles), old(stored)) && ok ==>
        && 0 <= deepest < |bundles| && (forall i :: 0 <= i <= deepest ==> bundles[i].unbundled)
        && really != {} && stored.Some? && IsMax(bundles, really, stored.value) && stored.value > Floor(old(stored))
        && (AllGoesWell(world) && bundles[0].token > Floor(old(stored)) ==> stored == Some(bundles[0].token))
      ensures !ok ==> stored == old(stored)
    {
      ok, deepest, really, log := true, -1, {}, Log([0], [bundles]);
      if bundles == [] || (stored.Some? && bundles[0].token <= stored.value) {
        return;
      }
      var floor := if stored.Some? then stored.value else 0;
      var cur, dir, max: nat := 0, 0, 0;
      while 0 <= cur < |bundles|
        invariant stored == old(stored) && floor == Floor(stored)
          && Searching(bundles, cur, dir, max, deepest, really, old(bundles), floor, log, world, old(attempts))
          && old(attempts) + |log.at| == attempts + 1
        invariant floor == 0 && old(bundles)[0].token == 0 ==> cur == 0 && bundles == old(bundles)
        decreases |bundles| - deepest, if dir == -1 then 1 else 0, if dir == -1 then cur else deepest + 1 - cur
      {
        if bundles[cur].token <= floor {
          Ends(false, log, world, old(attempts), old(bundles), bundles, really, floor);
          return false, deepest, really, log;
        }
        var stop;
        stop, cur, dir, max, deepest, really, log :=
          Step(cur, dir, max, deepest, really, old(bundles), old(attempts), log);
        if stop {
          Ends(false, log, world, old(attempts), old(bundles), bundles, really, floor);
          return false, deepest, really, log;
        }
      }
      ok := cur < 0;
      if ok {
        EndsWell(bundles, cur, dir, max, deepest, really, old(bundles), floor, log, world, old(attempts));
        stored := Some(max);
      } else {
        Ends(false, log, world, old(attempts), old(bundles), bundles, really, floor);
      }
    }
  }

  // ---- without tokens ----

  /** What can be unpacked can be unpacked with more bundles there, too. */
  ghost predicate Monotone(can: (set<nat>, nat) -> bool) {
    forall s: set<nat>, t: set<nat>, i: nat :: s <= t && can(s, i) ==> can(t, i)
  }

  /** Bundles that can be unpacked one after the other, starting with some unpacked. */
  ghost predicate Possible(can: (set<nat>, nat) -> bool, hasFile: seq<bool>, done: set<nat>, order: seq<nat>)
    decreases |order|
  {
    order == [] || (order[0] < |hasFile| && hasFile[order[0]] && (order[0] in done || can(done, order[0]))
                    && Possible(can, hasFile, done + {order[0]}, order[1..]))
  }

  /** One pass over the bundles; stops at the first that unpacks. */
  method AttemptUnbundle(hasFile: seq<bool>, can: (set<nat>, nat) -> bool, done: set<nat>) returns (found: int)
    ensures found >= 0 ==> found < |hasFile| && hasFile[found] && found !in done && can(done, found)
    ensures found < 0 ==> forall i: nat :: i < |hasFile| && hasFile[i] && can(done, i) ==> i in done
  {
    var i := 0;
    while i < |hasFile|
      invariant 0 <= i <= |hasFile| && forall j: nat :: j < i && hasFile[j] && can(done, j) ==> j in done
    {
      if hasFile[i] && i !in done && can(done, i) {
        return i;
      }
      i := i + 1;
    }
    return -1;
  }

  /** How many of the first n bundles are not unpacked. */
  ghost function Left(done: set<nat>, n: nat): nat {
    if n == 0 then 0 else Left(done, n - 1) + if n - 1 in done then 0 else 1
  }

  lemma {:induction false} LeftFewer(done: set<nat>, i: nat, n: nat)
    ensures Left(done + {i}, n) <= Left(done, n)
    ensures i < n && i !in done ==> Left(done + {i}, n) < Left(done, n)
  {
    if n > 0 {
      LeftFewer(done, i, n - 1);
    }
  }

  /** Passes until none unpacks: whatever can be unpacked in some order is, whatever order the passes took. */
  method UnbundleAll(hasFile: seq<bool>, can: (set<nat>, nat) -> bool, already: set<nat>) returns (done: set<nat>)
    ensures already <= done && (forall i: nat :: i < |hasFile| && hasFile[i] && can(done, i) ==> i in done)
    ensures Monotone(can) ==> forall order :: Possible(can, hasFile, already, order) ==> forall k ::
      0 <= k < |order| ==> order[k] in done
  {
    done := already;
    var found := AttemptUnbundle(hasFile, can, done);
    while found >= 0
      invariant already <= done
      invariant found >= 0 ==> found < |hasFile| && hasFile[found] && found !in done
      invariant found < 0 ==> forall i: nat :: i < |hasFile| && hasFile[i] && can(done, i) ==> i in done
      decreases Left(done, |hasFile|), found
    {
      LeftFewer(done, found, |hasFile|);
      done := done + {found};
      found := AttemptUnbundle(hasFile, can, done);
    }
    if Monotone(can) {
      forall order | Possible(can, hasFile, already, order)
        ensures forall k :: 0 <= k < |order| ==> order[k] in done
      {
        AllDone(hasFile, can, done, already, order);
      }
    }
  }

  lemma {:induction false} AllDone(hasFile: seq<bool>, can: (set<nat>, nat) -> bool, done: set<nat>, had: set<nat>,
                                   order: seq<nat>)
    requires Monotone(can) && had <= done
      && (forall i: nat :: i < |hasFile| && hasFile[i] && can(done, i) ==> i in done)
    requires Possible(can, hasFile, had, order)
    ensures forall k :: 0 <= k < |order| ==> order[k] in done
    decreases |order|
  {
    if order != [] {
      assert order[0] in done;
      AllDone(hasFile, can, done, had + {order[0]}, order[1..]);
      assert forall k :: 1 <= k < |order| ==> order[k] == order[1..][k - 1];
    }
  }
}
