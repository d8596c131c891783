/**
 The cache tree as it is kept in the index file (git/cache-tree.c).
 */
module CacheTreeFormat {
  import opened IndexSpec
  import opened CacheTrees

  // how an object id is written as bytes
  datatype Raw = Raw(size: nat, bytes: Oid -> string, oid: string -> Oid)

  ghost predicate RawOk(raw: Raw) {
    forall o: Oid :: |raw.bytes(o)| == raw.size && raw.oid(raw.bytes(o)) == o
  }

  // ---- texts within a buffer ----

  /** The text is in the buffer at pos. */
  ghost predicate Has(buf: string, pos: nat, text: string) { pos + |text| <= |buf| && buf[pos..pos + |text|] == text }

  /** The buffer ends within the text at pos. */
  ghost predicate Cut(buf: string, pos: nat, text: string)
  {
    pos <= |buf| < pos + |text| && buf[pos..] == text[..|buf| - pos]
  }

  lemma HasParts(buf: string, pos: nat, a: string, b: string)
    ensures Has(buf, pos, a + b) <==> Has(buf, pos, a) && Has(buf, pos + |a|, b)
  {
    if pos + |a| + |b| <= |buf| {
      assert buf[pos..pos + |a + b|] == buf[pos..pos + |a|] + buf[pos + |a|..pos + |a| + |b|];
      assert Has(buf, pos, a + b) ==>
        buf[pos..pos + |a|] == (a + b)[..|a|] && buf[pos + |a|..pos + |a| + |b|] == (a + b)[|a|..];
    }
  }

  lemma CutParts(buf: string, pos: nat, a: string, b: string)
    requires Cut(buf, pos, a + b)
    ensures Cut(buf, pos, a) || (Has(buf, pos, a) && Cut(buf, pos + |a|, b))
  {
    var t := buf[pos..];
    assert t == (a + b)[..|t|];
    if |t| >= |a| {
      assert t[..|a|] == a && t[|a|..] == b[..|t| - |a|];
      assert buf[pos..pos + |a|] == t[..|a|] && buf[pos + |a|..] == t[|a|..];
    } else {
      assert t == a[..|t|];
    }
  }

  lemma CharAt(buf: string, pos: nat, text: string, i: nat)
    requires i < |text| && (Has(buf, pos, text) || Cut(buf, pos, text)) && pos + i < |buf|
    ensures buf[pos + i] == text[i]
  {
    if Has(buf, pos, text) {
      assert buf[pos..pos + |text|][i] == buf[pos + i];
    } else {
      assert buf[pos..][i] == buf[pos + i];
    }
  }

  // ---- numbers ----

  predicate IsDigit(c: char) { '0' <= c <= '9' }

  function Digits(n: nat): string {
    if n < 10 then [(n + '0' as int) as char] else Digits(n / 10) + [(n % 10 + '0' as int) as char]
  }

  function Number(s: string): int {
    if s == "" then 0 else Number(s[..|s| - 1]) * 10 + (s[|s| - 1] as int - '0' as int)
  }

  ghost predicate AllDigits(s: string) { forall i :: 0 <= i < |s| ==> IsDigit(s[i]) }

  lemma {:induction false} NumberDigits(n: nat)
    ensures Digits(n) != "" && Number(Digits(n)) == n && AllDigits(Digits(n))
  {
    if n >= 10 {
      NumberDigits(n / 10);
      assert Digits(n)[..|Digits(n)| - 1] == Digits(n / 10);
    } else {
      assert Digits(n)[..0] == "";
    }
  }

  function SkipDigits(s: string, i: nat): (k: nat)
    requires i <= |s|
    ensures i <= k <= |s| && (k < |s| ==> !IsDigit(s[k])) && forall j :: i <= j < k ==> IsDigit(s[j])
    decreases |s| - i
  {
    if i == |s| || !IsDigit(s[i]) then i else SkipDigits(s, i + 1)
  }

  predicate IsBlank(c: char) { c == ' ' || '\t' <= c <= '\r' }

  function SkipBlanks(s: string, i: nat): (k: nat)
    requires i <= |s|
    ensures i <= k <= |s|
    decreases |s| - i
  {
    if i == |s| || !IsBlank(s[i]) then i else SkipBlanks(s, i + 1)
  }

  // a number in a buffer, as a 32-bit integer, and where it ends; it ends where it begins if there is none
  datatype Parse = Parse(value: int, end: nat)

  function ToInt(n: int): int { (n + 0x8000_0000) % 0x1_0000_0000 - 0x8000_0000 }

  ghost predicate Int32(n: int) { -0x8000_0000 <= n < 0x8000_0000 }

  lemma SkipDigitsIs(s: string, i: nat, digits: string)
    requires Has(s, i, digits) && AllDigits(digits) && (i + |digits| < |s| ==> !IsDigit(s[i + |digits|]))
    ensures SkipDigits(s, i) == i + |digits|
  {
    forall j | i <= j < i + |digits|
      ensures IsDigit(s[j])
    {
      CharAt(s, i, digits, j - i);
    }
  }

  // a number as text
  datatype Numeral = Numeral(negative: bool, digits: string)

  function Text(t: Numeral): string { if t.negative then "-" + t.digits else t.digits }

  function NumeralOf(n: int): Numeral { Numeral(n < 0, Digits(if n < 0 then -n else n)) }

  function ValueOf(t: Numeral): int { ToInt(if t.negative then -Number(t.digits) else Number(t.digits)) }

  lemma NumeralOfIs(n: int)
    ensures var t := NumeralOf(n); NumeralOk(t) && (Int32(n) ==> ValueOf(t) == n)
  {
    NumberDigits(if n < 0 then -n else n);
  }

  ghost predicate NumeralOk(t: Numeral) { t.digits != "" && AllDigits(t.digits) }

  /** The numeral stands at a place, which is pos or behind a blank there, and no digit follows. */
  ghost predicate Printed(s: string, pos: nat, t: Numeral, at: nat) {
    && (at == pos || (at == pos + 1 && pos < |s| && s[pos] == ' ')) && NumeralOk(t)
    && Has(s, at, Text(t)) && (at + |Text(t)| < |s| ==> !IsDigit(s[at + |Text(t)|]))
  }

  lemma PrintedParts(s: string, pos: nat, t: Numeral, at: nat)
    requires Printed(s, pos, t, at)
    ensures SkipBlanks(s, pos) == at < |s| && (s[at] == '-' <==> t.negative) && s[at] != '+'
    ensures var j := if t.negative then at + 1 else at;
      SkipDigits(s, j) == at + |Text(t)| > j && s[j..at + |Text(t)|] == t.digits
  {
    CharAt(s, at, Text(t), 0);
    assert Text(t)[0] == if t.negative then '-' else t.digits[0];
    assert SkipBlanks(s, at) == at;
    if t.negative {
      HasParts(s, at, "-", t.digits);
    }
    SkipDigitsIs(s, if t.negative then at + 1 else at, t.digits);
  }

  /** Reads a number: blanks, a sign, digits. */
  method Strtol(s: string, pos: nat, ghost t: Numeral, ghost at: nat) returns (p: Parse)
    requires pos <= |s|
    ensures pos <= p.end <= |s|
    ensures Printed(s, pos, t, at) ==> p == Parse(ValueOf(t), at + |Text(t)|) && p.end > pos
  {
    if Printed(s, pos, t, at) {
      PrintedParts(s, pos, t, at);
    }
    var i := SkipBlanks(s, pos);
    var j := if i < |s| && (s[i] == '-' || s[i] == '+') then i + 1 else i;
    var k := SkipDigits(s, j);
    if j == k {
      return Parse(0, pos);
    }
    return Parse(ValueOf(Numeral(i < j && s[i] == '-', s[j..k])), k);
  }

  // ---- the format ----

  /** Name, NUL, the two counts, newline; the id of a valid node; then the subtrees. */
  ghost function Encode(raw: Raw, name: string, it: CacheTree): string
    decreases it, 1
  {
    Header(name, it) + (OidPart(raw, it) + EncodeDown(raw, it.down))
  }

  function Counts(a: Numeral, b: Numeral): string { Text(a) + (" " + (Text(b) + "\n")) }

  function Header(name: string, it: CacheTree): string
  {
    name + ("\0" + Counts(NumeralOf(it.entryCount), NumeralOf(|it.down|)))
  }

  function OidPart(raw: Raw, it: CacheTree): string { if it.entryCount >= 0 then raw.bytes(it.oid) else "" }

  ghost function EncodeDown(raw: Raw, down: seq<Sub>): string
    decreases down, 0
  {
    if down == [] then "" else Encode(raw, down[0].name, down[0].tree) + EncodeDown(raw, down[1..])
  }

  ghost predicate NulFree(s: string) { forall i :: 0 <= i < |s| ==> s[i] != '\0' }

  /** Counts that fit, and subtrees sorted by names without NUL, all the way down. */
  ghost predicate Writable(it: CacheTree) {
    Int32(it.entryCount) && Int32(|it.down|) && SortedDown(it.down) && forall s ::
      s in it.down ==> NulFree(s.name) && Writable(s.tree)
  }

  /** What is kept of a tree: nothing of an update's scratch space, and no id of an invalid node. */
  function Stored(it: CacheTree): CacheTree
    decreases it, 1
  {
    CacheTree(it.entryCount, if it.entryCount >= 0 then it.oid else 0, StoredDown(it.down))
  }

  function StoredDown(down: seq<Sub>): (d: seq<Sub>)
    ensures |d| == |down| && forall i :: 0 <= i < |d| ==> d[i].name == down[i].name
    decreases down, 0
  {
    if down == [] then [] else [Sub(down[0].name, Stored(down[0].tree), 0, false)] + StoredDown(down[1..])
  }

  // ---- writing ----

  /** Writes a node and all below it. */
  method WriteOne(raw: Raw, buffer: string, name: string, it: CacheTree) returns (buffer': string)
    requires Writable(it)
    ensures buffer' == buffer + Encode(raw, name, it)
    decreases it, 1
  {
    buffer' := buffer + Header(name, it);
    if 0 <= it.entryCount {
      buffer' := buffer' + raw.bytes(it.oid);
    }
    Regroup(buffer, Header(name, it), OidPart(raw, it), EncodeDown(raw, it.down));
    buffer' := WriteDown(raw, buffer', it);
  }

  method WriteDown(raw: Raw, buffer: string, it: CacheTree) returns (buffer': string)
    requires Writable(it)
    ensures buffer' == buffer + EncodeDown(raw, it.down)
    decreases it, 0
  {
    ghost var all := buffer + EncodeDown(raw, it.down);
    buffer' := buffer;
    assert it.down[0..] == it.down;
    var i := 0;
    while i < |it.down|
      invariant 0 <= i <= |it.down| && buffer' + EncodeDown(raw, it.down[i..]) == all
    {
      if i > 0 && NameCmp(it.down[i].name, it.down[i - 1].name) <= 0 {
        NameOrder(it.down[i - 1].name, it.down[i].name, it.down[i].name);
        assert false;
      }
      DownUnfold(raw, it.down, i);
      Regroup(buffer', Encode(raw, it.down[i].name, it.down[i].tree), "", EncodeDown(raw, it.down[i + 1..]));
      buffer' := WriteOne(raw, buffer', it.down[i].name, it.down[i].tree);
      i := i + 1;
    }
  }

  lemma DownUnfold(raw: Raw, down: seq<Sub>, i: nat)
    requires i < |down|
    ensures EncodeDown(raw, down[i..]) == Encode(raw, down[i].name, down[i].tree) + EncodeDown(raw, down[i + 1..])
  {
    assert down[i..][1..] == down[i + 1..];
  }

  lemma Regroup(a: string, b: string, c: string, d: string)
    ensures a + (b + (c + d)) == a + b + c + d && a + (b + d) == a + b + d
  {
  }

  // ---- reading ----

  datatype ReadResult = Read(tree: CacheTree, pos: nat) | Corrupt | Died

  lemma NulFound(buf: string, pos: nat, name: string, rest: string, nul: nat)
    requires NulFree(name) && (Has(buf, pos, name + ("\0" + rest)) || Cut(buf, pos, name + ("\0" + rest)))
    requires pos <= nul <= |buf| && (forall i :: pos <= i < nul ==> buf[i] != '\0')
      && (nul < |buf| ==> buf[nul] == '\0')
    ensures nul < |buf| ==> nul == pos + |name|
    ensures Has(buf, pos, name + ("\0" + rest)) ==> nul == pos + |name| < |buf| && Has(buf, nul + 1, rest)
    ensures nul < |buf| && Cut(buf, pos, name + ("\0" + rest)) ==> Cut(buf, nul + 1, rest)
  {
    var text := name + ("\0" + rest);
    if nul < |buf| && nul - pos < |text| {
      CharAt(buf, pos, text, nul - pos);
    }
    if pos + |name| < |buf| {
      CharAt(buf, pos, text, |name|);
    }
    if Has(buf, pos, text) {
      HasParts(buf, pos, name, "\0" + rest);
      HasParts(buf, pos + |name|, "\0", rest);
    } else {
      CutParts(buf, pos, name, "\0" + rest);
      if nul < |buf| {
        CutParts(buf, pos + |name|, "\0", rest);
      }
    }
  }

  /** No NUL and no newline before the last character. */
  lemma CountsChars(a: Numeral, b: Numeral, i: nat)
    requires NumeralOk(a) && NumeralOk(b) && i < |Counts(a, b)|
    ensures i < |Counts(a, b)| - 1 ==> Counts(a, b)[i] != '\0' && Counts(a, b)[i] != '\n'
    ensures i == |Counts(a, b)| - 1 ==> Counts(a, b)[i] == '\n'
  {
    var s, t := Text(a), Text(b);
    assert Counts(a, b)[i] == if i < |s| then s[i] else if i == |s| then ' ' else if i - |s| - 1 < |t| then
      t[i - |s| - 1] else '\n';
  }

  lemma EolFound(buf: string, pos: nat, a: Numeral, b: Numeral, eol: nat)
    requires NumeralOk(a) && NumeralOk(b) && Has(buf, pos, Counts(a, b))
    requires pos <= eol <= |buf| && (forall i :: pos <= i < eol ==> buf[i] != '\0' && buf[i] != '\n')
      && (eol < |buf| ==> buf[eol] == '\0' || buf[eol] == '\n')
    ensures eol == pos + |Counts(a, b)| - 1 < |buf|
  {
    var n := |Counts(a, b)|;
    CharAt(buf, pos, Counts(a, b), n - 1);
    CountsChars(a, b, n - 1);
    if eol < pos + n - 1 {
      CharAt(buf, pos, Counts(a, b), eol - pos);
      CountsChars(a, b, eol - pos);
    }
  }

  lemma NumbersFound(buf: string, pos: nat, a: Numeral, b: Numeral)
    requires NumeralOk(a) && NumeralOk(b) && Has(buf, pos, Counts(a, b))
    ensures Printed(buf, pos, a, pos) && Printed(buf, pos + |Text(a)|, b, pos + |Text(a)| + 1)
  {
    var m := pos + |Text(a)|;
    HasParts(buf, pos, Text(a), " " + (Text(b) + "\n"));
    HasParts(buf, m, " ", Text(b) + "\n");
    HasParts(buf, m + 1, Text(b), "\n");
    CharAt(buf, m, " ", 0);
    CharAt(buf, m + 1 + |Text(b)|, "\n", 0);
  }

  /** A header that is cut off has no end of line. */
  lemma CountsCut(buf: string, pos: nat, a: Numeral, b: Numeral, eol: nat)
    requires NumeralOk(a) && NumeralOk(b) && Cut(buf, pos, Counts(a, b)) && pos <= eol < |buf|
    ensures buf[eol] != '\0' && buf[eol] != '\n'
  {
    CountsChars(a, b, eol - pos);
    CharAt(buf, pos, Counts(a, b), eol - pos);
  }

  method FindNul(buf: string, pos: nat) returns (nul: nat)
    requires pos <= |buf|
    ensures pos <= nul <= |buf| && (forall i :: pos <= i < nul ==> buf[i] != '\0') && (nul < |buf| ==> buf[nul] == '\0')
  {
    nul := pos;
    while nul < |buf| && buf[nul] != '\0'
      invariant pos <= nul <= |buf| && forall i :: pos <= i < nul ==> buf[i] != '\0'
    {
      nul := nul + 1;
    }
  }

  method FindEol(buf: string, pos: nat) returns (eol: nat)
    requires pos <= |buf|
    ensures pos <= eol <= |buf| && (forall i :: pos <= i < eol ==> buf[i] != '\0' && buf[i] != '\n')
      && (eol < |buf| ==> buf[eol] == '\0' || buf[eol] == '\n')
  {
    eol := pos;
    while eol < |buf| && buf[eol] != '\0' && buf[eol] != '\n'
      invariant pos <= eol <= |buf| && forall i :: pos <= i < eol ==> buf[i] != '\0' && buf[i] != '\n'
    {
      eol := eol + 1;
    }
  }

  datatype NodeHead = NodeHead(entryCount: int, subtreeNr: int, end: nat) | NoHead

  /** The two counts of a node, up to the end of their line. */
  method ReadCounts(buf: string, pos: nat, ghost a: Numeral, ghost b: Numeral) returns (h: NodeHead)
    requires pos <= |buf| && NumeralOk(a) && NumeralOk(b)
    ensures h.NodeHead? ==> pos < h.end <= |buf|
    ensures Has(buf, pos, Counts(a, b)) ==> h == NodeHead(ValueOf(a), ValueOf(b), pos + |Counts(a, b)|)
    ensures Cut(buf, pos, Counts(a, b)) ==> h == NoHead
  {
    var eol := ReadEol(buf, pos, a, b);
    var two, p, q := ReadNumbers(buf, pos, a, b);
    if !two || eol == |buf| {
      return NoHead;
    }
    return NodeHead(p.value, q.value, eol + 1);
  }

  method ReadEol(buf: string, pos: nat, ghost a: Numeral, ghost b: Numeral) returns (eol: nat)
    requires pos <= |buf| && NumeralOk(a) && NumeralOk(b)
    ensures pos <= eol <= |buf|
    ensures Has(buf, pos, Counts(a, b)) ==> eol + 1 == pos + |Counts(a, b)| && eol < |buf|
    ensures Cut(buf, pos, Counts(a, b)) ==> eol == |buf|
  {
    eol := FindEol(buf, pos);
    if Cut(buf, pos, Counts(a, b)) && eol < |buf| {
      CountsCut(buf, pos, a, b, eol);
    }
    if Has(buf, pos, Counts(a, b)) {
      EolFound(buf, pos, a, b, eol);
    }
  }

  method ReadNumbers(buf: string, pos: nat, ghost a: Numeral, ghost b: Numeral) returns (two: bool, p: Parse, q: Parse)
    requires pos <= |buf| && NumeralOk(a) && NumeralOk(b)
    ensures Has(buf, pos, Counts(a, b)) ==> two && p.value == ValueOf(a) && q.value == ValueOf(b)
  {
    if Has(buf, pos, Counts(a, b)) {
      NumbersFound(buf, pos, a, b);
    }
    p := Strtol(buf, pos, a, pos);
    q := p;
    if p.end == pos {
      return false, p, q;
    }
    ghost var m := pos + |Text(a)|;
    assert Has(buf, pos, Counts(a, b)) ==> p.end == m;
    q := Strtol(buf, p.end, b, p.end + 1);
    two := q.end != p.end;
  }

  /** The name, the counts and the end of the line. */
  method ReadHeader(buf: string, pos: nat, ghost name: string, ghost a: Numeral, ghost b: Numeral) returns (h: NodeHead)
    requires pos <= |buf| && NulFree(name) && NumeralOk(a) && NumeralOk(b)
    ensures h.NodeHead? ==> pos < h.end <= |buf|
    ensures Has(buf, pos, name + ("\0" + Counts(a, b))) ==>
      h == NodeHead(ValueOf(a), ValueOf(b), pos + |name| + 1 + |Counts(a, b)|)
    ensures Cut(buf, pos, name + ("\0" + Counts(a, b))) ==> h == NoHead
  {
    var nul := FindNul(buf, pos);
    if Has(buf, pos, name + ("\0" + Counts(a, b))) || Cut(buf, pos, name + ("\0" + Counts(a, b))) {
      NulFound(buf, pos, name, Counts(a, b), nul);
    }
    if nul == |buf| {
      return NoHead;
    }
    h := ReadCounts(buf, nul + 1, a, b);
  }

  /** All names so far sort before this one. */
  ghost predicate AllBefore(down: seq<Sub>, name: string)
  {
    forall k :: 0 <= k < |down| ==> NameCmp(down[k].name, name) < 0
  }

  /** Puts a subtree in its place; behind all others, if its name sorts there. */
  method AddSubtree(down: seq<Sub>, name: string, tree: CacheTree) returns (down': seq<Sub>)
    requires SortedDown(down)
    ensures SortedDown(down') && |down'| <= |down| + 1
    ensures AllBefore(down, name) ==> down' == down + [Sub(name, tree, 0, false)]
  {
    var pos;
    down', pos := FindOrCreate(down, name);
    if AllBefore(down, name) {
      NameOrder(name, name, name);
      NameOrder(down'[pos].name, name, name);
      PlaceIsLast(down, down', name, pos);
    }
    down' := down'[pos := down'[pos].(tree := tree)];
  }

  lemma PlaceIsLast(down: seq<Sub>, down': seq<Sub>, name: string, pos: nat)
    requires SortedDown(down') && AllBefore(down, name) && pos < |down'| && down'[pos].name == name
    requires down' == down || (pos <= |down| && down' == down[..pos] + [Sub(name, EmptyTree, 0, false)] + down[pos..])
    ensures pos == |down| && down' == down + [Sub(name, EmptyTree, 0, false)]
  {
    assert down' != down && pos < |down| ==> down'[pos + 1] == down[pos];
    NameOrder(name, name, name);
    forall k | 0 <= k < |down|
      ensures NameCmp(name, down[k].name) > 0
    {
      NameOrder(down[k].name, name, name);
    }
  }

  /** A node was written at pos: all of it is there, or it is cut off. */
  ghost predicate Node(raw: Raw, buf: string, pos: nat, name: string, it: CacheTree, whole: bool) {
    Writable(it) && NulFree(name) && if whole then Has(buf, pos, Encode(raw, name, it))
      else Cut(buf, pos, Encode(raw, name, it))
  }

  /** Header, id and subtrees, one behind the other, up to the end or to where they are cut off. */
  ghost predicate InParts(raw: Raw, buf: string, pos: nat, name: string, it: CacheTree, whole: bool, end: nat) {
    var at := pos + |Header(name, it)|;
    && Int32(it.entryCount) && Int32(|it.down|) && NulFree(name)
    && (Has(buf, pos, Header(name, it)) || (!whole && Cut(buf, pos, Header(name, it))))
    && (Has(buf, pos, Header(name, it)) ==>
          Has(buf, at, OidPart(raw, it)) || (!whole && Cut(buf, at, OidPart(raw, it))))
    && (Has(buf, pos, Header(name, it)) && Has(buf, at, OidPart(raw, it)) ==>
          Left(raw, buf, it.down, at + |OidPart(raw, it)|, whole, end))
  }

  /** Behind the header, the id and the subtrees are there, or cut off. */
  lemma NodeParts(raw: Raw, buf: string, pos: nat, name: string, it: CacheTree, whole: bool)
    requires Node(raw, buf, pos, name, it, whole)
    ensures InParts(raw, buf, pos, name, it, whole, pos + |Encode(raw, name, it)|)
  {
    var h, o, d := Header(name, it), OidPart(raw, it), EncodeDown(raw, it.down);
    if whole {
      HasParts(buf, pos, h, o + d);
      HasParts(buf, pos + |h|, o, d);
    } else {
      CutParts(buf, pos, h, o + d);
      CutHas(buf, pos, h);
      if Has(buf, pos, h) {
        CutParts(buf, pos + |h|, o, d);
        CutHas(buf, pos + |h|, o);
      }
    }
  }

  method ReadNodeHead(buf: string, pos: nat, ghost node: bool, ghost name: string, ghost it: CacheTree)
    returns (h: NodeHead)
    requires pos <= |buf| && (node ==> NulFree(name) && Int32(it.entryCount) && Int32(|it.down|))
    ensures h.NodeHead? ==> pos < h.end <= |buf|
    ensures node && Has(buf, pos, Header(name, it)) ==>
      h == NodeHead(it.entryCount, |it.down|, pos + |Header(name, it)|)
    ensures node && Cut(buf, pos, Header(name, it)) ==> h == NoHead
  {
    ghost var a, b := NumeralOf(it.entryCount), NumeralOf(|it.down|);
    NumeralOfIs(it.entryCount);
    NumeralOfIs(|it.down|);
    h := ReadHeader(buf, pos, if node then name else "", a, b);
  }

  /** The id, if the node is valid. */
  method ReadOid(raw: Raw, buf: string, pos: nat, entryCount: int, ghost it: CacheTree)
    returns (ok: bool, oid: Oid, cur: nat)
    requires pos <= |buf| && RawOk(raw)
    ensures ok ==> pos <= cur <= |buf|
    ensures entryCount == it.entryCount && Has(buf, pos, OidPart(raw, it)) ==>
      ok && oid == Stored(it).oid && cur == pos + |OidPart(raw, it)|
    ensures entryCount == it.entryCount && Cut(buf, pos, OidPart(raw, it)) ==> !ok
  {
    ok, oid, cur := true, 0, pos;
    if 0 <= entryCount {
      if |buf| - cur < raw.size {
        return false, oid, cur;
      }
      oid := raw.oid(buf[cur..cur + raw.size]);
      cur := cur + raw.size;
    }
  }

  /** What comes before the subtrees. */
  method ReadFront(raw: Raw, buf: string, pos: nat, ghost node: bool, ghost name: string, ghost it: CacheTree,
                   ghost whole: bool, ghost end: nat)
    returns (ok: bool, h: NodeHead, oid: Oid, cur: nat)
    requires pos <= |buf| && RawOk(raw) && (node ==> InParts(raw, buf, pos, name, it, whole, end))
    ensures ok ==> h.NodeHead? && pos < cur <= |buf|
    ensures node && !ok ==> !whole
    ensures node && ok ==>
      h.entryCount == it.entryCount && h.subtreeNr == |it.down| && oid == Stored(it).oid
        && Left(raw, buf, it.down, cur, whole, end)
  {
    h := ReadNodeHead(buf, pos, node, name, it);
    ok, oid, cur := false, 0, 0;
    if h.NodeHead? {
      ok, oid, cur := ReadOid(raw, buf, h.end, h.entryCount, it);
    }
  }

  /** Reads a node and all below it: exactly what was written, if a node was; what was cut off is not accepted. */
  method ReadOne(raw: Raw, buf: string, pos: nat, ghost node: bool, ghost name: string, ghost it: CacheTree,
                 ghost whole: bool)
    returns (r: ReadResult)
    requires pos <= |buf| && RawOk(raw) && (node ==> Node(raw, buf, pos, name, it, whole))
    ensures r.Read? ==> pos < r.pos <= |buf|
    ensures node ==> r == if whole then Read(Stored(it), pos + |Encode(raw, name, it)|) else Corrupt
    decreases |buf| - pos, 1
  {
    ghost var end := pos + |Encode(raw, name, it)|;
    if node {
      NodeParts(raw, buf, pos, name, it, whole);
    }
    r := ReadParts(raw, buf, pos, node, name, it, whole, end);
  }

  method ReadParts(raw: Raw, buf: string, pos: nat, ghost node: bool, ghost name: string, ghost it: CacheTree,
                   ghost whole: bool, ghost end: nat)
    returns (r: ReadResult)
    requires pos <= |buf| && RawOk(raw)
      && (node ==> InParts(raw, buf, pos, name, it, whole, end) && Writable(it))
    ensures r.Read? ==> pos < r.pos <= |buf|
    ensures node ==> r == if whole then Read(Stored(it), end) else Corrupt
    decreases |buf| - pos, 0
  {
    var ok, h, oid, cur := ReadFront(raw, buf, pos, node, name, it, whole, end);
    if !ok {
      return Corrupt;
    }
    r := ReadDown(raw, buf, cur, h.entryCount, oid, h.subtreeNr, node, it, whole, end);
  }

  /** What is left of the subtrees: there up to end, or cut off. */
  ghost predicate Left(raw: Raw, buf: string, down: seq<Sub>, cur: nat, whole: bool, end: nat) {
    if whole then Has(buf, cur, EncodeDown(raw, down)) && cur + |EncodeDown(raw, down)| == end
      else Cut(buf, cur, EncodeDown(raw, down))
  }

  // where the subtrees of a node are in the buffer, and how many of them are there before the end cuts one off
  datatype Layout = Layout(offs: seq<nat>, there: nat)

  /** The subtrees up to there are whole, one behind the other, and the next one, if any, is cut off. */
  ghost predicate LaidOut(raw: Raw, buf: string, down: seq<Sub>, l: Layout) {
    && |l.offs| == |down| + 1 && l.there <= |down|
    && (forall i {:trigger SubtreeAt(raw, buf, down, l, i)} ::
        0 <= i < |down| && i <= l.there ==> SubtreeAt(raw, buf, down, l, i))
  }

  ghost predicate SubtreeAt(raw: Raw, buf: string, down: seq<Sub>, l: Layout, i: nat) {
    && i < |down| && i + 1 < |l.offs| && Node(raw, buf, l.offs[i], down[i].name, down[i].tree, i < l.there)
    && (i < l.there ==> l.offs[i + 1] == l.offs[i] + |Encode(raw, down[i].name, down[i].tree)|)
  }

  lemma CutHas(buf: string, pos: nat, text: string)
    ensures !(Cut(buf, pos, text) && Has(buf, pos, text))
  {
  }

  ghost predicate AllWritable(down: seq<Sub>)
  {
    forall i :: 0 <= i < |down| ==> NulFree(down[i].name) && Writable(down[i].tree)
  }

  lemma {:induction false} LayOut(raw: Raw, buf: string, down: seq<Sub>, pos: nat, whole: bool, end: nat)
    returns (l: Layout)
    requires AllWritable(down) && Left(raw, buf, down, pos, whole, end)
    ensures LaidOut(raw, buf, down, l) && l.offs[0] == pos && (whole ==> l.there == |down| && l.offs[|down|] == end)
      && (!whole ==> l.there < |down|)
    decreases |down|
  {
    if down == [] {
      l := Layout([pos], 0);
    } else {
      var text, rest := Encode(raw, down[0].name, down[0].tree), EncodeDown(raw, down[1..]);
      if whole {
        HasParts(buf, pos, text, rest);
      } else {
        CutParts(buf, pos, text, rest);
        CutHas(buf, pos, text);
      }
      if Has(buf, pos, text) {
        var m := LayOut(raw, buf, down[1..], pos + |text|, whole, end);
        l := LaidBefore(raw, buf, down, pos, text, m);
      } else {
        l := Layout([pos] + seq(|down|, i => 0), 0);
        assert SubtreeAt(raw, buf, down, l, 0);
      }
    }
  }

  lemma LaidBefore(raw: Raw, buf: string, down: seq<Sub>, pos: nat, text: string, m: Layout) returns (l: Layout)
    requires down != [] && text == Encode(raw, down[0].name, down[0].tree)
      && Node(raw, buf, pos, down[0].name, down[0].tree, true)
    requires LaidOut(raw, buf, down[1..], m) && m.offs[0] == pos + |text|
    ensures LaidOut(raw, buf, down, l) && l.offs[0] == pos && l.there == m.there + 1
      && l.offs[|down|] == m.offs[|down| - 1]
  {
    l := Layout([pos] + m.offs, m.there + 1);
    forall i | 0 <= i < |down| && i <= l.there
      ensures SubtreeAt(raw, buf, down, l, i)
    {
      if i > 0 {
        assert SubtreeAt(raw, buf, down[1..], m, i - 1);
        Shifted(raw, buf, down, l, m, i);
      }
    }
  }

  lemma Shifted(raw: Raw, buf: string, down: seq<Sub>, l: Layout, m: Layout, i: nat)
    requires 0 < i < |down| && SubtreeAt(raw, buf, down[1..], m, i - 1) && i + 1 < |l.offs| == |m.offs| + 1
      && l.there == m.there + 1
    requires l.offs[i] == m.offs[i - 1] && l.offs[i + 1] == m.offs[i]
    ensures SubtreeAt(raw, buf, down, l, i)
  {
    assert down[1..][i - 1] == down[i];
  }

  lemma {:induction false} StoredAt(down: seq<Sub>, i: nat)
    requires i < |down|
    ensures StoredDown(down)[i] == Sub(down[i].name, Stored(down[i].tree), 0, false)
    decreases |down|
  {
    if i > 0 {
      StoredAt(down[1..], i - 1);
    }
  }

  lemma KeptNext(subs: seq<Sub>, down: seq<Sub>, i: nat)
    requires i < |subs| && down == StoredDown(subs)[..i]
    ensures down + [Sub(subs[i].name, Stored(subs[i].tree), 0, false)] == StoredDown(subs)[..i + 1]
  {
    TakeNext(StoredDown(subs), i);
    StoredAt(subs, i);
  }

  lemma TakeNext(subs: seq<Sub>, i: nat)
    requires i < |subs|
    ensures subs[..i] + [subs[i]] == subs[..i + 1]
  {
  }

  lemma SortsBehind(it: seq<Sub>, down: seq<Sub>, i: nat)
    requires SortedDown(it) && i < |it| && down == StoredDown(it)[..i]
    ensures AllBefore(down, it[i].name)
  {
  }

  method ReadDown(raw: Raw, buf: string, pos: nat, entryCount: int, oid: Oid, subtreeNr: int, ghost node: bool,
                  ghost it: CacheTree, ghost whole: bool, ghost end: nat)
    returns (r: ReadResult)
    requires pos <= |buf| && RawOk(raw)
      && (node ==> Writable(it) && subtreeNr == |it.down| && Left(raw, buf, it.down, pos, whole, end))
    ensures r.Read? ==> pos <= r.pos <= |buf|
    ensures node ==> r == if whole then Read(CacheTree(entryCount, oid, StoredDown(it.down)), end) else Corrupt
    decreases |buf| - pos, 5
  {
    ghost var l := Layout([], 0);
    if node {
      assert forall i :: 0 <= i < |it.down| ==> it.down[i] in it.down;
      l := LayOut(raw, buf, it.down, pos, whole, end);
    }
    r := ReadSubtrees(raw, buf, pos, entryCount, oid, subtreeNr, node, it.down, l);
  }

  /** The subtrees, one after the other. */
  method ReadSubtrees(raw: Raw, buf: string, pos: nat, entryCount: int, oid: Oid, subtreeNr: int, ghost node: bool,
                      ghost subs: seq<Sub>, ghost l: Layout)
    returns (r: ReadResult)
    requires pos <= |buf| && RawOk(raw)
      && (node ==> SortedDown(subs) && subtreeNr == |subs| && LaidOut(raw, buf, subs, l) && l.offs[0] == pos)
    ensures r.Read? ==> pos <= r.pos <= |buf|
    ensures node ==> r == if l.there == |subs| then Read(CacheTree(entryCount, oid, StoredDown(subs)), l.offs[|subs|])
      else Corrupt
    decreases |buf| - pos, 4
  {
    ghost var kept := StoredDown(subs);
    var cur: nat, down: seq<Sub> := pos, [];
    var i := 0;
    while i < subtreeNr
      invariant 0 <= i && pos <= cur <= |buf| && SortedDown(down)
        && (node ==> i <= l.there && cur == l.offs[i] && down == kept[..i])
      decreases subtreeNr - i
    {
      r, down := ReadNext(raw, buf, cur, down, node, subs, l, i);
      if !r.Read? {
        return;
      }
      cur := r.pos;
      i := i + 1;
    }
    if subtreeNr != |down| {
      return Died;
    }
    r := Read(CacheTree(entryCount, oid, down), cur);
  }

  /** The next subtree, if it is there. */
  method ReadNext(raw: Raw, buf: string, cur: nat, down: seq<Sub>, ghost node: bool, ghost subs: seq<Sub>,
                  ghost l: Layout, ghost i: nat)
    returns (r: ReadResult, down': seq<Sub>)
    requires cur <= |buf| && RawOk(raw) && SortedDown(down)
    requires node ==>
      SortedDown(subs) && LaidOut(raw, buf, subs, l) && i < |subs| && i <= l.there && cur == l.offs[i]
        && down == StoredDown(subs)[..i]
    ensures r.Read? ==> cur < r.pos <= |buf| && SortedDown(down')
    ensures node && i < l.there ==> r.Read? && r.pos == l.offs[i + 1] && down' == StoredDown(subs)[..i + 1]
    ensures node && i == l.there ==> r == Corrupt
    decreases |buf| - cur, 3
  {
    ghost var s := if node then subs[i] else Sub("", EmptyTree, 0, false);
    if node {
      SortsBehind(subs, down, i);
      KeptNext(subs, down, i);
      assert SubtreeAt(raw, buf, subs, l, i);
    }
    r, down' := ReadSubtree(raw, buf, cur, down, node, s, i < l.there);
  }

  /** Reads a subtree and puts it in its place. */
  method ReadSubtree(raw: Raw, buf: string, cur: nat, down: seq<Sub>, ghost node: bool, ghost s: Sub, ghost there: bool)
    returns (r: ReadResult, down': seq<Sub>)
    requires cur <= |buf| && RawOk(raw) && SortedDown(down)
      && (node ==> Node(raw, buf, cur, s.name, s.tree, there) && AllBefore(down, s.name))
    ensures r.Read? ==> cur < r.pos <= |buf| && SortedDown(down')
    ensures node && there ==>
      r.Read? && r.pos == cur + |Encode(raw, s.name, s.tree)| && down' == down + [Sub(s.name, Stored(s.tree), 0, false)]
    ensures node && !there ==> r == Corrupt
    decreases |buf| - cur, 2
  {
    down' := down;
    var nul := FindNul(buf, cur);
    r := ReadOne(raw, buf, cur, node, s.name, s.tree, there);
    if r.Read? {
      if node {
        NameRead(raw, buf, cur, s.name, s.tree, nul);
      }
      down' := AddSubtree(down, buf[cur..nul], r.tree);
    }
  }

  lemma NameRead(raw: Raw, buf: string, pos: nat, name: string, it: CacheTree, nul: nat)
    requires NulFree(name) && Has(buf, pos, Encode(raw, name, it))
    requires pos <= nul <= |buf| && (forall i :: pos <= i < nul ==> buf[i] != '\0')
      && (nul < |buf| ==> buf[nul] == '\0')
    ensures buf[pos..nul] == name
  {
    HasParts(buf, pos, Header(name, it), OidPart(raw, it) + EncodeDown(raw, it.down));
    var counts := Counts(NumeralOf(it.entryCount), NumeralOf(|it.down|));
    NulFound(buf, pos, name, counts, nul);
    HasParts(buf, pos, name, "\0" + counts);
  }

  /**
     What is written for a tree, with anything behind it, is read as the tree as it is kept, and nothing behind it is
     touched.
   */
  method WriteAndRead(raw: Raw, it: CacheTree, after: string) returns (text: string, r: ReadResult)
    requires RawOk(raw) && Writable(it)
    ensures text == Encode(raw, "", it) && r == Read(Stored(it), |text|)
  {
    text := WriteOne(raw, "", "", it);
    assert "" + Encode(raw, "", it) == Encode(raw, "", it);
    HasParts(text + after, 0, text, after);
    assert (text + after)[0..|text|] == text;
    r := ReadOne(raw, text + after, 0, true, "", it, true);
  }

  /** Whatever is missing at the end, a cut-off text is refused. */
  method ReadCutOff(raw: Raw, it: CacheTree, text: string, n: nat) returns (r: ReadResult)
    requires RawOk(raw) && Writable(it) && text == Encode(raw, "", it) && n < |text|
    ensures r == Corrupt
  {
    assert text[..n][0..] == text[..n];
    r := ReadOne(raw, text[..n], 0, true, "", it, false);
  }
}
