/**
 Base-85 text for binary patches (git/base85.c): four bytes make five characters.
 */
module Base85 {

  datatype Option<+T> = None | Some(value: T)

  type Bytes = seq<nat>

  ghost predicate AreBytes(data: Bytes) { forall i :: 0 <= i < |data| ==> data[i] < 256 }

  // ---- the alphabet ----

  /** The character for a digit. */
  function CharOf(i: nat): char
    requires i < 85
  {
    if i < 10 then ('0' as int + i) as char
    else if i < 36 then ('A' as int + i - 10) as char
    else if i < 62 then ('a' as int + i - 36) as char
    else match i
    case 62 => '!' case 63 => '#' case 64 => '$' case 65 => '%' case 66 => '&' case 67 => '(' case 68 => ')'
    case 69 => '*' case 70 => '+' case 71 => '-' case 72 => ';' case 73 => '<' case 74 => '=' case 75 => '>'
    case 76 => '?' case 77 => '@' case 78 => '^' case 79 => '_' case 80 => '`' case 81 => '{' case 82 => '|'
    case 83 => '}' case _ => '~'
  }

  /** The digit a character stands for, or -1. */
  function DigitOf(c: char): int {
    if '0' <= c <= '9' then c as int - '0' as int
    else if 'A' <= c <= 'Z' then c as int - 'A' as int + 10
    else if 'a' <= c <= 'z' then c as int - 'a' as int + 36
    else match c
    case '!' => 62 case '#' => 63 case '$' => 64 case '%' => 65 case '&' => 66 case '(' => 67 case ')' => 68
    case '*' => 69 case '+' => 70 case '-' => 71 case ';' => 72 case '<' => 73 case '=' => 74 case '>' => 75
    case '?' => 76 case '@' => 77 case '^' => 78 case '_' => 79 case '`' => 80 case '{' => 81 case '|' => 82
    case '}' => 83 case '~' => 84
    case _ => -1
  }

  lemma DigitOfChar(i: nat)
    requires i < 85
    ensures DigitOf(CharOf(i)) == i
  {
  }

  lemma CharOfDigit(c: char)
    ensures -1 <= DigitOf(c) < 85 && (DigitOf(c) >= 0 ==> CharOf(DigitOf(c)) == c)
  {
  }

  // ---- one group ----

  /** The number that five digits make up. */
  function Value(s: string): int
    requires |s| == 5
  {
    (((DigitOf(s[0]) * 85 + DigitOf(s[1])) * 85 + DigitOf(s[2])) * 85 + DigitOf(s[3])) * 85 + DigitOf(s[4])
  }

  ghost predicate AllDigits(s: string) { forall i :: 0 <= i < |s| ==> DigitOf(s[i]) >= 0 }

  function Word4(b0: nat, b1: nat, b2: nat, b3: nat): nat { ((b0 * 256 + b1) * 256 + b2) * 256 + b3 }

  function At(b: Bytes, i: nat): nat { if i < |b| then b[i] else 0 }

  /** The number that four bytes make up, missing ones counting as zero. */
  function Word(b: Bytes): nat { Word4(At(b, 0), At(b, 1), At(b, 2), At(b, 3)) }

  /** The four bytes of a number. */
  function BytesOf(acc: nat): (b: Bytes)
    ensures |b| == 4
  {
    [acc / 0x100_0000 % 256, acc / 0x1_0000 % 256, acc / 0x100 % 256, acc % 256]
  }

  lemma BytesOfWord4(b0: nat, b1: nat, b2: nat, b3: nat)
    requires b0 < 256 && b1 < 256 && b2 < 256 && b3 < 256
    ensures Word4(b0, b1, b2, b3) < 0x1_0000_0000 && BytesOf(Word4(b0, b1, b2, b3)) == [b0, b1, b2, b3]
  {
    var acc := Word4(b0, b1, b2, b3);
    assert acc / 0x100 == (b0 * 256 + b1) * 256 + b2 && acc / 0x1_0000 == b0 * 256 + b1 && acc / 0x100_0000 == b0;
  }

  lemma WordOfBytes(acc: nat)
    requires acc < 0x1_0000_0000
    ensures Word(BytesOf(acc)) == acc && AreBytes(BytesOf(acc))
  {
    var a, b, c := acc / 0x100, acc / 0x1_0000, acc / 0x100_0000;
    assert acc == a * 256 + acc % 256 && a == b * 256 + a % 256 && b == c * 256 + b % 256 && c < 256;
  }

  /** The bytes that make up a number come first among its bytes. */
  lemma BytesOfWord(b: Bytes)
    requires AreBytes(b) && |b| <= 4
    ensures Word(b) < 0x1_0000_0000 && BytesOf(Word(b))[..|b|] == b
  {
    BytesOfWord4(At(b, 0), At(b, 1), At(b, 2), At(b, 3));
  }

  /** The five digits of a number. */
  function Chars(acc: nat): (s: string)
    ensures |s| == 5
  {
    [CharOf(acc / 52200625 % 85), CharOf(acc / 614125 % 85), CharOf(acc / 7225 % 85), CharOf(acc / 85 % 85),
     CharOf(acc % 85)]
  }

  lemma SumOfDigits(acc: nat)
    requires acc < 0x1_0000_0000
    ensures (((acc / 52200625 % 85 * 85 + acc / 614125 % 85) * 85 + acc / 7225 % 85) * 85 + acc / 85 % 85) * 85 +
      acc % 85 == acc
  {
    var a, b, c, d := acc / 85, acc / 7225, acc / 614125, acc / 52200625;
    assert acc == a * 85 + acc % 85;
    assert a == b * 85 + a % 85;
    assert b == c * 85 + b % 85;
    assert c == d * 85 + c % 85 && d < 85;
  }

  lemma ValueIs(s: string, a: nat, b: nat, c: nat, d: nat, e: nat)
    requires a < 85 && b < 85 && c < 85 && d < 85 && e < 85
      && s == [CharOf(a), CharOf(b), CharOf(c), CharOf(d), CharOf(e)]
    ensures AllDigits(s) && Value(s) == (((a * 85 + b) * 85 + c) * 85 + d) * 85 + e
  {
    DigitOfChar(a);
    DigitOfChar(b);
    DigitOfChar(c);
    DigitOfChar(d);
    DigitOfChar(e);
  }

  lemma ValueOfChars(acc: nat)
    requires acc < 0x1_0000_0000
    ensures AllDigits(Chars(acc)) && Value(Chars(acc)) == acc
  {
    ValueIs(Chars(acc), acc / 52200625 % 85, acc / 614125 % 85, acc / 7225 % 85, acc / 85 % 85, acc % 85);
    SumOfDigits(acc);
  }

  lemma CharsOfValue(s: string)
    requires |s| == 5 && AllDigits(s)
    ensures Value(s) >= 0 && Chars(Value(s)) == s
  {
    CharOfDigit(s[0]);
    CharOfDigit(s[1]);
    CharOfDigit(s[2]);
    CharOfDigit(s[3]);
    CharOfDigit(s[4]);
    DigitsOfSum(DigitOf(s[0]), DigitOf(s[1]), DigitOf(s[2]), DigitOf(s[3]), DigitOf(s[4]));
  }

  lemma DigitsOfSum(a: nat, b: nat, c: nat, d: nat, e: nat)
    requires a < 85 && b < 85 && c < 85 && d < 85 && e < 85
    ensures var acc := (((a * 85 + b) * 85 + c) * 85 + d) * 85 + e;
      acc % 85 == e && acc / 85 % 85 == d && acc / 7225 % 85 == c && acc / 614125 % 85 == b && acc / 52200625 % 85 == a
  {
    var acc := (((a * 85 + b) * 85 + c) * 85 + d) * 85 + e;
    assert acc / 85 == ((a * 85 + b) * 85 + c) * 85 + d && acc / 7225 == (a * 85 + b) * 85 + c;
    assert acc / 614125 == a * 85 + b && acc / 52200625 == a;
  }

  /** A group is accepted if its characters are digits and its number fits in 32 bits. */
  ghost predicate GroupOk(s: string) { |s| == 5 && AllDigits(s) && Value(s) < 0x1_0000_0000 }

  // ---- whole texts ----

  function Min(a: nat, b: nat): nat { if a < b then a else b }

  // how a group is written and read, apart from which the texts are put together in the same way
  datatype Group = Group(write: Bytes -> string, read: string -> Option<Bytes>)

  ghost function TheGroup(): Group {
    Group(b => Chars(Word(b)), s => if GroupOk(s) then Some(BytesOf(Value(s))) else None)
  }

  /** Up to four bytes make a group of five characters, and come first in what it is read as. */
  ghost predicate Back(g: Group, b: Bytes) {
    |b| <= 4 && |g.write(b)| == 5 && g.read(g.write(b)).Some? && |g.read(g.write(b)).value| == 4
      && g.read(g.write(b)).value[..|b|] == b
  }

  /** A group that is read is written the same. */
  ghost predicate Forth(g: Group, s: string)
  {
    g.read(s).Some? ==> |s| == 5 && |g.read(s).value| == 4 && g.write(g.read(s).value) == s
  }

  ghost predicate Inverse(g: Group) {
    && (forall b: Bytes {:trigger Back(g, b)} :: AreBytes(b) && |b| <= 4 ==> Back(g, b))
    && (forall s {:trigger Forth(g, s)} :: Forth(g, s))
  }

  lemma TheGroupInverse()
    ensures Inverse(TheGroup())
  {
    var g := TheGroup();
    forall b: Bytes | AreBytes(b) && |b| <= 4
      ensures Back(g, b)
    {
      BytesOfWord(b);
      ValueOfChars(Word(b));
    }
    forall s
      ensures Forth(g, s)
    {
      if g.read(s).Some? {
        ReadIsWritten(s);
      }
    }
  }

  lemma ReadIsWritten(s: string)
    requires GroupOk(s)
    ensures Value(s) >= 0 && AreBytes(BytesOf(Value(s))) && Chars(Word(BytesOf(Value(s)))) == s
  {
    CharsOfValue(s);
    WordOfBytes(Value(s));
  }

  ghost function Encode(g: Group, data: Bytes): string {
    if data == [] then "" else g.write(data[..Min(4, |data|)]) + Encode(g, data[Min(4, |data|)..])
  }

  /** What len bytes are decoded to; none if a group is not accepted. */
  ghost function Decode(g: Group, text: string, len: nat): Option<Bytes> {
    if len == 0 then Some([])
    else if |text| < 5 || g.read(text[..5]) == None || |g.read(text[..5]).value| != 4 then None
    else
      var rest := Decode(g, text[5..], len - Min(4, len));
      if rest == None then None else Some(g.read(text[..5]).value[..Min(4, len)] + rest.value)
  }

  /** Decoding what was encoded gives the bytes back, whatever follows the text. */
  lemma {:induction false} DecodeEncode(g: Group, data: Bytes, after: string)
    requires Inverse(g) && AreBytes(data)
    ensures Decode(g, Encode(g, data) + after, |data|) == Some(data)
    decreases |data|
  {
    if data != [] {
      var n := Min(4, |data|);
      var head, tail := data[..n], data[n..];
      var w, rest := g.write(head), Encode(g, tail) + after;
      assert AreBytes(head) && AreBytes(tail);
      assert Back(g, head);
      DecodeEncode(g, tail, after);
      assert Encode(g, data) + after == w + rest;
      DecodeGroup(g, w, rest, |data|);
      assert head + tail == data;
    }
  }

  lemma DecodeGroup(g: Group, w: string, rest: string, len: nat)
    requires len > 0 && |w| == 5 && g.read(w).Some? && |g.read(w).value| == 4
      && Decode(g, rest, len - Min(4, len)).Some?
    ensures Decode(g, w + rest, len) == Some(g.read(w).value[..Min(4, len)] + Decode(g, rest, len - Min(4, len)).value)
  {
    assert (w + rest)[..5] == w && (w + rest)[5..] == rest;
  }

  /** Encoding what was decoded from whole groups gives the text back. */
  lemma {:induction false} EncodeDecode(g: Group, text: string, len: nat)
    requires Inverse(g) && len % 4 == 0 && |text| == len / 4 * 5 && Decode(g, text, len).Some?
    ensures Encode(g, Decode(g, text, len).value) == text && |Decode(g, text, len).value| == len
    decreases len
  {
    if len > 0 {
      var group, rest := text[..5], text[5..];
      EncodeDecode(g, rest, len - 4);
      var data := Decode(g, text, len).value;
      assert Forth(g, group);
      assert data[..4] == g.read(group).value && data[4..] == Decode(g, rest, len - 4).value;
      assert text == group + rest;
    } else {
      assert text == "";
    }
  }

  // ---- the table ----

  ghost predicate FilledTo(table: array<int>, n: nat)
    requires table.Length == 256
    reads table
  {
    forall c: char :: c as int < 256 ==> table[c as int] == if 0 <= DigitOf(c) < n then DigitOf(c) + 1 else 0
  }

  /** Fills the table of digits once. */
  method Prep(table: array<int>)
    requires table.Length == 256 && (FilledTo(table, 0) || FilledTo(table, 85))
    modifies table
    ensures FilledTo(table, 85)
  {
    assert DigitOf('Z') == 35;
    if table['Z' as int] != 0 {
      return;
    }
    var i := 0;
    while i < 85
      invariant 0 <= i <= 85 && FilledTo(table, i)
    {
      DigitOfChar(i);
      var ch := CharOf(i);
      forall c: char | DigitOf(c) == i
        ensures c == ch
      {
        CharOfDigit(c);
      }
      table[ch as int] := i + 1;
      i := i + 1;
    }
    forall c: char
      ensures DigitOf(c) < 85
    {
      CharOfDigit(c);
    }
  }

  // ---- decoding ----

  ghost predicate ByteText(text: string) { forall i :: 0 <= i < |text| ==> text[i] as int < 256 }

  function CharAt(text: string, i: nat): char { if i < |text| then text[i] else '\0' }

  /** The number of the digits from pos on, up to the i-th. */
  function Sum(text: string, pos: nat, i: nat): int {
    if i == 0 then 0 else Sum(text, pos, i - 1) * 85 + DigitOf(CharAt(text, pos + i - 1))
  }

  ghost predicate DigitsTo(text: string, pos: nat, i: nat)
  {
    forall k :: pos <= k < pos + i ==> DigitOf(CharAt(text, k)) >= 0
  }

  lemma SumBounds(text: string, pos: nat, i: nat)
    requires i <= 4 && DigitsTo(text, pos, i)
    ensures 0 <= Sum(text, pos, i) && (i == 0 ==> Sum(text, pos, i) < 1) && (i == 1 ==> Sum(text, pos, i) < 85)
      && (i == 2 ==> Sum(text, pos, i) < 7225)
    ensures (i == 3 ==> Sum(text, pos, i) < 614125) && (i == 4 ==> Sum(text, pos, i) < 52200625)
  {
    if i > 0 {
      SumBounds(text, pos, i - 1);
      CharOfDigit(CharAt(text, pos + i - 1));
    }
  }

  lemma SumIsValue(text: string, pos: nat)
    requires pos + 5 <= |text|
    ensures Sum(text, pos, 5) == Value(text[pos..pos + 5])
    ensures DigitsTo(text, pos, 5) <==> AllDigits(text[pos..pos + 5])
  {
    var s := text[pos..pos + 5];
    assert forall i :: 0 <= i < 5 ==> s[i] == CharAt(text, pos + i);
    assert s[0] == CharAt(text, pos) && s[1] == CharAt(text, pos + 1) && s[2] == CharAt(text, pos + 2)
      && s[3] == CharAt(text, pos + 3) && s[4] == CharAt(text, pos + 4);
    assert Sum(text, pos, 1) == DigitOf(s[0]);
    assert Sum(text, pos, 2) == Sum(text, pos, 1) * 85 + DigitOf(s[1]);
    assert Sum(text, pos, 3) == Sum(text, pos, 2) * 85 + DigitOf(s[2]);
    assert Sum(text, pos, 4) == Sum(text, pos, 3) * 85 + DigitOf(s[3]);
    if AllDigits(s) {
      forall k | pos <= k < pos + 5
        ensures DigitOf(CharAt(text, k)) >= 0
      {
        assert s[k - pos] == CharAt(text, k);
      }
    }
  }

  /** The two checks against overflow, made before a 32-bit product can wrap, are exact. */
  lemma OverflowExact(acc: nat, de: nat)
    requires acc < 52200625 && de < 85
    ensures 0xffff_ffff / 85 < acc || 0xffff_ffff - de < acc * 85 % 0x1_0000_0000 <==> acc * 85 + de > 0xffff_ffff
    ensures acc * 85 + de <= 0xffff_ffff ==> acc * 85 % 0x1_0000_0000 == acc * 85
  {
  }

  /** A digit, by the table; none for other characters. */
  method ReadDigit(table: array<int>, text: string, k: nat) returns (de: int)
    requires table.Length == 256 && FilledTo(table, 85) && ByteText(text)
    ensures de == DigitOf(CharAt(text, k)) && -1 <= de < 85
  {
    var ch := CharAt(text, k);
    CharOfDigit(ch);
    de := table[ch as int] - 1;
  }

  lemma SumNext(text: string, pos: nat, i: nat, acc: nat, de: int)
    requires i < 4 && DigitsTo(text, pos, i) && acc == Sum(text, pos, i) && de == DigitOf(CharAt(text, pos + i)) >= 0
    ensures DigitsTo(text, pos, i + 1)
      && (acc * 85 + de) % 0x1_0000_0000 == Sum(text, pos, i + 1) == acc * 85 + de < 52200625
  {
    SumBounds(text, pos, i + 1);
  }

  /** Reads five characters as a 32-bit number: accepted exactly if they are digits of a number that fits. */
  method ReadGroup(table: array<int>, text: string, pos: nat) returns (r: Option<nat>)
    requires table.Length == 256 && FilledTo(table, 85) && ByteText(text)
    ensures r == if DigitsTo(text, pos, 5) && Sum(text, pos, 5) < 0x1_0000_0000 then Some(Sum(text, pos, 5)) else None
  {
    var acc: nat, i := 0, 0;
    while i < 4
      invariant 0 <= i <= 4 && DigitsTo(text, pos, i) && acc == Sum(text, pos, i) < 52200625
    {
      var de := ReadDigit(table, text, pos + i);
      if de < 0 {
        return None;
      }
      SumNext(text, pos, i, acc, de);
      acc := (acc * 85 + de) % 0x1_0000_0000;
      i := i + 1;
    }
    var de := ReadDigit(table, text, pos + 4);
    if de < 0 {
      return None;
    }
    OverflowExact(acc, de);
    assert Sum(text, pos, 5) == acc * 85 + de;
    if 0xffff_ffff / 85 < acc || 0xffff_ffff - de < acc * 85 % 0x1_0000_0000 {
      return None;
    }
    return Some(acc * 85 % 0x1_0000_0000 + de);
  }

  lemma GroupRead(text: string, pos: nat)
    ensures DigitsTo(text, pos, 5) && Sum(text, pos, 5) < 0x1_0000_0000 <==>
      pos + 5 <= |text| && GroupOk(text[pos..pos + 5])
    ensures pos + 5 <= |text| ==> Sum(text, pos, 5) == Value(text[pos..pos + 5])
  {
    if pos + 5 <= |text| {
      SumIsValue(text, pos);
    } else {
      assert pos + 4 >= |text| && CharAt(text, pos + 4) == '\0' && DigitOf('\0') == -1;
    }
  }

  /** Rotating a word by one byte moves its first byte to the end. */
  lemma RotateWord(b0: nat, b1: nat, b2: nat, b3: nat)
    requires b0 < 256 && b1 < 256 && b2 < 256 && b3 < 256
    ensures var w := Word4(b0, b1, b2, b3); w * 0x100 % 0x1_0000_0000 + w / 0x100_0000 == Word4(b1, b2, b3, b0)
    ensures Word4(b1, b2, b3, b0) % 0x100 == b0
  {
    var w, m := Word4(b0, b1, b2, b3), (b1 * 256 + b2) * 256 + b3;
    assert w == b0 * 0x100_0000 + m && m < 0x100_0000;
    assert w / 0x100_0000 == b0;
    assert w * 0x100 == b0 * 0x1_0000_0000 + m * 0x100;
    assert w * 0x100 % 0x1_0000_0000 == m * 0x100;
  }

  ghost function Turned(b: Bytes, k: nat): nat
    requires |b| == 4
  {
    if k == 1 then Word4(b[1], b[2], b[3], b[0]) else if k == 2 then Word4(b[2], b[3], b[0], b[1]) else if k == 3 then
      Word4(b[3], b[0], b[1], b[2])
    else Word4(b[0], b[1], b[2], b[3])
  }

  lemma TurnedNext(b: Bytes, k: nat)
    requires |b| == 4 && AreBytes(b) && k < 4
    ensures Turned(b, k) * 0x100 % 0x1_0000_0000 + Turned(b, k) / 0x100_0000 == Turned(b, k + 1)
      && Turned(b, k + 1) % 0x100 == b[k]
  {
    if k == 0 {
      RotateWord(b[0], b[1], b[2], b[3]);
    } else if k == 1 {
      RotateWord(b[1], b[2], b[3], b[0]);
    } else if k == 2 {
      RotateWord(b[2], b[3], b[0], b[1]);
    } else {
      RotateWord(b[3], b[0], b[1], b[2]);
    }
  }

  /** The first bytes of a word, by rotating them to its end one after the other. */
  method Unpack(word: nat, count: nat, ghost b: Bytes) returns (out: Bytes)
    requires |b| == 4 && AreBytes(b) && word == Turned(b, 0) && 1 <= count <= 4
    ensures out == b[..count]
  {
    out := [];
    var acc, cnt := word, count;
    while cnt > 0
      invariant 0 <= cnt <= count && out == b[..count - cnt] && acc == Turned(b, count - cnt)
    {
      TurnedNext(b, count - cnt);
      acc := acc * 0x100 % 0x1_0000_0000 + acc / 0x100_0000;
      out := out + [acc % 0x100];
      cnt := cnt - 1;
    }
  }

  ghost function Then(a: Bytes, r: Option<Bytes>): Option<Bytes> { if r == None then None else Some(a + r.value) }

  /** The group at pos, if there is one. */
  ghost function GroupAt(g: Group, text: string, pos: nat): Option<Bytes> {
    if pos + 5 <= |text| && g.read(text[pos..pos + 5]).Some? && |g.read(text[pos..pos + 5]).value| == 4 then
      g.read(text[pos..pos + 5]) else None
  }

  lemma DecodeStep(g: Group, text: string, pos: nat, len: nat)
    requires pos <= |text| && len > 0
    ensures GroupAt(g, text, pos) == None ==> Decode(g, text[pos..], len) == None
    ensures GroupAt(g, text, pos).Some? ==> |GroupAt(g, text, pos).value| == 4 && pos + 5 <= |text|
    ensures GroupAt(g, text, pos).Some? ==>
      Decode(g, text[pos..], len) ==
        Then(GroupAt(g, text, pos).value[..Min(4, len)], Decode(g, text[pos + 5..], len - Min(4, len)))
  {
    var t := text[pos..];
    if pos + 5 <= |text| {
      assert t[..5] == text[pos..pos + 5] && t[5..] == text[pos + 5..];
    }
  }

  /** The first count bytes of the group at pos. */
  method ReadBytes(table: array<int>, text: string, pos: nat, count: nat, ghost g: Group) returns (r: Option<Bytes>)
    requires table.Length == 256 && FilledTo(table, 85) && ByteText(text) && 1 <= count <= 4 && g == TheGroup()
    ensures r == if GroupAt(g, text, pos).Some? then Some(GroupAt(g, text, pos).value[..count]) else None
  {
    var acc := ReadGroup(table, text, pos);
    GroupRead(text, pos);
    if acc == None {
      return None;
    }
    WordOfBytes(acc.value);
    var out := Unpack(acc.value, count, BytesOf(acc.value));
    return Some(out);
  }

  /** Group after group; an error if one is not accepted. */
  method Decode85(table: array<int>, text: string, length: nat) returns (r: Option<Bytes>)
    requires table.Length == 256 && (FilledTo(table, 0) || FilledTo(table, 85)) && ByteText(text)
    modifies table
    ensures FilledTo(table, 85) && r == Decode(TheGroup(), text, length)
  {
    Prep(table);
    r := DecodeGroups(table, text, length, TheGroup());
  }

  method DecodeGroups(table: array<int>, text: string, length: nat, ghost g: Group) returns (r: Option<Bytes>)
    requires table.Length == 256 && FilledTo(table, 85) && ByteText(text) && g == TheGroup()
    ensures r == Decode(g, text, length)
  {
    var out: Bytes, len, pos: nat := [], length, 0;
    assert text[0..] == text && forall b: Bytes :: [] + b == b;
    while len > 0
      invariant 0 <= len <= length && pos <= |text| && Decode(g, text, length) == Then(out, Decode(g, text[pos..], len))
    {
      var cnt := if len < 4 then len else 4;
      DecodeStep(g, text, pos, len);
      var b := ReadBytes(table, text, pos, cnt, g);
      if b == None {
        return None;
      }
      ThenThen(out, b.value, Decode(g, text[pos + 5..], len - cnt));
      out, len, pos := out + b.value, len - cnt, pos + 5;
    }
    assert out + [] == out;
    return Some(out);
  }

  lemma ThenThen(a: Bytes, b: Bytes, r: Option<Bytes>)
    ensures Then(a, Then(b, r)) == Then(a + b, r)
  {
    if r.Some? {
      assert a + (b + r.value) == (a + b) + r.value;
    }
  }

  // ---- encoding ----

  /** The weight of a byte by its place. */
  function Place(i: nat): nat
  {
    if i == 0 then 0x100_0000 else if i == 1 then 0x1_0000 else if i == 2 then 0x100 else 1
  }

  lemma WordPlaces(b: Bytes)
    requires |b| <= 4
    ensures Word(b) == At(b, 0) * Place(0) + At(b, 1) * Place(1) + At(b, 2) * Place(2) + At(b, 3) * Place(3)
  {
  }

  lemma PackNext(data: Bytes, pos: nat, n: nat)
    requires n < 4 && pos + n < |data|
    ensures Word(data[pos..pos + n + 1]) == Word(data[pos..pos + n]) + data[pos + n] * Place(n)
  {
    var a, b := data[pos..pos + n], data[pos..pos + n + 1];
    WordPlaces(a);
    WordPlaces(b);
    assert forall i :: 0 <= i < n ==> a[i] == b[i];
  }

  /** The words of the first bytes, from none of them to n. */
  lemma Words(data: Bytes, pos: nat, n: nat) returns (ws: seq<nat>)
    requires n <= 4 && pos + n <= |data|
    ensures |ws| == n + 1 && ws[0] == 0 && ws[n] == Word(data[pos..pos + n])
    ensures forall i :: 0 <= i < n ==> ws[i + 1] == ws[i] + data[pos + i] * Place(i)
  {
    if n == 0 {
      assert data[pos..pos] == [];
      ws := [0];
    } else {
      ws := Words(data, pos, n - 1);
      PackNext(data, pos, n - 1);
      ws := ws + [Word(data[pos..pos + n])];
    }
  }

  /** Up to four bytes from pos on, the first in the highest place. */
  method Pack(data: Bytes, pos: nat) returns (acc: nat, n: nat)
    requires pos < |data|
    ensures n == Min(4, |data| - pos) && acc == Word(data[pos..pos + n])
  {
    ghost var m := Min(4, |data| - pos);
    ghost var ws := Words(data, pos, m);
    acc, n := 0, 0;
    while n < 4 && pos + n < |data|
      invariant 0 <= n <= m && acc == ws[n]
      decreases 4 - n
    {
      acc := acc + data[pos + n] * Place(n);
      n := n + 1;
    }
  }

  lemma Quotients(word: nat) returns (q: seq<nat>)
    requires word < 0x1_0000_0000
    ensures |q| == 6 && q[0] == word && forall i ::
      0 <= i < 5 ==> q[i + 1] == q[i] / 85 && Chars(word)[4 - i] == CharOf(q[i] % 85)
  {
    q := [word, word / 85, word / 7225, word / 614125, word / 52200625, word / 52200625 / 85];
    assert word / 85 / 85 == word / 7225 && word / 7225 / 85 == word / 614125 && word / 614125 / 85 == word / 52200625;
  }

  /** The five digits of a number, the last one first. */
  method Spell(word: nat) returns (s: string)
    requires word < 0x1_0000_0000
    ensures s == Chars(word)
  {
    ghost var q := Quotients(word);
    ghost var all := Chars(word);
    s := "";
    var acc, cnt := word, 4;
    while cnt >= 0
      invariant -1 <= cnt <= 4 && acc == q[4 - cnt] && s == all[cnt + 1..]
    {
      assert all[cnt] == CharOf(q[4 - cnt] % 85) && all[cnt..] == [all[cnt]] + all[cnt + 1..];
      s := [CharOf(acc % 85)] + s;
      acc := acc / 85;
      cnt := cnt - 1;
    }
  }

  method EncodeGroup(data: Bytes, pos: nat, ghost g: Group) returns (s: string, n: nat)
    requires AreBytes(data) && pos < |data| && g == TheGroup()
    ensures n == Min(4, |data| - pos) && s == g.write(data[pos..pos + n])
  {
    var acc;
    acc, n := Pack(data, pos);
    BytesOfWord(data[pos..pos + n]);
    s := Spell(acc);
  }

  /** Group after group. */
  method Encode85(data: Bytes) returns (text: string)
    requires AreBytes(data)
    ensures text == Encode(TheGroup(), data)
  {
    text := EncodeGroups(data, TheGroup());
  }

  method EncodeGroups(data: Bytes, ghost g: Group) returns (text: string)
    requires AreBytes(data) && g == TheGroup()
    ensures text == Encode(g, data)
  {
    text := "";
    var pos: nat := 0;
    assert data[0..] == data && forall s: string :: "" + s == s;
    while pos < |data|
      invariant pos <= |data| && text + Encode(g, data[pos..]) == Encode(g, data)
    {
      var s, n := EncodeGroup(data, pos, g);
      EncodeStep(g, data, pos, n, text, s);
      text, pos := text + s, pos + n;
    }
    assert data[pos..] == [] && text + "" == text;
  }

  lemma EncodeStep(g: Group, data: Bytes, pos: nat, n: nat, text: string, s: string)
    requires pos < |data| && n == Min(4, |data| - pos) && s == g.write(data[pos..pos + n])
    ensures text + Encode(g, data[pos..]) == (text + s) + Encode(g, data[pos + n..])
  {
    var d := data[pos..];
    assert d[..n] == data[pos..pos + n] && d[n..] == data[pos + n..];
    assert text + (s + Encode(g, d[n..])) == (text + s) + Encode(g, d[n..]);
  }

  // ---- round trips ----

  /** Bytes of any number come back from their text, whatever follows it. */
  lemma BytesComeBack(data: Bytes, after: string)
    requires AreBytes(data)
    ensures Decode(TheGroup(), Encode(TheGroup(), data) + after, |data|) == Some(data)
  {
    TheGroupInverse();
    DecodeEncode(TheGroup(), data, after);
  }

  /** A text of whole groups that is accepted comes back from its bytes. */
  lemma TextComesBack(text: string, len: nat)
    requires len % 4 == 0 && |text| == len / 4 * 5 && Decode(TheGroup(), text, len).Some?
    ensures Encode(TheGroup(), Decode(TheGroup(), text, len).value) == text
  {
    TheGroupInverse();
    EncodeDecode(TheGroup(), text, len);
  }
}
