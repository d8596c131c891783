/** Byte-pair fingerprints of lines: multisets of byte pairs, kept as counts per pair. */
module Fingerprints {

  // Two neighbouring bytes of a line, lower-cased, white space as 0.
  datatype BytePair = BytePair(c0: nat, c1: nat)

  // A fingerprint counts each byte pair of a line.
  type Fingerprint = multiset<BytePair>

  function Abs(x: int): int { if x < 0 then -x else x }

  function Min(x: int, y: int): int { if x < y then x else y }

  function Max(x: int, y: int): int { if x < y then y else x }

  /** The size of the intersection, found by walking the entries of b in any order. */
  method Similarity(a: Fingerprint, b: Fingerprint) returns (intersection: nat)
    ensures intersection == |a * b|
  {
    intersection := 0;
    var todo: set<BytePair> := set x | x in b;
    ghost var rest := a * b;
    while todo != {}
      invariant todo <= set x | x in b
      invariant forall x: BytePair :: rest[x] == if x in todo then (a * b)[x] else 0
      invariant intersection + |rest| == |a * b|
      decreases todo
    {
      var x :| x in todo;
      if x in a {
        intersection := intersection + if a[x] < b[x] then a[x] else b[x];
      }
      rest := rest[x := 0];
      todo := todo - {x};
    }
    assert rest == multiset{};
  }

  /** Takes the pairs of b out of a, entry by entry: the multiset difference. */
  method Subtract(a: Fingerprint, b: Fingerprint) returns (r: Fingerprint)
    ensures r == a - b
  {
    r := a;
    var todo: set<BytePair> := set x | x in b;
    while todo != {}
      invariant todo <= set x | x in b
      invariant forall x: BytePair :: r[x] == if x in todo then a[x] else (a - b)[x]
      decreases todo
    {
      var x :| x in todo;
      if x in r {
        if r[x] <= b[x] {
          r := r[x := 0];
        } else {
          r := r[x := r[x] - b[x]];
        }
      }
      todo := todo - {x};
    }
  }

  /** A smaller fingerprint is no more similar to anything. */
  lemma SimilarityMonotone(a: Fingerprint, a': Fingerprint, b: Fingerprint)
    requires a' <= a
    ensures |b * a'| <= |b * a|
  {
    assert b * a == (b * a') + ((b * a) - (b * a'));
  }
}
