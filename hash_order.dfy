/**
 * Content hashes and the order both caches keep them in.
 *
 * A hash is an opaque string compared byte by byte, as std::string::compare
 * does. The content store's std::set and the in-memory storage's ordered
 * index are both sequences here, kept strictly sorted by that order, and
 * std::lower_bound / std::upper_bound are the functions LowerBound and
 * UpperBound below.
 */
module HashOrder {

  /** A content-derived identifier: an opaque byte string. */
  type Hash = string

  /** The sign of std::string::compare(a, b): -1, 0 or 1. */
  function Compare(a: Hash, b: Hash): (r: int)
    ensures -1 <= r <= 1
    ensures r == 0 <==> a == b
  {
    if a == [] then (if b == [] then 0 else -1)
    else if b == [] then 1
    else if a[0] < b[0] then -1
    else if b[0] < a[0] then 1
    else
      assert a == [a[0]] + a[1..] && b == [b[0]] + b[1..];
      Compare(a[1..], b[1..])
  }

  /** `a.compare(b) < 0`: the strict order of hashes. */
  predicate Less(a: Hash, b: Hash) {
    Compare(a, b) < 0
  }

  /**
   * Byte-lexicographic order stated without recursion: a and b share a
   * prefix of length k, after which either a ends first or a's next byte is
   * the smaller one.
   */
  ghost predicate LexLess(a: Hash, b: Hash) {
    exists k :: DiffersAt(a, b, k)
  }

  ghost predicate DiffersAt(a: Hash, b: Hash, k: int) {
    && 0 <= k <= |a| && k <= |b| && a[..k] == b[..k]
    && (k == |a| < |b| || (k < |a| && k < |b| && a[k] < b[k]))
  }

  /** Swapping the operands of compare flips the sign of its result. */
  lemma {:induction false} CompareAntisymmetric(a: Hash, b: Hash)
    ensures Compare(a, b) == -Compare(b, a)
  {
    if a != [] && b != [] && a[0] == b[0] {
      CompareAntisymmetric(a[1..], b[1..]);
    }
  }

  lemma LessIrreflexive(a: Hash)
    ensures !Less(a, a)
  {
  }

  lemma {:induction false} LessAsymmetric(a: Hash, b: Hash)
    ensures Less(a, b) ==> !Less(b, a)
  {
    CompareAntisymmetric(a, b);
  }

  lemma {:induction false} LessTransitive(a: Hash, b: Hash, c: Hash)
    requires Less(a, b) && Less(b, c)
    ensures Less(a, c)
  {
    if a != [] && b != [] && c != [] && a[0] == b[0] && b[0] == c[0] {
      LessTransitive(a[1..], b[1..], c[1..]);
    }
  }

  /** Any two distinct hashes are ordered one way or the other. */
  lemma {:induction false} LessTotal(a: Hash, b: Hash)
    ensures a == b || Less(a, b) || Less(b, a)
  {
    CompareAntisymmetric(a, b);
  }

  /** The recursive comparison agrees with the lexicographic definition. */
  lemma LessIsLexicographic(a: Hash, b: Hash)
    ensures Less(a, b) <==> LexLess(a, b)
  {
    if Less(a, b) {
      LessHasDifference(a, b);
    }
    if LexLess(a, b) {
      var k :| DiffersAt(a, b, k);
      DifferenceGivesLess(a, b, k);
    }
  }

  lemma {:induction false} LessHasDifference(a: Hash, b: Hash)
    requires Less(a, b)
    ensures LexLess(a, b)
  {
    if a == [] || a[0] != b[0] {
      assert DiffersAt(a, b, 0);
    } else {
      var a', b' := a[1..], b[1..];
      LessHasDifference(a', b');
      var k :| DiffersAt(a', b', k);
      assert a[..k + 1] == [a[0]] + a'[..k];
      assert b[..k + 1] == [b[0]] + b'[..k];
      assert DiffersAt(a, b, k + 1);
    }
  }

  lemma {:induction false} DifferenceGivesLess(a: Hash, b: Hash, k: int)
    requires DiffersAt(a, b, k)
    ensures Less(a, b)
  {
    if k > 0 {
      assert a[0] == a[..k][0] == b[..k][0] == b[0];
      assert a[1..][..k - 1] == a[..k][1..];
      assert b[1..][..k - 1] == b[..k][1..];
      DifferenceGivesLess(a[1..], b[1..], k - 1);
    }
  }

  /** Strictly increasing keys: the set invariant, which also makes keys unique. */
  predicate Sorted(keys: seq<Hash>) {
    forall i, j | 0 <= i < j < |keys| :: Less(keys[i], keys[j])
  }

  /** std::lower_bound: the first position whose key is not less than h. */
  function LowerBound(keys: seq<Hash>, h: Hash): (i: nat)
    ensures i <= |keys|
    ensures forall k | 0 <= k < i :: Less(keys[k], h)
    ensures i < |keys| ==> !Less(keys[i], h)
  {
    if keys == [] || !Less(keys[0], h) then 0
    else 1 + LowerBound(keys[1..], h)
  }

  /** std::upper_bound: the first position whose key is greater than h. */
  function UpperBound(keys: seq<Hash>, h: Hash): (i: nat)
    ensures i <= |keys|
    ensures forall k | 0 <= k < i :: !Less(h, keys[k])
    ensures i < |keys| ==> Less(h, keys[i])
  {
    if keys == [] || Less(h, keys[0]) then 0
    else 1 + UpperBound(keys[1..], h)
  }

  /** In sorted keys, every key from the lower bound on is at least h. */
  lemma LowerBoundSplits(keys: seq<Hash>, h: Hash)
    requires Sorted(keys)
    ensures forall k | LowerBound(keys, h) <= k < |keys| :: !Less(keys[k], h)
  {
    var lb := LowerBound(keys, h);
    forall k | lb < k < |keys|
      ensures !Less(keys[k], h)
    {
      if Less(keys[k], h) {
        LessTransitive(keys[lb], keys[k], h);
      }
    }
  }

  /** A sorted sequence holds h exactly when h sits at its lower bound. */
  lemma PresentAtLowerBound(keys: seq<Hash>, h: Hash)
    requires Sorted(keys)
    ensures h in keys <==> (LowerBound(keys, h) < |keys| && keys[LowerBound(keys, h)] == h)
  {
    var lb := LowerBound(keys, h);
    if h in keys {
      var j :| 0 <= j < |keys| && keys[j] == h;
      LessIrreflexive(h);
    }
  }

  /**
   * In sorted keys the upper bound passes the lower bound by one exactly
   * when h is present: the two bounds differ if and only if h is resident.
   */
  lemma BoundsDifferIffPresent(keys: seq<Hash>, h: Hash)
    requires Sorted(keys)
    ensures UpperBound(keys, h) == LowerBound(keys, h) + (if h in keys then 1 else 0)
  {
    var lb, ub := LowerBound(keys, h), UpperBound(keys, h);
    PresentAtLowerBound(keys, h);
    forall k | 0 <= k < lb
      ensures !Less(h, keys[k])
    {
      LessAsymmetric(keys[k], h);
    }
    if h in keys {
      LessIrreflexive(h);
      if lb + 1 < |keys| {
        assert Less(keys[lb], keys[lb + 1]);
      }
      assert ub == lb + 1;
    } else if lb < |keys| {
      LessTotal(keys[lb], h);
      assert ub == lb;
    }
  }

  /** Inserting an absent key at its lower bound keeps the keys sorted. */
  lemma InsertKeepsSorted(keys: seq<Hash>, h: Hash)
    requires Sorted(keys) && h !in keys
    ensures var p := LowerBound(keys, h);
      Sorted(keys[..p] + [h] + keys[p..])
  {
    var p := LowerBound(keys, h);
    var s := keys[..p] + [h] + keys[p..];
    LowerBoundSplits(keys, h);
    forall k | p <= k < |keys|
      ensures Less(h, keys[k])
    {
      LessTotal(keys[k], h);
    }
    forall i, j | 0 <= i < j < |s|
      ensures Less(s[i], s[j])
    {
      if i < p && j > p {
        LessTransitive(keys[i], h, keys[j - 1]);
      }
    }
  }

  /** Removing any one key keeps the keys sorted. */
  lemma RemoveKeepsSorted(keys: seq<Hash>, p: nat)
    requires Sorted(keys) && p < |keys|
    ensures Sorted(keys[..p] + keys[p + 1..])
  {
    var s := keys[..p] + keys[p + 1..];
    forall i, j | 0 <= i < j < |s|
      ensures Less(s[i], s[j])
    {
      var i', j' := if i < p then i else i + 1, if j < p then j else j + 1;
      assert s[i] == keys[i'] && s[j] == keys[j'];
    }
  }
}
