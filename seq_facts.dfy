/** Membership facts about inserting into and removing from a sequence. */
module SeqFacts {

  lemma InsertAtMembers<T>(s: seq<T>, p: nat, x: T)
    requires p <= |s|
    ensures forall e | e in s[..p] + [x] + s[p..] :: e in s || e == x
    ensures forall e | e in s :: e in s[..p] + [x] + s[p..]
  {
    assert s == s[..p] + s[p..];
  }

  lemma RemoveAtMembers<T>(s: seq<T>, p: nat)
    requires p < |s|
    ensures forall e | e in s[..p] + s[p + 1..] :: e in s
  {
    assert s == s[..p] + [s[p]] + s[p + 1..];
  }
}
