/**
 * nfd::cs::Cs: the forwarder's content store.
 *
 * The table is a std::set of EntryImpl ordered by operator<; here it is a
 * sequence of data entries kept strictly sorted by their hashes. The
 * replacement policy is an observer whose code is not part of this model:
 * it records the hook calls it receives, and after an insertion it picks
 * the entries to evict, which the store then erases through the policy's
 * beforeEvict connection.
 */
module ContentStore {
  import opened HashOrder
  import opened Packet
  import opened CsEntry
  import opened Numbers

  /** The hook calls a policy receives from the store. */
  datatype PolicyEvent =
    | Inserted(key: Hash)      // afterInsert
    | Refreshed(key: Hash)     // afterRefresh
    | Used(key: Hash)          // beforeUse
    | Erasing(key: Hash)       // beforeErase

  /** What find hands back: the miss callback, the hit callback's Data, or a hit on end(). */
  datatype LookupResult = Miss | Hit(data: Data) | EndDereferenced

  predicate Distinct(s: seq<Hash>) {
    forall i, j | 0 <= i < j < |s| :: s[i] != s[j]
  }

  /** s with every occurrence of x dropped; a proof helper, the witness of EvictionChoiceExists. */
  function Without(s: seq<Hash>, x: Hash): (r: seq<Hash>)
    ensures forall y :: y in r <==> y in s && y != x
    ensures x !in s ==> r == s
    ensures Distinct(s) ==> Distinct(r)
    ensures Distinct(s) && x in s ==> |r| == |s| - 1
  {
    if s == [] then []
    else
      var rest := Without(s[1..], x);
      assert s == [s[0]] + s[1..];
      assert Distinct(s) ==> Distinct(s[1..]) && s[0] !in s[1..];
      if s[0] == x then rest
      else [s[0]] + rest
  }

  /**
   * A choice of victims the policy may make right after `key` was
   * inserted: distinct resident hashes other than the new one, as many as
   * the table exceeds the limit by.
   */
  predicate IsEvictionChoice(victims: seq<Hash>, resident: seq<Hash>, key: Hash, limit: nat) {
    && Distinct(victims)
    && (forall v | v in victims :: v in resident && v != key)
    && |victims| == (if |resident| > limit then |resident| - limit else 0)
  }

  /** A policy with a positive limit can always make such a choice. */
  lemma EvictionChoiceExists(resident: seq<Hash>, key: Hash, limit: nat)
    requires Distinct(resident) && key in resident && limit > 0
    ensures exists victims :: IsEvictionChoice(victims, resident, key, limit)
  {
    var others := Without(resident, key);
    var n := if |resident| > limit then |resident| - limit else 0;
    var victims := others[..n];
    assert forall v | v in victims :: v in others;
    assert IsEvictionChoice(victims, resident, key, limit);
  }

  /**
   * cs::Policy, reduced to what the store sees: its limit and its hooks.
   * Its bookkeeping (the LRU queue) is not part of this model.
   */
  class Policy {
    var limit: nat
    ghost var events: seq<PolicyEvent>

    constructor (initialLimit: nat)
      ensures limit == initialLimit && events == []
    {
      limit := initialLimit;
      events := [];
    }

    /** setLimit(nMaxEntries) */
    method SetLimit(nMaxEntries: nat)
      modifies this`limit
      ensures limit == nMaxEntries
    {
      limit := nMaxEntries;
    }

    /**
     * afterInsert(it): records the call and, when the table now exceeds the
     * limit, picks which entries to evict.
     */
    method AfterInsert(key: Hash, resident: seq<Hash>) returns (victims: seq<Hash>)
      requires Distinct(resident) && key in resident && limit > 0
      modifies this`events
      ensures events == old(events) + [Inserted(key)]
      ensures IsEvictionChoice(victims, resident, key, limit)
    {
      events := events + [Inserted(key)];
      EvictionChoiceExists(resident, key, limit);
      victims :| IsEvictionChoice(victims, resident, key, limit);
    }

    /** afterRefresh(it) */
    method AfterRefresh(key: Hash)
      modifies this`events
      ensures events == old(events) + [Refreshed(key)]
    {
      events := events + [Refreshed(key)];
    }

    /** beforeUse(it) */
    method BeforeUse(key: Hash)
      modifies this`events
      ensures events == old(events) + [Used(key)]
    {
      events := events + [Used(key)];
    }

    /** beforeErase(it) */
    method BeforeErase(key: Hash)
      modifies this`events
      ensures events == old(events) + [Erasing(key)]
    {
      events := events + [Erasing(key)];
    }
  }

  /** The hashes of a table, in its order. */
  function Keys(t: seq<Entry>): seq<Hash> {
    seq(|t|, i requires 0 <= i < |t| => Key(t[i]))
  }

  /** The hashes of a table, as a set. */
  ghost function KeySet(t: seq<Entry>): set<Hash> {
    set e | e in t :: Key(e)
  }

  /** Every entry stored in the table holds data. */
  predicate DataEntries(t: seq<Entry>) {
    forall k | 0 <= k < |t| :: !IsQuery(t[k])
  }

  lemma KeysAgree(t: seq<Entry>)
    ensures forall h :: h in Keys(t) <==> h in KeySet(t)
  {
    forall h | h in KeySet(t)
      ensures h in Keys(t)
    {
      var e :| e in t && Key(e) == h;
      var i :| 0 <= i < |t| && t[i] == e;
      assert Keys(t)[i] == h;
    }
  }

  lemma SortedDistinct(keys: seq<Hash>)
    requires Sorted(keys)
    ensures Distinct(keys)
  {
    forall i, j | 0 <= i < j < |keys|
      ensures keys[i] != keys[j]
    {
      LessIrreflexive(keys[i]);
    }
  }

  /**
   * std::set::emplace: the new entry goes in at its place in the order
   * unless an equivalent entry (one with the same hash) is already there.
   */
  function Emplace(t: seq<Entry>, e: Entry): (r: (seq<Entry>, bool))
    requires Sorted(Keys(t))
    ensures Sorted(Keys(r.0))
    ensures r.1 <==> Key(e) !in KeySet(t)
    ensures !r.1 ==> r.0 == t
    ensures r.1 ==> |r.0| == |t| + 1 && e in r.0
    ensures forall x | x in t :: x in r.0
    ensures forall x | x in r.0 :: x in t || x == e
    ensures KeySet(r.0) == KeySet(t) + {Key(e)}
    ensures DataEntries(t) && !IsQuery(e) ==> DataEntries(r.0)
  {
    KeysAgree(t);
    PresentAtLowerBound(Keys(t), Key(e));
    var p := LowerBound(Keys(t), Key(e));
    if p < |t| && Key(t[p]) == Key(e) then
      assert Keys(t)[p] == Key(t[p]);
      (t, false)
    else
      InsertAtKeySet(t, e);
      (t[..p] + [e] + t[p..], true)
  }

  /** inserting an entry with a new hash at the lower bound of that hash */
  lemma InsertAtKeySet(t: seq<Entry>, e: Entry)
    requires Sorted(Keys(t)) && Key(e) !in Keys(t)
    ensures var p := LowerBound(Keys(t), Key(e));
      var t' := t[..p] + [e] + t[p..];
      && Sorted(Keys(t')) && |t'| == |t| + 1 && e in t'
      && (forall x | x in t :: x in t')
      && (forall x | x in t' :: x in t || x == e)
      && KeySet(t') == KeySet(t) + {Key(e)}
      && (DataEntries(t) && !IsQuery(e) ==> DataEntries(t'))
  {
    var p := LowerBound(Keys(t), Key(e));
    var t' := t[..p] + [e] + t[p..];
    InsertKeepsSorted(Keys(t), Key(e));
    assert Keys(t') == Keys(t)[..p] + [Key(e)] + Keys(t)[p..];
    assert t == t[..p] + t[p..];
    assert t'[p] == e;
  }

  /** erasing the entry at position p of a table whose hashes are unique */
  lemma RemoveAtKeySet(t: seq<Entry>, p: nat)
    requires Sorted(Keys(t)) && p < |t|
    ensures Sorted(Keys(t[..p] + t[p + 1..]))
    ensures KeySet(t[..p] + t[p + 1..]) == KeySet(t) - {Key(t[p])}
    ensures forall x | x in t[..p] + t[p + 1..] :: x in t
    ensures DataEntries(t) ==> DataEntries(t[..p] + t[p + 1..])
  {
    var t' := t[..p] + t[p + 1..];
    assert Keys(t') == Keys(t)[..p] + Keys(t)[p + 1..];
    RemoveKeepsSorted(Keys(t), p);
    assert t == t[..p] + [t[p]] + t[p + 1..];
    SortedDistinct(Keys(t));
    forall j | 0 <= j < |t'|
      ensures Key(t'[j]) != Key(t[p])
    {
      var j' := if j < p then j else j + 1;
      assert t'[j] == t[j'] && Keys(t)[j'] == Key(t[j']) && Keys(t)[p] == Key(t[p]);
    }
  }

  /**
   * The first position, in hash order, of an entry whose Data name equals
   * `name`; |t| when there is none.
   */
  function FirstWithName(t: seq<Entry>, name: Name): (i: nat)
    requires DataEntries(t)
    ensures i <= |t|
    ensures forall k | 0 <= k < i :: t[k].data.value.name != name
    ensures i < |t| ==> t[i].data.value.name == name
    ensures i == |t| <==> forall k | 0 <= k < |t| :: t[k].data.value.name != name
  {
    if t == [] then 0
    else if t[0].data.value.name == name then 0
    else 1 + FirstWithName(t[1..], name)
  }

  /**
   * The table query of find: a miss when the upper and lower bounds of the
   * hash differ, otherwise the Data at the lower bound, which is end() when
   * every stored hash is smaller.
   */
  function Lookup(t: seq<Entry>, h: Hash): (r: LookupResult)
    requires Sorted(Keys(t)) && DataEntries(t)
    ensures r == Miss <==> h in Keys(t)
    ensures r == EndDereferenced <==> forall k | 0 <= k < |t| :: Less(Key(t[k]), h)
    ensures r.Hit? ==>
      var p := LowerBound(Keys(t), h);
      && p < |t| && r.data == t[p].data.value && Less(h, Key(t[p]))
      && forall k | 0 <= k < p :: Less(Key(t[k]), h)
  {
    var last, found := UpperBound(Keys(t), h), LowerBound(Keys(t), h);
    BoundsDifferIffPresent(Keys(t), h);
    PresentAtLowerBound(Keys(t), h);
    assert forall k | 0 <= k < |t| :: Keys(t)[k] == Key(t[k]);
    if last != found then Miss
    else if found == |t| then EndDereferenced
    else
      assert t[found] in t;
      LessTotal(Key(t[found]), h);
      Hit(t[found].data.value)
  }

  /** Every lookup of a stored hash is reported as a miss. */
  lemma ResidentHashMisses(t: seq<Entry>, e: Entry)
    requires Sorted(Keys(t)) && DataEntries(t) && e in t
    ensures Lookup(t, Key(e)) == Miss
  {
    KeysAgree(t);
  }

  /** Every lookup of an absent hash below the largest stored one is a hit on a different entry. */
  lemma AbsentHashHitsSuccessor(t: seq<Entry>, h: Hash)
    requires Sorted(Keys(t)) && DataEntries(t) && h !in KeySet(t)
    requires exists e | e in t :: Less(h, Key(e))
    ensures Lookup(t, h).Hit?
  {
    KeysAgree(t);
    var e :| e in t && Less(h, Key(e));
    var i :| 0 <= i < |t| && t[i] == e;
    LessAsymmetric(h, Key(e));
  }

  class Cs {
    var table: seq<Entry>        // m_table
    var policy: Policy           // m_policy
    var shouldAdmit: bool        // m_shouldAdmit
    var shouldServe: bool        // m_shouldServe

    ghost predicate Valid()
      reads this, policy
    {
      && Sorted(Keys(table))
      && DataEntries(table)
      && |table| <= policy.limit
    }

    /**
     * Cs(nMaxPackets): installs a fresh default policy and gives it the
     * limit. Both gates start open.
     */
    constructor (nMaxPackets: nat)
      ensures Valid() && fresh(policy)
      ensures table == [] && policy.limit == nMaxPackets && policy.events == []
      ensures shouldAdmit && shouldServe
    {
      table := [];
      shouldAdmit, shouldServe := true, true;
      var initialLimit: nat :| true;
      policy := new Policy(initialLimit);
      new;
      SetPolicyImpl(policy);
      policy.SetLimit(nMaxPackets);
    }

    /**
     * insert(data, isUnsolicited, hashCode): -1 when admission is off, the
     * limit is 0, the Data is tagged NO_CACHE or the hash is already stored
     * (after afterRefresh); otherwise the entry goes in, afterInsert runs,
     * the policy's victims are erased, and the result is 1.
     */
    method Insert(data: Data, isUnsolicited: bool, hashCode: Hash) returns (r: int)
      requires Valid()
      modifies this`table, policy`events
      ensures Valid()
      ensures r == -1 || r == 1
      ensures r == -1 <==>
        || !shouldAdmit || policy.limit == 0 || data.cachePolicyTag == Some(NoCache)
        || hashCode in old(KeySet(table))
      ensures r == -1 ==> table == old(table)
      ensures r == -1 && shouldAdmit && policy.limit > 0 && data.cachePolicyTag != Some(NoCache) ==>
        policy.events == old(policy.events) + [Refreshed(hashCode)]
      ensures r == -1 && (!shouldAdmit || policy.limit == 0 || data.cachePolicyTag == Some(NoCache)) ==>
        policy.events == old(policy.events)
      ensures r == 1 ==>
        && MakeData(data, isUnsolicited, hashCode) in table
        && |table| == Min(|old(table)| + 1, policy.limit)
        && (forall e | e in table :: e in old(table) || e == MakeData(data, isUnsolicited, hashCode))
        && policy.events == old(policy.events) + [Inserted(hashCode)]
    {
      if !shouldAdmit || policy.limit == 0 {
        return -1;
      }
      if data.cachePolicyTag == Some(NoCache) {
        return -1;
      }
      KeysAgree(table);
      PresentAtLowerBound(Keys(table), hashCode);
      var p := LowerBound(Keys(table), hashCode);
      // cs.cpp:83 reads the entry at the lower bound without checking for end()
      if p < |table| && Key(table[p]) == hashCode {
        policy.AfterRefresh(hashCode);
        return -1;
      }
      if p < |table| {
        assert Keys(table)[p] == Key(table[p]);
      }

      var entry := MakeData(data, isUnsolicited, hashCode);
      var (t, isNewEntry) := Emplace(table, entry);
      // the refresh branch of cs.cpp:96-103 needs an existing entry, which
      // the lower-bound check above has already turned away
      assert isNewEntry;
      table := t;

      KeysAgree(table);
      SortedDistinct(Keys(table));
      var victims := policy.AfterInsert(hashCode, Keys(table));
      ghost var t1 := table;
      var i := 0;
      while i < |victims|
        invariant 0 <= i <= |victims|
        invariant Sorted(Keys(table)) && DataEntries(table)
        invariant |table| == |t1| - i
        invariant KeySet(table) == KeySet(t1) - set v | v in victims[..i]
        invariant forall e | e in table :: e in t1
        invariant policy.events == old(policy.events) + [Inserted(hashCode)]
      {
        assert victims[i] !in victims[..i];
        KeysAgree(t1);
        EvictEntry(victims[i]);
        assert victims[..i + 1] == victims[..i] + [victims[i]];
        i := i + 1;
      }
      assert victims[..i] == victims;
      assert hashCode in KeySet(table);
      var e :| e in table && Key(e) == hashCode;
      assert e == entry;
      r := 1;
    }

    /** The beforeEvict connection of setPolicyImpl: `m_table.erase(it)`. */
    method EvictEntry(h: Hash)
      requires Sorted(Keys(table)) && DataEntries(table) && h in KeySet(table)
      modifies this`table
      ensures Sorted(Keys(table)) && DataEntries(table)
      ensures |table| == old(|table|) - 1
      ensures KeySet(table) == old(KeySet(table)) - {h}
      ensures forall e | e in table :: e in old(table)
    {
      KeysAgree(table);
      PresentAtLowerBound(Keys(table), h);
      var p := LowerBound(Keys(table), h);
      assert Keys(table)[p] == Key(table[p]);
      RemoveAtKeySet(table, p);
      table := table[..p] + table[p + 1..];
    }

    /**
     * erase(prefix, limit, cb): scans the table in hash order for the first
     * entry whose name equals prefix; if there is one, beforeErase runs, the
     * entry is erased and cb receives 1. `limit` is not consulted.
     * The result is the argument cb was called with, if it was called.
     */
    method Erase(prefix: Name, limit: nat) returns (cbArg: Option<nat>)
      requires Valid()
      modifies this`table, policy`events
      ensures Valid()
      ensures var i := FirstWithName(old(table), prefix);
        && (cbArg.Some? <==> i < |old(table)|)
        && (cbArg.Some? ==>
              && cbArg == Some(1)
              && table == old(table)[..i] + old(table)[i + 1..]
              && policy.events == old(policy.events) + [Erasing(Key(old(table)[i]))])
        && (cbArg.None? ==> table == old(table) && policy.events == old(policy.events))
    {
      var first := 0;
      var found := |table|;
      while first < |table|
        invariant first <= |table| && found == |table|
        invariant forall k | 0 <= k < first :: table[k].data.value.name != prefix
      {
        if table[first].data.value.name == prefix {
          found := first;
          break;
        }
        first := first + 1;
      }
      assert found == FirstWithName(table, prefix);
      if found < |table| {
        policy.BeforeErase(Key(table[found]));
        RemoveAtKeySet(table, found);
        table := table[..found] + table[found + 1..];
        cbArg := Some(1);
      } else {
        cbArg := None;
      }
    }

    /**
     * find(interest, hit, miss): a miss when serving is off or the limit is
     * 0; otherwise the table query, with beforeUse on a hit.
     */
    method Find(interest: Interest) returns (r: LookupResult)
      requires Valid()
      modifies policy`events
      ensures !shouldServe || policy.limit == 0 ==> r == Miss
      ensures shouldServe && policy.limit > 0 ==> r == Lookup(table, interest.hashCode)
      ensures r.Hit? ==>
        policy.events == old(policy.events) + [Used(Key(table[LowerBound(Keys(table), interest.hashCode)]))]
      ensures !r.Hit? ==> policy.events == old(policy.events)
    {
      if !shouldServe || policy.limit == 0 {
        return Miss;
      }
      r := Lookup(table, interest.hashCode);
      if r.Hit? {
        policy.BeforeUse(Key(table[LowerBound(Keys(table), interest.hashCode)]));
      }
    }

    /** setPolicy(policy): the new policy takes over with the old one's limit. */
    method SetPolicy(p: Policy)
      requires Valid()
      modifies this`policy, p`limit
      ensures Valid() && policy == p && p.limit == old(policy.limit)
    {
      var limit := policy.limit;
      SetPolicyImpl(p);
      policy.SetLimit(limit);
    }

    /**
     * setPolicyImpl(policy): installs the policy. Its beforeEvict signal is
     * connected to EvictEntry, the only way the store lets it erase.
     */
    method SetPolicyImpl(p: Policy)
      modifies this`policy
      ensures policy == p
    {
      policy := p;
    }

    /** enableAdmit(shouldAdmit) */
    method EnableAdmit(admit: bool)
      modifies this`shouldAdmit
      ensures shouldAdmit == admit
    {
      if shouldAdmit == admit {
        return;
      }
      shouldAdmit := admit;
    }

    /** enableServe(shouldServe) */
    method EnableServe(serve: bool)
      modifies this`shouldServe
      ensures shouldServe == serve
    {
      if shouldServe == serve {
        return;
      }
      shouldServe := serve;
    }
  }
}
