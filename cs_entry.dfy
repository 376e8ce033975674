/**
 * nfd::cs::EntryImpl: a content-store table entry.
 *
 * An entry is either a query probe, which only carries the hash it is
 * looked up by, or a data holder, which carries a Data packet, the
 * unsolicited flag and the packet's hash. The table is a std::set of such
 * entries ordered by EntryLess; a lookup builds a probe from the searched
 * hash and lets the set compare it with the stored entries.
 *
 * The entry is a value here: the set stores entries by value and the only
 * later change to one (unsetUnsolicited) returns the updated value.
 */
module CsEntry {
  import opened HashOrder
  import opened Packet

  /**
   * The fields of EntryImpl and of its base class cs::Entry:
   * query_hashCode, m_data (absent for a probe), m_isUnsolicited and the
   * hash returned by getHashCode().
   */
  datatype Entry = Entry(queryHash: Hash, data: Option<Data>, unsolicited: bool, hash: Hash)

  /** isQuery(): the entry holds no data. */
  predicate IsQuery(e: Entry) {
    e.data.None?
  }

  /** The hash operator< compares: the probe's query hash, or the data's hash. */
  function Key(e: Entry): Hash {
    if IsQuery(e) then e.queryHash else e.hash
  }

  /** Entry::setData(data, isUnsolicited, hash) stores its three arguments. */
  function SetData(e: Entry, d: Data, isUnsolicited: bool, hash: Hash): (r: Entry)
    ensures !IsQuery(r)
  {
    e.(data := Some(d), unsolicited := isUnsolicited, hash := hash)
  }

  /** EntryImpl(hashCode): a probe for lookups by hash. */
  function MakeQuery(hashCode: Hash): (e: Entry)
    ensures IsQuery(e) && Key(e) == hashCode
  {
    Entry(hashCode, None, false, "")
  }

  /** EntryImpl(data, isUnsolicited, hash): a data holder. */
  function MakeData(d: Data, isUnsolicited: bool, hash: Hash): (e: Entry)
    ensures !IsQuery(e) && Key(e) == hash
    ensures e.data == Some(d) && e.unsolicited == isUnsolicited
  {
    SetData(Entry("", None, false, ""), d, isUnsolicited, hash)
  }

  /**
   * unsetUnsolicited(): re-stores the same data with the flag cleared. The
   * code hands "" to setData as the hash, so the entry's key becomes "".
   */
  function UnsetUnsolicited(e: Entry): (r: Entry)
    requires !IsQuery(e)
    ensures !IsQuery(r) && r.data == e.data && !r.unsolicited
    ensures Key(r) == ""
  {
    SetData(e, e.data.value, false, "")
  }

  /** Clearing the flag twice is clearing it once. */
  lemma UnsetUnsolicitedIdempotent(e: Entry)
    requires !IsQuery(e)
    ensures UnsetUnsolicited(UnsetUnsolicited(e)) == UnsetUnsolicited(e)
  {
  }

  /** EntryImpl::operator<, branch by branch. */
  predicate EntryLess(a: Entry, b: Entry) {
    if IsQuery(a) then
      if IsQuery(b) then Compare(a.queryHash, b.queryHash) < 0
      else Compare(a.queryHash, b.hash) < 0
    else
      if IsQuery(b) then Compare(b.queryHash, a.hash) > 0
      else Compare(a.hash, b.hash) < 0
  }

  /** In all four probe/data combinations, operator< is the order of the keys. */
  lemma EntryLessIsKeyOrder(a: Entry, b: Entry)
    ensures EntryLess(a, b) <==> Less(Key(a), Key(b))
  {
    if !IsQuery(a) && IsQuery(b) {
      CompareAntisymmetric(b.queryHash, a.hash);
    }
  }

  lemma EntryLessIrreflexive(a: Entry)
    ensures !EntryLess(a, a)
  {
    EntryLessIsKeyOrder(a, a);
    LessIrreflexive(Key(a));
  }

  lemma EntryLessAsymmetric(a: Entry, b: Entry)
    ensures EntryLess(a, b) ==> !EntryLess(b, a)
  {
    EntryLessIsKeyOrder(a, b);
    EntryLessIsKeyOrder(b, a);
    LessAsymmetric(Key(a), Key(b));
  }

  lemma EntryLessTransitive(a: Entry, b: Entry, c: Entry)
    requires EntryLess(a, b) && EntryLess(b, c)
    ensures EntryLess(a, c)
  {
    EntryLessIsKeyOrder(a, b);
    EntryLessIsKeyOrder(b, c);
    EntryLessIsKeyOrder(a, c);
    LessTransitive(Key(a), Key(b), Key(c));
  }

  /**
   * Two entries are equivalent for the set (neither is less than the other)
   * exactly when their keys are equal, whatever their probe/data mode.
   */
  lemma EquivalentIffSameKey(a: Entry, b: Entry)
    ensures (!EntryLess(a, b) && !EntryLess(b, a)) <==> Key(a) == Key(b)
  {
    EntryLessIsKeyOrder(a, b);
    EntryLessIsKeyOrder(b, a);
    LessTotal(Key(a), Key(b));
    LessIrreflexive(Key(a));
  }

  /** A probe built from a hash is equivalent to the data entry stored under that hash. */
  lemma ProbeMatchesDataEntry(hashCode: Hash, d: Data, isUnsolicited: bool)
    ensures var probe, stored := MakeQuery(hashCode), MakeData(d, isUnsolicited, hashCode);
      !EntryLess(probe, stored) && !EntryLess(stored, probe)
  {
    EquivalentIffSameKey(MakeQuery(hashCode), MakeData(d, isUnsolicited, hashCode));
  }
}
