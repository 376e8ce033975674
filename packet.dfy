/**
 * The packet values the caches store and look up. Wire decoding, name
 * comparison rules and hash computation belong to the packet codec; here a
 * Data packet simply carries the hash its codec would compute (`digest`) and
 * the cache-policy tag it may have been given by the link layer.
 */
module Packet {
  import opened HashOrder

  datatype Option<+T> = None | Some(value: T)

  /** A name: a sequence of name components. */
  type Name = seq<string>

  /** lp::CachePolicyType: NO_CACHE, or any other policy value. */
  datatype CachePolicyType = NoCache | OtherPolicy(code: nat)

  datatype Data = Data(
    name: Name,
    content: seq<bv8>,
    digest: Hash,                              // data.getHash()
    cachePolicyTag: Option<CachePolicyType>)   // data.getTag<lp::CachePolicyTag>()

  datatype Interest = Interest(name: Name, hashCode: Hash)   // interest.getHashCode()
}
