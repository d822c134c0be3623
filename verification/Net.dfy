/** Shared option type. */
module Wrappers {
  datatype Option<+T> = None | Some(value: T)
}

/**
 * IP prefixes as bit strings, and the longest-match lookup that the patricia
 * trees of the system RIB provide (RFC 4632, section 5.1).
 */
module Net {
  import opened Wrappers

  datatype Family = V4 | V6

  function Width(f: Family): nat {
    if f.V4? then 32 else 128
  }

  /** A canonical (masked) prefix: only the network bits are kept. */
  datatype Prefix = Prefix(family: Family, bits: seq<bool>)

  /** The text of a prefix after parsing: host bits may be set. */
  datatype PrefixText = BadPrefix | PrefixText(family: Family, address: seq<bool>, length: nat)

  /** The text of a next-hop address after parsing. */
  datatype AddrText = BadAddr | AddrText(family: Family, address: seq<bool>)

  predicate IsHost(p: Prefix) {
    |p.bits| == Width(p.family)
  }

  function Canonical(t: PrefixText): Option<Prefix> {
    if t.PrefixText? && |t.address| == Width(t.family) && t.length <= |t.address|
    then Some(Prefix(t.family, t.address[..t.length]))
    else None
  }

  function HostPrefix(a: AddrText): Option<Prefix> {
    if a.AddrText? && |a.address| == Width(a.family)
    then Some(Prefix(a.family, a.address))
    else None
  }

  predicate Covers(p: Prefix, q: Prefix) {
    p.family == q.family && p.bits <= q.bits
  }

  /** The deepest key of `tree` that covers `q` (FindDeepestTags / FindDeepestTag). */
  function Deepest<T>(tree: map<Prefix, T>, q: Prefix): (r: Option<Prefix>)
    ensures r.Some? ==> r.value in tree && Covers(r.value, q)
    ensures r.Some? ==> forall p :: p in tree && Covers(p, q) ==> |p.bits| <= |r.value.bits|
    ensures r.None? ==> forall p :: p in tree ==> !Covers(p, q)
  {
    var r := DeepestUpTo(tree, q, |q.bits|);
    assert forall p: Prefix :: Covers(p, q) ==> p == Prefix(q.family, q.bits[..|p.bits|]);
    r
  }

  function DeepestUpTo<T>(tree: map<Prefix, T>, q: Prefix, n: nat): (r: Option<Prefix>)
    requires n <= |q.bits|
    ensures r.Some? ==> r.value in tree && Covers(r.value, q) && |r.value.bits| <= n
    ensures r.Some? ==> forall k :: |r.value.bits| < k <= n ==> Prefix(q.family, q.bits[..k]) !in tree
    ensures r.None? ==> forall k :: 0 <= k <= n ==> Prefix(q.family, q.bits[..k]) !in tree
  {
    var p := Prefix(q.family, q.bits[..n]);
    if p in tree then Some(p)
    else if n == 0 then None
    else DeepestUpTo(tree, q, n - 1)
  }

  /** The deepest covering key is unique, so any conforming tree gives the same answer. */
  lemma DeepestUnique<T>(tree: map<Prefix, T>, q: Prefix, p: Prefix)
    requires p in tree && Covers(p, q)
    requires forall p' :: p' in tree && Covers(p', q) ==> |p'.bits| <= |p.bits|
    ensures Deepest(tree, q) == Some(p)
  {
    var d := Deepest(tree, q);
    assert d.Some?;
    assert |d.value.bits| == |p.bits|;
    assert d.value.bits == q.bits[..|p.bits|] == p.bits;
  }

  /** A prefix text that is well formed stands for the addresses of its family that agree with it in its first bits; host bits are ignored. */
  lemma SubnetMembers(t: PrefixText, a: AddrText)
    requires a.AddrText? && |a.address| == (if a.family.V4? then 32 else 128)
    ensures Canonical(t).Some? <==> t.PrefixText? && |t.address| == (if t.family.V4? then 32 else 128) && t.length <= |t.address|
    ensures HostPrefix(a).Some?
    ensures Canonical(t).Some? ==>
              (Covers(Canonical(t).value, HostPrefix(a).value) <==> a.family == t.family && a.address[..t.length] == t.address[..t.length])
  {
  }
}
