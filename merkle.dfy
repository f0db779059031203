/**
 * The Merkle tree typestate wrapper: a leaf list moved through the states
 * Empty -> HashedLeaves -> TreeConstructed <-> RootVerified. The tree itself is built by an
 * external library from the leaf list; only whether its root exists is observed here.
 */
module Merkle {
  import opened Wrappers

  newtype byte = x: int | 0 <= x < 256

  /** A 32-byte digest. */
  type Digest = d: seq<byte> | |d| == 32 witness seq(32, _ => 0 as byte)

  /** `Blake3Hasher::hash`: the digest of a byte string. Left uninterpreted. */
  type ByteHasher = seq<byte> -> Digest

  /** `RsMerkleTree::from_leaves(leaves).root()`: the root of the tree over a leaf list, if it has one. Left uninterpreted. */
  type RootOf = seq<Digest> -> Option<Digest>

  /** The leaf digests of `data`, in order. */
  function HashAll(hasher: ByteHasher, data: seq<seq<byte>>): (leaves: seq<Digest>)
    ensures |leaves| == |data|
    ensures forall i :: 0 <= i < |data| ==> leaves[i] == hasher(data[i])
  {
    if data == [] then [] else [hasher(data[0])] + HashAll(hasher, data[1..])
  }

  /** `MerkleTree::new`: the Empty state, with no leaves. */
  function New(): (t: EmptyTree)
    ensures t.leaves == []
  {
    EmptyTree([])
  }

  datatype EmptyTree = EmptyTree(leaves: seq<Digest>) {
    /** `hash_leaves`: panics on no data; otherwise one leaf per datum, its digest, in order. */
    function HashLeaves(hasher: ByteHasher, data: seq<seq<byte>>): (t: HashedTree)
      requires |data| > 0
      ensures |t.leaves| == |data| > 0
      ensures forall i :: 0 <= i < |data| ==> t.leaves[i] == hasher(data[i])
    {
      HashedTree(HashAll(hasher, data))
    }
  }

  datatype HashedTree = HashedTree(leaves: seq<Digest>) {
    /** `construct_tree`: a change of state only. */
    function ConstructTree(): (t: ConstructedTree)
      ensures t.leaves == leaves
    {
      ConstructedTree(leaves)
    }
  }

  datatype ConstructedTree = ConstructedTree(leaves: seq<Digest>) {
    /** `verify_root`: succeeds, leaves untouched, exactly when the tree over the leaves has a root. */
    function VerifyRoot(rootOf: RootOf): (r: Result<VerifiedTree, string>)
      ensures r.Ok? <==> rootOf(leaves).Some?
      ensures r.Ok? ==> r.value.leaves == leaves
      ensures r.Err? ==> r.error == "Invalid tree structure"
    {
      if rootOf(leaves).Some? then Ok(VerifiedTree(leaves)) else Err("Invalid tree structure")
    }

    /** `verify`: the same check as `verify_root`. */
    function Verify(rootOf: RootOf): (r: Result<VerifiedTree, string>)
      ensures r == VerifyRoot(rootOf)
    {
      if rootOf(leaves).Some? then Ok(VerifiedTree(leaves)) else Err("Invalid tree structure")
    }

    /** `append_hashes` before verification: fails only when there would be no leaf at all. */
    function AppendHashes(newHashes: seq<Digest>): (r: Result<ConstructedTree, string>)
      ensures r.Err? <==> leaves == [] && newHashes == []
      ensures r.Err? ==> r.error == "Cannot append empty hashes"
      ensures r.Ok? ==> r.value.leaves == leaves + newHashes && |r.value.leaves| > 0
    {
      var allHashes := leaves + newHashes;
      if allHashes == [] then Err("Cannot append empty hashes") else Ok(ConstructedTree(allHashes))
    }
  }

  datatype VerifiedTree = VerifiedTree(leaves: seq<Digest>) {
    /** `into_unverified`: back to TreeConstructed, leaves untouched. */
    function IntoUnverified(): (t: ConstructedTree)
      ensures t.leaves == leaves
    {
      ConstructedTree(leaves)
    }

    /** `append_hashes` after verification: always succeeds, the new hashes after the old, in order. */
    function AppendHashes(newHashes: seq<Digest>): (r: Result<VerifiedTree, string>)
      ensures r.Ok? && r.value.leaves == leaves + newHashes
    {
      Ok(VerifiedTree(leaves + newHashes))
    }

    /** `leaves`: read access to the leaf list. */
    function Leaves(): (l: seq<Digest>)
      ensures l == leaves
    {
      leaves
    }
  }

  /** A tree in any state past hashing, for reasoning about sequences of transitions. */
  datatype Stage = Hashed(hashed: HashedTree) | Constructed(constructed: ConstructedTree) | Verified(verified: VerifiedTree)
  {
    function StageLeaves(): seq<Digest>
    {
      match this
      case Hashed(t) => t.leaves
      case Constructed(t) => t.leaves
      case Verified(t) => t.leaves
    }
  }

  /** The operations a tree past hashing offers. */
  datatype Transition = ConstructTree | VerifyRoot | Verify | AppendHashes(newHashes: seq<Digest>) | IntoUnverified

  /** One transition: None when the state does not offer it or it returns an error. */
  function Step(rootOf: RootOf, s: Stage, op: Transition): Option<Stage>
  {
    match (s, op)
    case (Hashed(t), ConstructTree) => Some(Constructed(t.ConstructTree()))
    case (Constructed(t), VerifyRoot) =>
      var r := t.VerifyRoot(rootOf); if r.Ok? then Some(Verified(r.value)) else None
    case (Constructed(t), Verify) =>
      var r := t.Verify(rootOf); if r.Ok? then Some(Verified(r.value)) else None
    case (Constructed(t), AppendHashes(hs)) =>
      var r := t.AppendHashes(hs); if r.Ok? then Some(Constructed(r.value)) else None
    case (Verified(t), AppendHashes(hs)) =>
      var r := t.AppendHashes(hs); if r.Ok? then Some(Verified(r.value)) else None
    case (Verified(t), IntoUnverified) => Some(Constructed(t.IntoUnverified()))
    case _ => None
  }

  /** The transitions in order, stopping at the first one that is not offered or fails. */
  function Run(rootOf: RootOf, s: Stage, ops: seq<Transition>): Option<Stage>
    decreases |ops|
  {
    if ops == [] then Some(s)
    else match Step(rootOf, s, ops[0])
      case None => None
      case Some(next) => Run(rootOf, next, ops[1..])
  }

  /** The hashes the appends in `ops` bring, in order. */
  function Appended(ops: seq<Transition>): seq<Digest>
    decreases |ops|
  {
    if ops == [] then []
    else (if ops[0].AppendHashes? then ops[0].newHashes else []) + Appended(ops[1..])
  }

  /** After any successful run, the leaves are the starting leaves followed by every appended hash, in order. */
  lemma {:induction false} RunOnlyExtendsLeaves(rootOf: RootOf, s: Stage, ops: seq<Transition>)
    ensures Run(rootOf, s, ops).Some? ==>
              Run(rootOf, s, ops).value.StageLeaves() == s.StageLeaves() + Appended(ops)
    decreases |ops|
  {
    if ops != [] {
      var next := Step(rootOf, s, ops[0]);
      if next.Some? {
        RunOnlyExtendsLeaves(rootOf, next.value, ops[1..]);
        var added := if ops[0].AppendHashes? then ops[0].newHashes else [];
        assert next.value.StageLeaves() == s.StageLeaves() + added;
        assert Appended(ops) == added + Appended(ops[1..]);
      }
    }
  }

  /** Every tree reachable from `new` by hashing leaves and then any transitions has at least one leaf. */
  lemma ReachableTreesHaveLeaves(hasher: ByteHasher, rootOf: RootOf, data: seq<seq<byte>>, ops: seq<Transition>)
    requires |data| > 0
    ensures var start := Hashed(New().HashLeaves(hasher, data));
            Run(rootOf, start, ops).Some? ==> |Run(rootOf, start, ops).value.StageLeaves()| > 0
  {
    RunOnlyExtendsLeaves(rootOf, Hashed(New().HashLeaves(hasher, data)), ops);
  }
}
