/**
 * The Proof-of-History sequence: a list of (timestamp, hash) ticks in which every
 * hash is chained off the one before it, moved through the typestates
 * UninitializedPoh -> InitializedPoh -> VerifiedPoh.
 */
module Poh {
  import opened Wrappers
  import opened Format

  /** `blake3::hash(input.as_bytes()).to_hex()`: the hex text of a digest of a string. Left uninterpreted. */
  type HexHasher = string -> string

  /** A tick of the sequence, and the shape of a reference into it: (timestamp, hash). */
  type Entry = (U64, string)

  /** `InitializedPoh::calculate_hash`: the previous hash and the decimal timestamp, concatenated, then hashed. */
  function CalculateHash(hasher: HexHasher, previousHash: string, timestamp: U64): (h: string)
    ensures h == hasher(previousHash + Decimal(timestamp))
  {
    hasher(previousHash + Decimal(timestamp))
  }

  /** The hash that entry `i` is chained off: the seed for the first entry, the stored hash before it otherwise. */
  function PrevHash(seed: string, s: seq<Entry>, i: nat): string
    requires i <= |s|
  {
    if i == 0 then seed else s[i - 1].1
  }

  /** Entry `i` holds the hash of its predecessor's hash and its own timestamp. */
  ghost predicate LinkHolds(hasher: HexHasher, seed: string, s: seq<Entry>, i: nat)
    requires i < |s|
  {
    s[i].1 == CalculateHash(hasher, PrevHash(seed, s, i), s[i].0)
  }

  /** Every entry of `s` is linked, the first one to `seed`. */
  ghost predicate ChainedFrom(hasher: HexHasher, seed: string, s: seq<Entry>)
  {
    forall i :: 0 <= i < |s| ==> LinkHolds(hasher, seed, s, i)
  }

  /** Entry `i` has timestamp `start + i * interval`. */
  ghost predicate Spaced(s: seq<Entry>, start: nat, interval: nat)
  {
    forall i :: 0 <= i < |s| ==> s[i].0 == start + i * interval
  }

  /** Timestamps strictly increase: the order a binary search by timestamp relies on. */
  ghost predicate Sorted(s: seq<Entry>)
  {
    forall i, j :: 0 <= i < j < |s| ==> s[i].0 < s[j].0
  }

  function MismatchMessage(timestamp: U64, stored: string, computed: string): string
  {
    "PoH mismatch at timestamp " + Decimal(timestamp) + ": expected " + stored + ", got " + computed
  }

  lemma SpacedIsSorted(s: seq<Entry>, start: nat, interval: nat)
    requires Spaced(s, start, interval) && interval > 0
    ensures Sorted(s)
  {
  }

  /**
   * The timestamps and the seed fix the whole sequence: two sequences of the same length,
   * spaced alike and chained off the same seed, are equal.
   */
  lemma {:induction false} ChainDetermined(hasher: HexHasher, seed: string, start: nat, interval: nat,
                                           s: seq<Entry>, t: seq<Entry>)
    requires |s| == |t|
    requires Spaced(s, start, interval) && Spaced(t, start, interval)
    requires ChainedFrom(hasher, seed, s) && ChainedFrom(hasher, seed, t)
    ensures s == t
  {
    var k := 0;
    while k < |s|
      invariant 0 <= k <= |s|
      invariant s[..k] == t[..k]
    {
      assert LinkHolds(hasher, seed, s, k) && LinkHolds(hasher, seed, t, k);
      assert PrevHash(seed, s, k) == PrevHash(seed, t, k) by {
        if k > 0 { assert s[k - 1] == s[..k][k - 1] && t[k - 1] == t[..k][k - 1]; }
      }
      assert s[k] == t[k];
      assert s[..k + 1] == s[..k] + [s[k]] && t[..k + 1] == t[..k] + [t[k]];
      k := k + 1;
    }
    assert s == s[..k] && t == t[..k];
  }

  lemma MulMonotone(a: nat, b: nat, c: nat)
    requires a <= b
    ensures a * c <= b * c
  {
  }

  /** Appending a correctly linked tick keeps a chain linked. */
  lemma ChainExtend(hasher: HexHasher, seed: string, s: seq<Entry>, e: Entry)
    requires ChainedFrom(hasher, seed, s)
    requires e.1 == CalculateHash(hasher, PrevHash(seed, s, |s|), e.0)
    ensures ChainedFrom(hasher, seed, s + [e])
  {
    var t := s + [e];
    forall i | 0 <= i < |t| ensures LinkHolds(hasher, seed, t, i) {
      if i < |s| {
        assert LinkHolds(hasher, seed, s, i);
        assert PrevHash(seed, t, i) == PrevHash(seed, s, i);
      }
    }
  }

  datatype UninitializedPoh = UninitializedPoh {
    /**
     * `initialize`: fails on an empty seed, then on a zero interval; otherwise builds `length`
     * ticks, tick i at `startTime + i * interval`, each hash chained off the previous one.
     * The caller must keep the last timestamp within u64 (the addition would overflow).
     */
    method Initialize(hasher: HexHasher, hash: string, length: nat, startTime: U64, interval: U64)
      returns (r: Result<InitializedPoh, string>)
      requires hash != [] && interval != 0 && length > 0 ==> startTime + (length - 1) * interval <= MAX_U64
      ensures hash == [] ==> r == Err("Hash cannot be empty")
      ensures hash != [] && interval == 0 ==> r == Err("Interval must be greater than 0")
      ensures hash != [] && interval != 0 ==> r.Ok?
      ensures r.Ok? ==> |r.value.sequence| == length
      ensures r.Ok? ==> Spaced(r.value.sequence, startTime, interval)
      ensures r.Ok? ==> ChainedFrom(hasher, hash, r.value.sequence)
      ensures r.Ok? ==> Sorted(r.value.sequence)
    {
      if hash == [] {
        return Err("Hash cannot be empty");
      }
      if interval == 0 {
        return Err("Interval must be greater than 0");
      }
      var sequence: seq<Entry> := [];
      var currentHash := hash;
      var i := 0;
      while i < length
        invariant 0 <= i <= length
        invariant |sequence| == i
        invariant Spaced(sequence, startTime, interval)
        invariant ChainedFrom(hasher, hash, sequence)
        invariant currentHash == PrevHash(hash, sequence, i)
      {
        MulMonotone(i, length - 1, interval);
        var timestamp: U64 := startTime + i * interval;
        currentHash := CalculateHash(hasher, currentHash, timestamp);
        ChainExtend(hasher, hash, sequence, (timestamp, currentHash));
        sequence := sequence + [(timestamp, currentHash)];
        i := i + 1;
      }
      SpacedIsSorted(sequence, startTime, interval);
      return Ok(InitializedPoh(sequence));
    }
  }

  datatype InitializedPoh = InitializedPoh(sequence: seq<Entry>) {
    /**
     * `verify`: recomputes every hash from `blockHash` onwards and returns the same sequence,
     * now verified, when all of them match; otherwise reports the first tick that does not.
     */
    method Verify(hasher: HexHasher, blockHash: string) returns (r: Result<VerifiedPoh, string>)
      ensures sequence == [] ==> r == Err("Empty PoH sequence")
      ensures r.Ok? <==> sequence != [] && ChainedFrom(hasher, blockHash, sequence)
      ensures r.Ok? ==> r.value.sequence == sequence
      ensures r.Err? && sequence != [] ==>
        exists k :: 0 <= k < |sequence| && !LinkHolds(hasher, blockHash, sequence, k)
          && (forall j :: 0 <= j < k ==> LinkHolds(hasher, blockHash, sequence, j))
          && r.error == MismatchMessage(sequence[k].0, sequence[k].1,
                                        CalculateHash(hasher, PrevHash(blockHash, sequence, k), sequence[k].0))
    {
      if sequence == [] {
        return Err("Empty PoH sequence");
      }
      var currentHash := blockHash;
      var k := 0;
      while k < |sequence|
        invariant 0 <= k <= |sequence|
        invariant forall j :: 0 <= j < k ==> LinkHolds(hasher, blockHash, sequence, j)
        invariant currentHash == PrevHash(blockHash, sequence, k)
      {
        var (timestamp, storedHash) := sequence[k];
        var computedHash := CalculateHash(hasher, currentHash, timestamp);
        if computedHash != storedHash {
          assert !LinkHolds(hasher, blockHash, sequence, k);
          return Err(MismatchMessage(timestamp, storedHash, computedHash));
        }
        currentHash := storedHash;
        k := k + 1;
      }
      return Ok(VerifiedPoh(sequence));
    }
  }

  /**
   * `initialize` with a seed, followed by `verify` with the same seed: whenever initialization
   * succeeds with at least one tick, verification succeeds and hands back the same sorted,
   * evenly spaced, chained sequence.
   */
  method InitializeThenVerify(hasher: HexHasher, seed: string, length: nat, startTime: U64, interval: U64)
    returns (v: Result<VerifiedPoh, string>)
    requires seed != [] && interval != 0 && length > 0
    requires startTime + (length - 1) * interval <= MAX_U64
    ensures v.Ok?
    ensures |v.value.sequence| == length
    ensures Spaced(v.value.sequence, startTime, interval) && Sorted(v.value.sequence)
    ensures ChainedFrom(hasher, seed, v.value.sequence)
  {
    var r := UninitializedPoh().Initialize(hasher, seed, length, startTime, interval);
    v := r.value.Verify(hasher, seed);
  }

  /**
   * `binary_search_by_key` on the timestamps, as the standard library promises it: a found
   * index always holds the key; on a sorted slice the key is found whenever it is present.
   */
  function SearchByTimestamp(s: seq<Entry>, key: U64, lo: nat, hi: nat): (r: Option<nat>)
    requires lo <= hi <= |s|
    ensures r.Some? ==> lo <= r.value < hi && s[r.value].0 == key
    ensures Sorted(s) && (exists i :: lo <= i < hi && s[i].0 == key) ==> r.Some?
    decreases hi - lo
  {
    if lo == hi then None
    else
      var mid := lo + (hi - lo) / 2;
      if s[mid].0 < key then SearchByTimestamp(s, key, mid + 1, hi)
      else if key < s[mid].0 then SearchByTimestamp(s, key, lo, mid)
      else Some(mid)
  }

  datatype VerifiedPoh = VerifiedPoh(sequence: seq<Entry>) {
    /** `get_sequence`: read access to the verified ticks. */
    function GetSequence(): (s: seq<Entry>)
      ensures s == sequence
    {
      sequence
    }

    /**
     * `verify_reference`: looks the timestamp up by binary search and compares the hash there.
     * Only a stored tick is ever accepted; on a sorted sequence every stored tick is.
     */
    function VerifyReference(reference: Entry): (b: bool)
      ensures b ==> reference in sequence
      ensures Sorted(sequence) && reference in sequence ==> b
    {
      match SearchByTimestamp(sequence, reference.0, 0, |sequence|)
      case Some(index) => sequence[index].1 == reference.1
      case None => false
    }
  }
}
