# Proof-of-History sequencer, blocks and Merkle wrapper — a Dafny model

This project models the core of a small Rust blockchain prototype and proves properties of it.
It has four parts:

- **Proof of History** (`poh.dfy`, module `Poh`). A sequence of `(timestamp, hash)` ticks moves
  through three typestates: `UninitializedPoh`, `InitializedPoh` and `VerifiedPoh`.
  `Initialize` builds `length` ticks. Tick *i* has timestamp `start + i * interval`. Its hash is
  `calculate_hash(previous hash, timestamp)`, and the first tick is chained off the seed.
  `Verify` recomputes the chain from a given hash. `VerifyReference` looks a `(timestamp, hash)`
  pair up by binary search.
- **Blocks** (`block.dfy`, module `Block`). A `PendingBlock` collects validated transactions up
  to `max_transactions`. `Finalize` binds it to a PoH reference and produces a `CommittedBlock`.
  `CommittedBlock.Verify` checks the reference against a verified PoH and recomputes the block
  hash.
- **Merkle typestate wrapper** (`merkle.dfy`, module `Merkle`). A leaf list moves through
  Empty → HashedLeaves → TreeConstructed ⇄ RootVerified. There is one datatype per state, so
  the typestate discipline stays a matter of types, as in the source.
- **Transactions** (`transaction.dfy`, module `Transactions`). A `Transaction` is signed in
  place and validated into the `ValidatedTransaction` record that blocks carry.

`format.dfy` holds the machine-integer ranges and `Decimal`, the text Rust's `{}` gives an
unsigned integer. `wrappers.dfy` holds `Option` and `Result`.

Modelling choices:

- **Hashes are parameters and stay uninterpreted.** No property assumes they are injective.
  - `HexHasher` (`string -> string`) is BLAKE3 followed by hex encoding, as in `poh.rs` and
    `block.rs`.
  - `ByteHasher` is `Blake3Hasher::hash` over bytes.
  - `RootOf` is "the root of the `rs_merkle` tree built from this leaf list, if any".
  - `AmountDisplay` is Rust's decimal formatting of an `f64`.
- **`f64` amounts** are the abstract type `Amount`.
- **Errors** are the source's own `String` messages, inside a `Result`.
- **Objects the source mutates through `&mut self` are classes.** These are `PendingBlock`
  (`add_transaction`) and `Transaction` (`sign`). `Transaction::validate` only reads, so it is a
  function with `reads this`. `PendingBlock::finalize` consumes the block; the model's
  `Finalize` is a function that reads it (see "## Left out").
- **Typestate transitions are functions.** They consume `self` and return a value of the next
  state. The two `append_hashes` extend an owned leaf vector. Nothing else can observe that
  vector, so the model builds the extended list as a new value.
- **`initialize` and `verify` keep the source's loops.** They are methods with loop invariants.
  `Initialize` is specified by the predicates `Spaced`, `ChainedFrom` and `Sorted`, and
  `Verify` by `ChainedFrom` and its per-tick `LinkHolds`.

The source has no seed check, no entry-append operation and no separator-based transaction
encoding. A transaction offered to a full block is dropped and only logged.

Two consequences of the code as written are proved:

- The block hash input is plain decimal-and-string concatenation. Shifting a character from a
  sender to its receiver leaves the hash unchanged (`BoundaryShiftKeepsHash`), so a block whose
  transaction text changes this way still verifies.
- `verify`'s timestamp cross-check compares the found tick with itself (see Findings).

## Model

| member | source | states |
|---|---|---|
| `Transactions.Transaction.constructor` | src/transaction.rs:22-30 | stores id, sender, receiver and amount; no signature |
| `Transactions.Transaction.Sign` | src/transaction.rs:32-34 | the signature becomes `Some(s)` and nothing else changes, so a later `sign` overwrites an earlier one; afterwards `Validate` is `Ok` with exactly these fields and `s` |
| `Transactions.Transaction.Validate` | src/transaction.rs:36-48 | `Err("Transaction not signed")` exactly when unsigned; on success copies id, sender, receiver, amount and the signature verbatim; reads the transaction and changes nothing |
| `Format.Decimal` | src/block.rs:95 | the `{}` text of an unsigned integer: non-empty, decimal digits only, and starting with '0' exactly when the number is 0 (no leading zeros); its digits spell the number back (`DecimalSpellsNumber`) |
| `Format.DecimalSpellsNumber` | src/block.rs:95 | reading the digits of the `{}` text of `n` back, most significant first, gives `n` |
| `Format.DecimalInjective` | src/poh.rs:45 | two numbers with the same `{}` text are equal, so a timestamp's text identifies it |
| `Poh.CalculateHash` | src/poh.rs:44-48 | definition of the hashed text: the previous hash followed by the decimal timestamp; its consequences (the chain shape) are proved by `InitializedPoh.Verify`, `ChainDetermined` and `InitializeThenVerify` |
| `Poh.UninitializedPoh.Initialize` | src/poh.rs:21-40 | an empty seed gives `Err` first, then a zero interval gives `Err`; otherwise `Ok` with exactly `length` ticks, tick i at `start + i*interval`, each hash chained off the previous one starting from the seed, and timestamps strictly increasing |
| `Poh.SpacedIsSorted` | src/poh.rs:26-34 | ticks spaced by a positive interval have strictly increasing timestamps, which is the order the binary search needs |
| `Poh.ChainDetermined` | src/poh.rs:30-38 | the seed, start time, interval and length fix the initialized sequence uniquely |
| `Poh.InitializedPoh.Verify` | src/poh.rs:50-71 | `Err("Empty PoH sequence")` on an empty sequence; `Ok` iff non-empty and every stored hash equals its recomputation seeded with the given hash; on `Ok` the sequence is returned unchanged; otherwise the error names the first mismatching tick |
| `Poh.InitializeThenVerify` | src/poh.rs:21-71 | `initialize` with a non-empty seed, positive interval and at least one tick, then `verify` with the same seed, is `Ok`, handing back the length-`length`, evenly spaced, sorted sequence chained off the seed |
| `Poh.VerifiedPoh.GetSequence` | src/poh.rs:75-77 | returns exactly the stored sequence |
| `Poh.SearchByTimestamp` | src/poh.rs:82 | a found index always holds the key; on a sorted sequence, a present key is always found |
| `Poh.VerifiedPoh.VerifyReference` | src/poh.rs:79-84 | true only for a stored `(timestamp, hash)` tick; on a sorted sequence, true for every stored tick |
| `Block.CalculateHash` | src/block.rs:89-98 | definition of the hashed text: the decimal index, the previous hash, the decimal timestamp and the collected transaction texts (each id, sender, receiver and formatted amount), joined with no separator; its properties are proved by `TransactionsDataAppend`, `HashIgnoresSignatures`, `BoundaryShiftKeepsHash` and `FinalizeThenVerify` |
| `Block.TransactionsDataAppend` | src/block.rs:90-93 | the collected text of a list of transactions is the collected texts of its parts, joined in order |
| `Block.TransactionsDataIgnoresSignatures` | src/block.rs:89-93 | the concatenated transaction text depends only on id, sender, receiver and amount |
| `Block.HashIgnoresSignatures` | src/block.rs:89-98 | blocks whose transactions differ only in signatures have the same hash |
| `Block.BoundaryShiftKeepsHash` | src/block.rs:89-98 | for any hash function, two different transactions (a character moved from sender to receiver) give the same block hash |
| `Block.FindTick` | src/block.rs:70 | the tick found by the linear search is the first stored tick carrying the searched timestamp; when none is found, no tick has it |
| `Block.PendingBlock.constructor` | src/block.rs:26-33 | no transactions, timestamp 0, the given previous hash and capacity |
| `Block.PendingBlock.AddTransaction` | src/block.rs:50-56 | appends at the end when below capacity, otherwise leaves the list unchanged; keeps `len <= max_transactions` |
| `Block.AdmitAllKeepsFirst` | src/block.rs:50-56 | offering transactions one by one keeps exactly the first ones that fit, in order, and never exceeds the capacity (with capacity 0 nothing is kept) |
| `Block.PendingBlock.Finalize` | src/block.rs:35-48 | the timestamp is the reference's tick and the hash covers index, previous hash, that timestamp and the transactions; everything else is carried over unchanged |
| `Block.CommittedBlock.Verify` | src/block.rs:61-87 | true iff the reference resolves in the PoH and the stored hash equals the recomputed one; the tick cross-check never rejects |
| `Block.CommittedBlock.VerifyTimestamped` | src/block.rs:68-75 | corrected check: accepts only when the verification as written accepts and the block's timestamp is its reference's tick |
| `Block.FinalizeThenVerify` | src/block.rs:35-87 | a freshly finalized block verifies, under either check, exactly when its reference does |
| `Block.FinalizeThenVerifySorted` | src/block.rs:61-87 | against a sorted PoH, a freshly finalized block verifies iff its reference is a stored tick |
| `Block.StaleTimestampAccepted` | src/block.rs:68-75 | as written, a block whose timestamp differs from its (valid) reference's tick still verifies; the corrected check rejects it |
| `Merkle.HashAll` | src/merkle.rs:54-56 | one digest per datum, `leaves[i] = hash(data[i])`, in order |
| `Merkle.New` | src/merkle.rs:42-48 | the Empty state has no leaves |
| `Merkle.EmptyTree.HashLeaves` | src/merkle.rs:51-63 | needs non-empty data (it panics otherwise); the leaves have the data's length and `leaves[i] = hash(data[i])` |
| `Merkle.HashedTree.ConstructTree` | src/merkle.rs:68-75 | keeps the leaf list exactly |
| `Merkle.ConstructedTree.VerifyRoot` | src/merkle.rs:89-99 | `Ok` iff the tree over the leaves has a root, leaves kept; otherwise `Err("Invalid tree structure")` |
| `Merkle.ConstructedTree.Verify` | src/merkle.rs:114-124 | behaves exactly like `verify_root` |
| `Merkle.ConstructedTree.AppendHashes` | src/merkle.rs:101-112 | `Err` only when old and new leaves are both empty; otherwise the leaves become old ++ new, in order |
| `Merkle.VerifiedTree.IntoUnverified` | src/merkle.rs:137-143 | back to TreeConstructed with the leaf list unchanged |
| `Merkle.VerifiedTree.AppendHashes` | src/merkle.rs:145-149 | always `Ok`, with leaves = old ++ new |
| `Merkle.VerifiedTree.Leaves` | src/merkle.rs:152-154 | returns exactly the stored leaf list |
| `Merkle.RunOnlyExtendsLeaves` | src/merkle.rs:68-149 | after any sequence of state transitions, the leaves are the starting leaves followed by every appended hash in order: leaves are never reordered or removed |
| `Merkle.ReachableTreesHaveLeaves` | src/merkle.rs:51-149 | every tree reachable from `new` through `hash_leaves` and later transitions has at least one leaf |

## Findings

| source | as written | input that shows it | evidently intended | confidence | as-written member | corrected member |
|---|---|---|---|---|---|---|
| src/block.rs:69-75 | the "cross-validate the timestamp" step looks up the tick equal to the reference's tick and compares that tick with the same reference tick, so it never rejects, and the block's own `timestamp` is never compared with its reference | a committed block whose `poh_reference` is a stored tick `(1000, h)` but whose `timestamp` is 5, with its hash computed over 5: `verify` returns true. `finalize` always sets the timestamp to the reference's tick and the fields are private, so such a block arrives only through the `Deserialize` derive (src/block.rs:14) | reject a block whose timestamp differs from its PoH reference's tick, as the message "Timestamp does not match PoH reference!" says | medium; not executed | `Block.StaleTimestampAccepted` (about `Block.CommittedBlock.Verify`) | `Block.CommittedBlock.VerifyTimestamped` |

## Left out

- `println!` logging (`poh.rs`, `block.rs`) is console output with no effect on results.
- `src/main.rs` calls `Block::new` and `Block::verify`, which do not exist in `src/block.rs`.
- BLAKE3 and hex encoding are parameters. No collision property is proved or assumed.
- `rs_merkle` internals are not modelled: tree construction, `root()`, `generate_proof` and
  proof verification are an external library. The `rs_tree` field is not stored. Every
  transition either rebuilds it from the current leaves or carries it with them, so its root is
  modelled as `RootOf` applied to the leaf list.
- `MerkleTree::root` and `MerkleTree::generate_proof` (src/merkle.rs:128-135) only call into that library.
- `MerkleTree::from_transactions` (src/merkle.rs:77-84) calls functions that do not exist.
- `#[derive(Default)]` on `MerkleTree` is not modelled. It can make a TreeConstructed or
  RootVerified tree with no leaves, which is the only way to reach `append_hashes`' error.
  `Merkle.ReachableTreesHaveLeaves` is about trees that start from `new`.
- `ValidatedTransaction::serialize` and `f64` formatting are not modelled. The display of an
  amount is the parameter `AmountDisplay`.
- Serde derives are not modelled.
- `binary_search_by_key` is standard-library code, modelled as a halving search. The library
  returns `Ok(i)` only where the key compares equal, and the model proves that on any sequence;
  so `VerifyReference` accepts only stored ticks even on an unsorted sequence. Which index the
  library picks, and whether it finds a present key on an unsorted sequence, are unspecified;
  the model proves "a present key is found" only on a sorted sequence.
- Block.PendingBlock.Finalize: `finalize` takes the block by value, so the pending block cannot
  be used afterwards; the model's `Finalize` only reads the object, which stays usable. Ownership
  transfer is not modelled.
- Poh.UninitializedPoh.Initialize: requires that the last timestamp,
  `start_time + (length-1)*interval`, fits in u64. Past that, the source panics in a debug
  build and wraps in a release build. Neither behaviour is modelled.
- `Vec::with_capacity` allocation failure and `usize` limits are not modelled.
