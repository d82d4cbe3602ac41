# Verified models of sigma-rust's protocol and arithmetic core

Dafny models of four parts of sigma-rust, with proofs of what they are for.

1. **NiPoPoW proofs** (`ergo-nipopow`). The interlink index, the chain-scanning prover, the reader-backed
   prover, the validity checks, the comparison of proofs, the packing of interlinks and the verifier. Main
   results: interlink vectors index every well-formed chain; what either prover builds from such a chain is
   valid and a new verifier stores it; the exact condition under which the two provers return the same proof;
   what validity means, with a path of links from every header to the first; when one proof is better, for all
   proofs; the comparison is irreflexive, and asymmetric exactly for equal `m`; what the verifier keeps over every
   run, and when it settles.
2. **Merkle trees and multi-proofs** (`ergo-merkle-tree`). The in-place heap build computes the recursive
   Merkle root, which fixes the leaves; single and compact multi-proofs are complete for every tree and index set.
   As long as the hash does not collide on the inputs actually hashed, single proofs are sound, and multi-proofs are
   sound if no parent has more than two entries; on full trees that is the exact condition.
3. **GF(2^192)** (`gf2_192`). The table-driven product is multiplication of polynomials modulo
   x^192 + x^7 + x^2 + x + 1, which makes a commutative ring; the addition chain computes z^(2^192 - 2); Newton
   interpolation hits every point and is unique.
4. **Bounded arithmetic**. Modular inverse by extended Euclid inside 320-bit signed intermediates
   (`ergotree-ir`), and the lossy compact form of difficulty targets (`ergo-chain-types`).

## How the model is set up

- The hash is a parameter `H`, a function from byte strings to 256-bit digests about which nothing is assumed.
  Soundness results name the inputs on which it must not collide.
- A header's level is a field: `None` stands for a proof-of-work hit that cannot be computed, and genesis
  (height 1) has the largest level. `WellFormed` chains have heights 1, 2, .., parent links, non-negative
  levels, and interlinks grown by `UpdateInterlinks` from an empty genesis vector.
- Where the source would overflow a machine integer, index out of range or fail an `expect`, the model returns
  the error `Aborted`: the behaviour of builds with overflow checks.
- A header store is a record of lookup functions. `Exposes` says that it serves a given chain, and nothing about
  other blocks in it. The value `Diverges` of a specification stands for a walk that never ends; the methods ask for
  nothing but that it does.
- A `BTreeSet` or `BTreeMap` is a sequence kept in order; a stable sort is an insertion sort.
- Loops, in-place array updates and mutated fields are methods, arrays and classes. Each method is proved equal
  to a function of its inputs, and the properties are proved about that function.
- Elements of GF(2^192) are three 64-bit vectors. Facts about words are proved on bit vectors; everything above
  them uses only the ring laws.
- Two facts about GF(2^192) are hypotheses where they are needed: the literal power tables (`TablesAreRight`)
  and z^(2^192 - 1) = 1 for every z other than zero (`OrderDivides`), which rests on the reduction polynomial
  being irreducible.

Where comments and code differ, the model follows the code. The comment above the power tables speaks of the
power 2^k, while the entries are 2^(2^k)-th powers (gf2_192/src/gf2_192.rs:229-231).

## Findings

- The two provers (ergo-nipopow/src/nipopow_algos.rs:209-238 and 605-631) agree exactly when
  `Superchain.ProversAgree` holds of the levels before the suffix: no level-0 block lies at or after the scan's last
  anchor (the walk never visits one), and no level from 2 up is reached by exactly `m` blocks with a block of the
  level just below in front of them (only the scan moves past it). Both cases occur on well-formed chains
  (`ChainWitnesses.ScanKeepsMore`, `ChainWitnesses.WalkKeepsMore`).
- Asking the reader-backed prover for genesis itself lists genesis twice, and the height check rejects the result
  (ergo-nipopow/src/nipopow_algos.rs:284-332; `ProverEquivalence.ReaderAtGenesis`).
- A walk along a level never ends exactly when it comes back to an id it has visited
  (ergo-nipopow/src/nipopow_algos.rs:577-594; `ReaderTermination.DivergesIffGoesRound`), and the reader-backed prover
  never ends exactly when a walk it gets to does so (`ReaderTermination.ReaderDivergesIff`). There is such a store
  (`ReaderTermination.RoundStoreDiverges`); on any store that serves a well-formed chain the prover ends.
- `is_better_than` scores both proofs with the left proof's `m` (ergo-nipopow/src/nipopow_proof.rs:88-89). It is
  asymmetric between proofs with `m1` and `m2` exactly when those are equal, or one is that of no valid proof
  (`ComparisonWitnesses.AsymmetricIff`).
- Even with equal `m` the comparison is not transitive, because each pair is scored above its own branching point
  (ergo-nipopow/src/nipopow_proof.rs:75-89): three valid proofs can beat each other around a circle, and a verifier
  given them over and over (ergo-nipopow/src/nipopow_verifier.rs:37-51) never settles
  (`NipopowVerification.SameMNeverSettles`). Runs of given proofs settle exactly when there is no such circle among
  them (`NipopowVerification.SettlesIffNoCircle`). With one `m` and one branching point there is none, and the
  verifier settles on a best proof (`NipopowVerification.SettlesForGood`).
- On a long enough well-formed chain `prove` fails exactly when the suffix starts right after genesis, by underflow
  (ergo-nipopow/src/nipopow_algos.rs:198-204; `NipopowProver.ProveSucceedsIff`).
- `check_interlinks_proof` compares with the root of the interlink fields alone
  (ergo-nipopow/src/nipopow_proof.rs:357-370), so a proof taken from an extension with any other field is rejected
  (`InterlinkProofs.HonestProofsAccepted`, `InterlinkProofs.RejectedExtension`).
- `BatchMerkleProof::valid` drops what is left over after deduplicating positions
  (ergo-merkle-tree/src/batchmerkleproof.rs:88-98). On a full tree of four leaves or more, whatever the hash, every
  sorted list of positions with three under one parent has an accepted proof that carries any given hash
  (`MultiproofSurplus.SurplusIsUnchecked`). On full trees whose hashes no other input has, accepted proofs for a sorted
  list of positions carry only nodes exactly when no parent has three entries or there are at most two leaves
  (`MultiproofSurplus.TrustedIff`; `MultiproofSurplus.SealedTree` is such a tree).
- It also trusts the sides written in the proof (ergo-merkle-tree/src/batchmerkleproof.rs:72-84). Of an accepted proof
  with distinct indices, on a tree whose nodes have different hashes and without collisions, every entry is the node at
  its index on one level exactly when the sides agree with the positions and the climb ends at position 0
  (`MultiproofPositions.AlignedIffInPlace`). An empty node has no side: it fits at even positions only. An honest proof
  of one leaf is accepted for every other index as well (`MultiproofPositions.AnyIndexIsAccepted`).
- The compact form gives the leading bytes of a non-negative number back exactly below 2^2039
  (ergo-chain-types/src/autolykos_pow_scheme.rs:57-118; `CompactBits.RoundTripIff`). For a negative number the size
  is lost (lines 108-117), and exactly one of them survives (`CompactBits.NegativeRoundTripIff`).

## Model

| member | source | states |
|---|---|---|
| Interlinks.UpdateKeepsIndex | ergo-nipopow/src/nipopow_algos.rs:406-446 | one update keeps the index: genesis first, and the entry mu from the end is the latest ancestor of level mu or more |
| Interlinks.UpdateSucceedsIff | ergo-nipopow/src/nipopow_algos.rs:406-446 | for which blocks and vectors there is an update, and the error where there is none |
| Interlinks.UpdatedEntries | ergo-nipopow/src/nipopow_algos.rs:406-446 | after any block and any vector, which entries name the block and which stay |
| Interlinks.InterlinksIndexTheChain | ergo-nipopow/src/nipopow_algos.rs:406-446 | in every chain grown by updates, each block's vector has length 1 + the top positive level of its ancestors and indexes them |
| Interlinks.ReachableIsNamed | ergo-nipopow/src/nipopow_algos.rs:406-446 | a block that is genesis, the parent or the latest of some level is named by interlink or parent id |
| Superchain.MthFromEnd | ergo-nipopow/src/nipopow_algos.rs:224-228 | the entry m from the end of a sub-chain is the m-th most recent block of its level |
| Superchain.ScanAnchorStep | ergo-nipopow/src/nipopow_algos.rs:209-235 | the scan's moving anchor has a closed form: the m-th most recent block of the level above, else genesis |
| Superchain.WalkAnchorStep | ergo-nipopow/src/nipopow_algos.rs:605-631 | the same for the walk, whose count leaves genesis out |
| Superchain.ScanSetStep | ergo-nipopow/src/nipopow_algos.rs:209-235 | what the scan selects down to a level, from what it selects above it |
| Superchain.WalkSetStep | ergo-nipopow/src/nipopow_algos.rs:605-631 | what the walk selects down to a level, from what it selects above it |
| Superchain.NearestKeptIsReachable | ergo-nipopow/src/nipopow_proof.rs:149-189 | in an upward closed selection the block kept just before another is reachable from it by interlink or parent |
| Superchain.ScanUpwardClosed | ergo-nipopow/src/nipopow_algos.rs:209-235 | with a block the scan keeps every later block of at least its level |
| Superchain.WalkUpwardClosed | ergo-nipopow/src/nipopow_algos.rs:605-631 | with a non-genesis block the walk keeps every later block of at least its level |
| Superchain.SelectionsAgreeIff | ergo-chain-generation/src/chain_generation.rs:604-614 | scan and walk select the same blocks if and only if the levels satisfy a stated condition |
| Superchain.DenseChainsAgree | ergo-chain-generation/src/chain_generation.rs:604-614 | they do when every block has level 1 or more and no level is held by exactly m blocks |
| NipopowProofs.SelectionIsConnected | ergo-nipopow/src/nipopow_proof.rs:149-189 | an upward closed selection with genesis passes the connection check for every use_last_epochs |
| NipopowProofs.SelectionHeights | ergo-nipopow/src/nipopow_proof.rs:195-199 | every selection of a well-formed chain passes the height check |
| NipopowProofs.KeptBlocksAreNamed | ergo-nipopow/src/nipopow_proof.rs:149-189 | each kept block and the suffix head name the kept block just before them |
| NipopowProver.CollectSubChain | ergo-nipopow/src/nipopow_algos.rs:214-222 | the inner loop equals the sub-chain function, errors included |
| NipopowProver.ExtendPrefix | ergo-nipopow/src/nipopow_algos.rs:229-233 | the loop appends the blocks not yet in the prefix |
| NipopowProver.ScanLevels | ergo-nipopow/src/nipopow_algos.rs:209-235 | the stack-driven loop equals the recursive scan |
| NipopowProver.Prove | ergo-nipopow/src/nipopow_algos.rs:175-238 | the prover equals its specification on every input, each error case included |
| NipopowProver.ProveOutcome | ergo-nipopow/src/nipopow_algos.rs:175-238 | for every chain and request, a proof exactly when none of seven stated reasons applies, else the error of the first that does; the proof carries the parameters and the last k headers |
| NipopowProver.SubChainSelects | ergo-nipopow/src/nipopow_algos.rs:214-222 | on a well-formed chain the sub-chain is exactly the blocks of that level from the anchor on, in order |
| NipopowProver.ProveSelects | ergo-nipopow/src/nipopow_algos.rs:175-238 | the proof is the ascending selection of the closed form, in front of the last k blocks |
| NipopowProver.ProveIsAccepted | ergo-nipopow/src/nipopow_algos.rs:175-238 | on every well-formed chain with enough blocks the proof starts at genesis, each entry names the one before it, and connections and heights are valid for every lookback |
| NipopowProver.ProveSucceedsIff | ergo-nipopow/src/nipopow_algos.rs:198-207 | with enough blocks, proving succeeds if and only if two blocks precede the suffix |
| NipopowReader.CollectLevel | ergo-nipopow/src/nipopow_algos.rs:567-595 | the loop ends exactly when the walk does, on any store, and then equals the collection |
| NipopowReader.CollectUnfolds | ergo-nipopow/src/nipopow_algos.rs:567-595 | what the walk collects satisfies the recursion along the level, on every store |
| NipopowReader.ProvePrefix | ergo-nipopow/src/nipopow_algos.rs:605-631 | the loop over levels equals the recursive walk whenever that ends |
| NipopowReader.AddCollected | ergo-nipopow/src/nipopow_algos.rs:321-327 | the loop adds the collected blocks whose height is new |
| NipopowReader.NewHeightsAre | ergo-nipopow/src/nipopow_algos.rs:321-327 | on every store exactly the collected blocks that are the first of their height, and not of height 1, are added |
| NipopowReader.InsertByIdReplaces | ergo-nipopow/src/nipopow_algos.rs:605-631 | collecting a block replaces the one with its id and keeps all others, in order of id |
| NipopowReader.ProveWithReader | ergo-nipopow/src/nipopow_algos.rs:268-332 | the reader-backed prover equals its specification, each error case included, on every store and request on which it ends |
| NipopowReader.ReaderOutcome | ergo-nipopow/src/nipopow_algos.rs:268-332 | for every store and request, when k is zero, the chain too short or the suffix or genesis missing; a proof carries the parameters and the suffix that was asked for |
| ReaderTermination.DescendingStoresEnd | ergo-nipopow/src/nipopow_algos.rs:268-332 | on a store whose interlinks lead to lower blocks it ends on every request |
| ReaderTermination.DivergesIffGoesRound | ergo-nipopow/src/nipopow_algos.rs:567-595 | on every store, the walk along a level never ends if and only if it comes back to an id it has visited |
| ReaderTermination.ReaderDivergesIff | ergo-nipopow/src/nipopow_algos.rs:268-332 | the reader-backed prover never ends if and only if the request passes the checks in front and some level's walk, reached with its anchor, comes back to an id |
| ReaderTermination.RoundStoreDiverges | ergo-nipopow/src/nipopow_algos.rs:268-332 | on a store of three blocks, two of which name each other, it never ends |
| ProverEquivalence.PreviousIsLastAt | ergo-nipopow/src/nipopow_algos.rs:547-557 | the interlink at an index is the block's latest ancestor of that level, and is missing exactly when there is none |
| ProverEquivalence.CollectWalksTheLevel | ergo-nipopow/src/nipopow_algos.rs:567-595 | on any store that serves the chain the walk at index j ends and returns exactly the non-genesis ancestors of level j + 1 or more at or above the anchor, ascending |
| ProverEquivalence.WalkSelects | ergo-nipopow/src/nipopow_algos.rs:605-631 | the walk over all levels collects exactly the closed-form selection |
| ProverEquivalence.ReaderSelects | ergo-nipopow/src/nipopow_algos.rs:268-332 | the reader's proof is the ascending closed-form selection in front of the requested suffix |
| ProverEquivalence.ReaderIsAccepted | ergo-nipopow/src/nipopow_algos.rs:268-332 | with m >= 1 and a non-genesis suffix head every proof built has valid connections and heights, and starts at genesis |
| ProverEquivalence.ReaderAtGenesis | ergo-nipopow/src/nipopow_algos.rs:268-332 | asking for genesis gives a proof that the height check rejects |
| ProverEquivalence.ProversReturnTheSameIff | ergo-chain-generation/src/chain_generation.rs:604-614 | the two provers return the same proof if and only if the level condition holds |
| ProverEquivalence.ProversAgreeOnDenseChains | ergo-chain-generation/src/chain_generation.rs:604-614 | and so on every chain whose levels before the suffix are all at least 1 and held by other than m blocks |
| ChainWitnesses.StoreExposes | ergo-nipopow/src/popow_header_reader.rs:50-72 | the store of a well-formed chain with distinct ids serves that chain |
| ChainWitnesses.ChainHasLevels | ergo-nipopow/src/nipopow_algos.rs:406-446 | every list of levels is that of a well-formed chain with distinct ids |
| ChainWitnesses.LevelsDecideAgreement | ergo-chain-generation/src/chain_generation.rs:604-614 | on the chain with any given levels and its store the provers return the same proof if and only if the level condition holds |
| ChainWitnesses.WalkKeepsMore | ergo-chain-generation/src/chain_generation.rs:604-614 | a well-formed chain and its store on which the reader-backed prover keeps a block the other drops |
| ChainWitnesses.ScanKeepsMore | ergo-chain-generation/src/chain_generation.rs:604-614 | a well-formed chain and its store on which the in-memory prover keeps a level-0 block the other never meets |
| NipopowScoring.CountLevel | ergo-nipopow/src/nipopow_algos.rs:95-100 | the loop counts the headers of a level after the unsigned cast, or reports the first unknown level |
| NipopowScoring.BestArg | ergo-nipopow/src/nipopow_algos.rs:84-126 | the loop ends and equals its specification, overflow included |
| NipopowScoring.BestArgIsMaximum | ergo-nipopow/src/nipopow_algos.rs:68-83 | the score is the maximum of 2^mu times the count over level 0 and all levels with at least m headers: stopping at the first short level loses nothing |
| NipopowScoring.BestArgSucceedsIff | ergo-nipopow/src/nipopow_algos.rs:84-126 | there is a score exactly when every level is known and no argument's score exceeds a machine word |
| NipopowScoring.CastCountsFaithfullyIff | ergo-nipopow/src/nipopow_algos.rs:97 | the unsigned comparison counts what the definition asks for if and only if no header has a negative level that 2^32 lifts to the level counted |
| NipopowScoring.LowestCommonAncestor | ergo-nipopow/src/nipopow_algos.rs:148-172 | the nested loops equal the recursive definition |
| NipopowScoring.LcaIsHighestCommon | ergo-nipopow/src/nipopow_algos.rs:148-172 | on increasing chains with equal heads the result is the highest header in both |
| NipopowScoring.LcaSymmetric | ergo-nipopow/src/nipopow_algos.rs:148-172 | swapping the chains does not change the result |
| NipopowComparison.ProvedIsValid | ergo-nipopow/src/nipopow_proof.rs:98-112 | what the prover builds from a well-formed chain with its Merkle proofs passes all four validity checks |
| NipopowComparison.WalkedIsValid | ergo-nipopow/src/nipopow_proof.rs:98-112 | so does what the reader-backed prover builds in front of any non-genesis block |
| NipopowComparison.ValidIsAChain | ergo-nipopow/src/nipopow_proof.rs:98-104 | the headers of a valid proof ascend from each to every later one, and its suffix is linked by parent ids |
| ProofValidity.EntriesNameEarlierOnes | ergo-nipopow/src/nipopow_proof.rs:149-189 | every entry of a valid proof but the first holds, in its interlinks or as parent id, the id of an entry at most use_last_epochs + 3 before it |
| ProofValidity.UnlinkedIsInvalid | ergo-nipopow/src/nipopow_proof.rs:149-189 | a proof with an entry that names nothing in that window is not valid, whatever else holds |
| ProofValidity.PathToTheFirst | ergo-nipopow/src/nipopow_proof.rs:149-189 | in a valid proof a path of such links and parent ids leads from every header to the first |
| ProofValidity.HeightsFall | ergo-nipopow/src/nipopow_proof.rs:149-199 | along every such path positions and heights fall |
| ProofValidity.EntriesCarrySoundProofs | ergo-nipopow/src/nipopow_proof.rs:200-205 | each entry of a valid proof comes with an empty vector and an empty proof, or with a proof that leads to the root of the fields of its vector and, without collisions, carries only nodes of that tree |
| ProofValidity.ValidIff | ergo-nipopow/src/nipopow_proof.rs:98-112 | a proof is valid if and only if its parameters are in range, every header but the first has a link, later headers are higher, and every entry carries the proof of its interlinks |
| NipopowComparison.AboveIsAfter | ergo-nipopow/src/nipopow_proof.rs:80-87 | on an increasing chain the headers above one of them are those after it |
| NipopowComparison.BetterIff | ergo-nipopow/src/nipopow_proof.rs:73-95 | for all proofs: one is better if and only if it is valid, and the other is not, or both have the same head and its best argument past their highest common header is larger |
| NipopowComparison.ComparisonFailsIff | ergo-nipopow/src/nipopow_proof.rs:73-95 | the comparison fails if and only if both proofs are valid with the same head and, past their highest common header, one has an unknown level or a score out of range |
| NipopowComparison.ComparisonError | ergo-nipopow/src/nipopow_proof.rs:88-89 | which of the two errors it then is |
| NipopowComparison.BetterIsIrreflexive | ergo-nipopow/src/nipopow_proof.rs:73-95 | no proof, valid or not, is better than itself, and that comparison never fails |
| NipopowComparison.BetterIsAsymmetric | ergo-nipopow/src/nipopow_proof.rs:73-95 | for equal m, if one is better the other is not |
| ComparisonWitnesses.MutuallyBetter | ergo-nipopow/src/nipopow_proof.rs:87-89 | for every two different usable m, two valid proofs each better than the other |
| ComparisonWitnesses.AsymmetricIff | ergo-nipopow/src/nipopow_proof.rs:73-95 | proofs with m1 and m2 always compare asymmetrically if and only if m1 = m2 or one of them is that of no valid proof |
| ComparisonWitnesses.ThreeInACircle | ergo-nipopow/src/nipopow_proof.rs:73-95 | three valid proofs with the same m, each better than the next around a circle |
| NipopowVerification.NipopowVerifier.constructor | ergo-nipopow/src/nipopow_verifier.rs:17-22 | a new verifier holds no proof and the given genesis id |
| NipopowVerification.NipopowVerifier.Process | ergo-nipopow/src/nipopow_verifier.rs:37-51 | the stored proof and the outcome after a call, for every proof and state; a proof whose first id is another one changes nothing |
| NipopowVerification.StoredIsAcceptable | ergo-nipopow/src/nipopow_verifier.rs:37-51 | after any run the stored proof is one of those given, valid, and its first header has the genesis id |
| NipopowVerification.StoredIff | ergo-nipopow/src/nipopow_verifier.rs:37-51 | a proof is stored if and only if a valid one whose first header has the genesis id was given |
| NipopowVerification.ForeignIsIgnored | ergo-nipopow/src/nipopow_verifier.rs:37-51 | after every run, a proof with another first id leaves the stored one unchanged and the call succeeds |
| NipopowVerification.OnlyOwnProofsCount | ergo-nipopow/src/nipopow_verifier.rs:37-51 | every run leaves what it would leave without the proofs that have another first id |
| NipopowVerification.FirstStoredIff | ergo-nipopow/src/nipopow_verifier.rs:37-51 | while nothing is stored, a proof is stored if and only if it is valid and starts with the genesis id |
| NipopowVerification.ReplacedIff | ergo-nipopow/src/nipopow_verifier.rs:37-51 | after that, if and only if it starts with the genesis id and is better; the call fails exactly when that comparison does |
| NipopowVerification.NeverAbsentAgain | ergo-nipopow/src/nipopow_verifier.rs:37-51 | once there is a stored proof, there is one after every longer run |
| NipopowVerification.ReplacedOnlyByBetter | ergo-nipopow/src/nipopow_verifier.rs:37-51 | a call changes nothing, or stores its own acceptable proof, which then compares better than the one before |
| NipopowVerification.UnfitIsIgnored | ergo-nipopow/src/nipopow_verifier.rs:37-51 | invalid proofs, wrong genesis blocks and failing comparisons leave the state unchanged |
| NipopowVerification.ReplacedStaysReplaced | ergo-nipopow/src/nipopow_verifier.rs:37-51 | a proof just replaced by one with the same m is not stored again by the very next call |
| NipopowVerification.DifferentMNeverSettles | ergo-nipopow/src/nipopow_verifier.rs:37-51 | for every two different usable m, two valid proofs given in turn replace each other for ever |
| NipopowVerification.CircleNeverSettles | ergo-nipopow/src/nipopow_verifier.rs:37-51 | any proofs that beat each other around a circle, given over and over, replace each other with every call |
| NipopowVerification.SameMNeverSettles | ergo-nipopow/src/nipopow_verifier.rs:37-51 | three proofs with the same m do so: equal m does not make the verifier settle |
| NipopowVerification.HistoryClimbs | ergo-nipopow/src/nipopow_verifier.rs:37-51 | over every run the proofs stored one after the other are acceptable, each better than the one before, the last being the stored one |
| NipopowVerification.SettlesIffNoCircle | ergo-nipopow/src/nipopow_verifier.rs:37-51 | runs of given proofs change the stored proof a bounded number of times if and only if no circle of those proofs beats around |
| NipopowVerification.PartingHasNoCircle | ergo-nipopow/src/nipopow_verifier.rs:37-51 | proofs with one m whose chains part at one header have no such circle |
| NipopowVerification.BetterIsScore | ergo-nipopow/src/nipopow_proof.rs:73-95 | among acceptable proofs with one m whose chains part at one header, better means a higher score above it |
| NipopowVerification.StoredIsBest | ergo-nipopow/src/nipopow_verifier.rs:37-51 | after every run of such proofs, mixed with any unacceptable ones, no proof of the run is better than the stored one |
| NipopowVerification.SettlesForGood | ergo-nipopow/src/nipopow_verifier.rs:37-51 | the proofs of such a run, given again in any order and number, change nothing |
| NipopowVerification.ProvedIsStored | ergo-nipopow/src/nipopow_verifier.rs:37-51 | a new verifier stores what the prover builds on its genesis block |
| InterlinkPacking.PackInterlinks | ergo-nipopow/src/nipopow_algos.rs:344-380 | the loop writes one field per maximal run, or aborts exactly when a count or key overflows a byte |
| InterlinkPacking.PackSucceedsIff | ergo-nipopow/src/nipopow_algos.rs:344-380 | packing succeeds if and only if every run starts at a one-byte position and has a one-byte length |
| InterlinkPacking.HasPackableInterlinks | ergo-nipopow/src/nipopow_proof.rs:322-345 | accepts exactly the non-empty vectors that packing succeeds on |
| InterlinkPacking.UnpackInterlinks | ergo-nipopow/src/nipopow_algos.rs:382-403 | the loop equals its specification, field sizes checked |
| InterlinkPacking.PackRoundTrip | ergo-nipopow/src/nipopow_algos.rs:344-403 | unpacking any extension whose interlink fields are the packed ones in order gives the vector back |
| InterlinkPacking.PackedKeysIncrease | ergo-nipopow/src/nipopow_algos.rs:344-380 | packed keys strictly increase and carry the interlink prefix |
| InterlinkPacking.PackedField | ergo-nipopow/src/nipopow_algos.rs:344-380 | each field, byte for byte: prefix 1, the position of a maximal run, its length and the bytes of its id |
| InterlinkPacking.UnpackSucceedsIff | ergo-nipopow/src/nipopow_algos.rs:382-403 | unpacking succeeds if and only if every interlink field has 33 bytes |
| InterlinkProofs.CheckInterlinksProof | ergo-nipopow/src/nipopow_proof.rs:348-371 | the check, with its tree built in place, equals its specification |
| InterlinkProofs.VectorProofsCheck | ergo-nipopow/src/nipopow_algos.rs:448-487 | every extension yields a proof of its interlink fields, which checks against the extension's root and no other |
| InterlinkProofs.VectorProofEntries | ergo-nipopow/src/nipopow_algos.rs:448-487 | for every extension the proof has one entry at each position the tree gives for an interlink field, the first with its key, and none elsewhere |
| InterlinkProofs.VectorProofProvesTheFields | ergo-nipopow/src/nipopow_algos.rs:448-496 | with distinct keys, every field with the interlink prefix has an entry with its leaf hash, and every entry carries the leaf hash of such a field at a position that has it |
| InterlinkProofs.OneEntryPerField | ergo-nipopow/src/nipopow_algos.rs:448-487 | if the leaf hashes differ, the entries stand exactly at the positions of the interlink fields |
| InterlinkProofs.HonestProofsAccepted | ergo-nipopow/src/nipopow_proof.rs:348-371 | without collisions, a proof taken from an extension is accepted exactly when the vector is empty or the extension holds only its fields |
| InterlinkProofs.HonestProofsCompareRoots | ergo-nipopow/src/nipopow_proof.rs:348-371 | with any hash, it is accepted exactly when the interlink fields alone have the extension's root |
| InterlinkProofs.OneMoreFieldIsRejected | ergo-nipopow/src/nipopow_proof.rs:348-371 | without collisions, one field of another kind is enough for rejection |
| InterlinkProofs.RejectedExtension | ergo-nipopow/src/nipopow_proof.rs:348-371 | a concrete hash, vector and extension whose honest proof is rejected |
| InterlinkProofs.OwnProofsAccepted | ergo-nipopow/src/nipopow_proof.rs:348-371 | a packable vector with the proof taken from its own fields is always accepted |
| InterlinkProofs.AcceptedProofsAreSound | ergo-nipopow/src/nipopow_proof.rs:348-371 | without collisions, an accepted interlink proof carries only hashes of nodes of the tree over the vector's own fields |
| InterlinkProofs.ProofFixesTheVector | ergo-nipopow/src/nipopow_proof.rs:348-371 | without collisions, one proof is accepted for one vector only |
| MerkleTree.EmptyNodesAreRightmost | ergo-merkle-tree/src/merkletree.rs:163-184 | on every level the empty nodes are exactly those right of the last leaf |
| MerkleTree.NoLeftGap | ergo-merkle-tree/src/merkletree.rs:165-181 | an empty left child never has a non-empty sibling |
| MerkleTree.ParentNode | ergo-merkle-tree/src/merkletree.rs:165-181 | the four-way match equals the parent function, the last case being unreachable |
| MerkleTree.BuildNodes | ergo-merkle-tree/src/merkletree.rs:163-184 | the in-place loop leaves at every index the node of the finished heap |
| MerkleTree.HeapIsTheTree | ergo-merkle-tree/src/merkletree.rs:161-211 | heap node (t, q) is node (t, q) of the recursive definition, and empty where the array ends |
| MerkleTree.IndexHashes | ergo-merkle-tree/src/merkletree.rs:189-194 | the loop maps each leaf hash to its last position |
| MerkleTree.HashIndexFinds | ergo-merkle-tree/src/merkletree.rs:189-194 | looking up a leaf's hash gives the last position with that hash |
| MerkleTree.HashIndexOnly | ergo-merkle-tree/src/merkletree.rs:189-194 | only hashes of leaves are indexed |
| MerkleTree.NewTree | ergo-merkle-tree/src/merkletree.rs:161-211 | padding, layout and in-place build give the specified tree |
| MerkleTree.BuiltRoot | ergo-merkle-tree/src/merkletree.rs:161-220 | the root is that of the definition by halves over the padded leaves |
| MerkleBinding.SameHashSameLeaves | ergo-merkle-tree/src/merkletree.rs:163-211 | without collisions, nodes of two trees with equal hash and position stand on the same level over the same leaves |
| MerkleBinding.RootBindsLeaves | ergo-merkle-tree/src/merkletree.rs:161-220 | without collisions, non-empty trees with the same root hold the same leaves |
| MerkleProofs.BuildProof | ergo-merkle-tree/src/merkletree.rs:73-98 | the loop collects the siblings on the way to the root; other indices have no proof |
| MerkleProofs.ProofsAreComplete | ergo-merkle-tree/src/merkleproof.rs:85-103 | a position has a proof exactly when it is a leaf's; it carries the leaf's data and is accepted |
| MerkleProofs.ProofLevels | ergo-merkle-tree/src/merkletree.rs:73-98 | a leaf's proof holds, level by level, the sibling of its ancestor and the side of the ancestor |
| MerkleProofs.RootOfOne | ergo-merkle-tree/src/merkletree.rs:163-186 | the root over one leaf, byte for byte |
| MerkleProofs.RootOfThree | ergo-merkle-tree/src/merkletree.rs:163-186 | the root over three leaves, byte for byte |
| MerkleProofs.ProofsAreSound | ergo-merkle-tree/src/merkleproof.rs:85-103 | without collisions on the inputs hashed, an accepted proof carries the data of some leaf |
| BatchProofs.PassLevel | ergo-merkle-tree/src/batchmerkleproof.rs:42-87 | the loop over one level equals the recursive pass |
| BatchProofs.NextLevelIsSmaller | ergo-merkle-tree/src/batchmerkleproof.rs:88-100 | positions and proof nodes together shrink at every level, so checking ends on every proof |
| BatchProofs.ValidateLevels | ergo-merkle-tree/src/batchmerkleproof.rs:36-102 | the level-by-level checker equals its specification on every proof, well formed or not |
| BatchProofs.CheckBatch | ergo-merkle-tree/src/batchmerkleproof.rs:35-114 | the verdict equals its specification |
| BatchProofs.PassClimbsTheTree | ergo-merkle-tree/src/batchmerkleproof.rs:42-87 | a pass over nodes of a tree consumes exactly the missing siblings and gives the parents |
| BatchProofs.ValidateReachesTheRoot | ergo-merkle-tree/src/batchmerkleproof.rs:36-102 | a tree's own nodes and proof lead to the root and leave no proof node over |
| BatchProofs.BuilderFollowsTheTree | ergo-merkle-tree/src/merkletree.rs:100-134 | the builder on heap indices produces the proof defined on level positions |
| Multiproofs.ClimbLevel | ergo-merkle-tree/src/merkletree.rs:112-134 | one round gives the siblings missing from a set of indices and the set of parents |
| Multiproofs.BuildMultiproof | ergo-merkle-tree/src/merkletree.rs:100-134 | the loop over sets of indices equals the recursive proof |
| Multiproofs.CollectEntries | ergo-merkle-tree/src/merkletree.rs:136-147 | the entries pair each position with its leaf's hash |
| Multiproofs.ProveIndices | ergo-merkle-tree/src/merkletree.rs:255-275 | sorting, deduplication, bounds check and build give the specified proof |
| Multiproofs.MultiproofsAreComplete | ergo-merkle-tree/src/merkletree.rs:255-275 | a proof exists exactly for non-empty lists of leaf positions, in any order and with repeats; it is accepted and every proof node is consumed |
| Multiproofs.MultiproofsAreSound | ergo-merkle-tree/src/batchmerkleproof.rs:35-114 | without collisions, an accepted proof with at most two entries under each parent carries only hashes of nodes of the tree |
| Multiproofs.DistinctIsPairsOnly | ergo-merkle-tree/src/batchmerkleproof.rs:104-109 | distinct indices are such entries |
| MultiproofSurplus.MoreGroups | ergo-merkle-tree/src/batchmerkleproof.rs:42-98 | three positions under one parent make more hashes than deduplicated parents |
| MultiproofSurplus.FedPass | ergo-merkle-tree/src/batchmerkleproof.rs:42-100 | for any positions a pass can be fed so that its first hashes are chosen parents and the others come from anything |
| MultiproofSurplus.SurplusIsUnchecked | ergo-merkle-tree/src/batchmerkleproof.rs:88-100 | on every full tree of depth 2 or more, for every hash function and all sorted leaf positions with three under one parent, an accepted proof with these indices carries any given hash |
| MultiproofSurplus.ShallowSurplusFails | ergo-merkle-tree/src/batchmerkleproof.rs:88-100 | where no other input has the hashes of the tree, no proof with three entries under one parent is accepted by a tree of one or two leaves |
| MultiproofSurplus.TrustedIff | ergo-merkle-tree/src/batchmerkleproof.rs:35-114 | on full trees whose hashes no other input has, accepted proofs for given sorted leaf positions carry only node hashes if and only if no parent has three of them or the tree has at most two leaves |
| MultiproofSurplus.SealedTree | ergo-merkle-tree/src/batchmerkleproof.rs:35-114 | the hypothesis can be met: a hash and a tree of four leaves such that no other input has the hash of a node |
| MultiproofPositions.EntriesAreAtTheirIndex | ergo-merkle-tree/src/batchmerkleproof.rs:35-114 | without collisions, an accepted proof with distinct indices whose sides agree with its positions has every entry at its index on one level |
| MultiproofPositions.EntriesAreLeaves | ergo-merkle-tree/src/batchmerkleproof.rs:35-114 | if one of them is the hash of leaf data, every entry is the leaf at its index |
| MultiproofPositions.BuiltProofsAreAligned | ergo-merkle-tree/src/merkletree.rs:255-275 | every proof the builder makes has distinct indices and sides that agree with its positions |
| MultiproofPositions.AlignedIffInPlace | ergo-merkle-tree/src/batchmerkleproof.rs:35-114 | without collisions and with pairwise different node hashes, an accepted proof with distinct indices has every entry at its index on one level if and only if its sides agree with its positions |
| MultiproofPositions.AnyIndexIsAccepted | ergo-merkle-tree/src/batchmerkleproof.rs:72-84 | on every tree, a leaf's own proof is accepted for every claimed index |
| MultiproofPositions.WrongIndexIsAccepted | ergo-merkle-tree/src/batchmerkleproof.rs:72-84 | so an accepted entry need not be the leaf at its index, for any two leaves with different hashes |
| Gf2_192.TimesCommutes | gf2_192/src/gf2_192.rs:82-151 | the bit-by-bit product commutes |
| Gf2_192.TimesAssociates | gf2_192/src/gf2_192.rs:82-151 | the bit-by-bit product associates |
| Gf2_192.TimesDistributes | gf2_192/src/gf2_192.rs:82-151 | it distributes over addition |
| Gf2_192.OneTimes | gf2_192/src/gf2_192.rs:82-151 | one is its unit |
| Gf2_192.TimesX | gf2_192/src/gf2_192.rs:28-31 | multiplying by x is shifting up and reducing by x^192 + x^7 + x^2 + x + 1 |
| Gf2_192Powers.XSatisfiesTheReduction | gf2_192/src/gf2_192.rs:28-31 | x^192 = x^7 + x^2 + x + 1 in the ring |
| Gf2_192Multiply.IrredMulsAt | gf2_192/src/gf2_192.rs:33-55 | the sixteen constants are the multiples of the reduction polynomial |
| Gf2_192Multiply.X4Raw | gf2_192/src/gf2_192.rs:135-140 | four shifts with reduction equal one four-bit shift with one table lookup |
| Gf2_192Multiply.FillTables | gf2_192/src/gf2_192.rs:86-127 | the three arrays hold all sixteen multiples of a |
| Gf2_192Multiply.TimesNibble | gf2_192/src/gf2_192.rs:134-148 | the product by a number is x^4 times the product by its upper part plus the multiple for its low four bits |
| Gf2_192Multiply.FeedWord | gf2_192/src/gf2_192.rs:134-148 | the inner loop feeds one 64-bit word of the multiplier |
| Gf2_192Multiply.Multiply | gf2_192/src/gf2_192.rs:82-151 | for all a and b the windowed algorithm equals the bit-by-bit reduced product |
| Gf2_192Multiply.MulByI8 | gf2_192/src/gf2_192.rs:154-170 | equals the product with the element whose low eight bits are the byte |
| MonoidPowers.Invert | gf2_192/src/gf2_192.rs:173-198 | in any commutative monoid where the raising function is right up to k = 6, the addition chain computes z^(2^192 - 2) |
| MonoidPowers.InvertsIff | gf2_192/src/gf2_192.rs:173-176 | that is an inverse exactly when z^(2^192 - 1) = 1 |
| MonoidPowers.ShortcutIsRight | gf2_192/src/gf2_192.rs:210-227 | where z^(2^192) = z, the shortcut for k >= 7 gives z^(2^(2^k)) for every k |
| Gf2_192Powers.PowerOfTwoAdds | gf2_192/src/gf2_192.rs:229-233 | raising to a power 2^j is additive |
| Gf2_192Powers.SumOfMonomials | gf2_192/src/gf2_192.rs:229-233 | every element is the sum of the monomials at its set bits |
| Gf2_192Powers.PowerByRow | gf2_192/src/gf2_192.rs:241-260 | the loop adds up the row entries at the set bits |
| Gf2_192Powers.RowIsRight | gf2_192/src/gf2_192.rs:229-260 | a table row that is right for the 192 monomials is right for every element |
| Gf2_192Powers.InvertElement | gf2_192/src/gf2_192.rs:173-198 | with right tables, inversion gives z^(2^192 - 2), an inverse exactly when z^(2^192 - 1) = 1 |
| Gf2_192Poly.Poly.constructor | gf2_192/src/gf2_192poly.rs:172-182 | the constant polynomial with room for the degree |
| Gf2_192Poly.Poly.Evaluate | gf2_192/src/gf2_192poly.rs:116-128 | Horner's loop gives the value of the polynomial at the point |
| Gf2_192Poly.Poly.AddMonicTimesConstant | gf2_192/src/gf2_192poly.rs:148-156 | the coefficients in place after adding r times a monic polynomial |
| Gf2_192Poly.Poly.MultiplyByLinearBinomial | gf2_192/src/gf2_192poly.rs:160-168 | the coefficients in place after multiplying by x + r |
| Gf2_192Poly.EvalAddScaled | gf2_192/src/gf2_192poly.rs:148-156 | those coefficients have the value p(x) + r q(x) at every x |
| Gf2_192Poly.EvalTimesBinomial | gf2_192/src/gf2_192poly.rs:160-168 | those coefficients have the value (x + r) p(x) at every x |
| Gf2_192Poly.VanishesExactlyAt | gf2_192/src/gf2_192poly.rs:85-100 | the vanishing polynomial is zero at the earlier points and at no other |
| Gf2_192Poly.NewtonVanishes | gf2_192/src/gf2_192poly.rs:85-100 | after i points the second polynomial is monic with exactly those roots |
| Gf2_192Poly.NewtonHits | gf2_192/src/gf2_192poly.rs:85-100 | after i points the first polynomial takes the first i values |
| Gf2_192Poly.Interpolate | gf2_192/src/gf2_192poly.rs:71-113 | fails exactly when the lengths differ; otherwise, with right tables, the object built with the code's own inversion holds the interpolation's coefficients, and in the field it takes every given value |
| Gf2_192Poly.InterpolationHits | gf2_192/src/gf2_192poly.rs:61-70 | for distinct non-zero points it takes values[i] at points[i] and value_at_zero at 0 |
| Gf2_192Poly.InterpolationIsUnique | gf2_192/src/gf2_192poly.rs:61-70 | no other polynomial of that many terms does |
| Gf2_192Poly.FermatInverts | gf2_192/src/gf2_192.rs:174-176 | where z^(2^192 - 1) = 1 for all z but zero, the power that inversion computes inverts all of them |
| ModularArithmetic.ExtendedEuclidean | ergotree-ir/src/unsignedbigint256.rs:103-119 | ends with the greatest common divisor and a Bezout coefficient within the modulus, every intermediate fitting 320 bits |
| ModularArithmetic.StepKeepsBounds | ergotree-ir/src/unsignedbigint256.rs:110-117 | the coefficients alternate in sign and, with every product, stay within the modulus |
| ModularArithmetic.ModInv | ergotree-ir/src/unsignedbigint256.rs:98-128 | an inverse below the modulus exactly when the modulus is non-zero and the gcd is 1, exactly when one exists |
| ModularArithmetic.InverseIsUnique | ergotree-ir/src/unsignedbigint256.rs:98-128 | there is only one inverse below the modulus |
| ModularArithmetic.AddIsResidue | ergotree-ir/src/unsignedbigint256.rs:71-79 | no result exactly for modulus zero; else r is the result if and only if it is below the modulus and differs from the sum by a multiple of it |
| ModularArithmetic.SubIsResidue | ergotree-ir/src/unsignedbigint256.rs:81-85 | the same for the difference, which may be negative |
| ModularArithmetic.MulIsResidue | ergotree-ir/src/unsignedbigint256.rs:87-94 | the same for the product |
| ModularArithmetic.SubUndoesAdd | ergotree-ir/src/unsignedbigint256.rs:72-85 | modular subtraction and addition undo each other |
| CompactBits.DecodeCompactBits | ergo-chain-types/src/autolykos_pow_scheme.rs:57-81 | the buffer filled in place decodes to the specified number, sign included |
| CompactBits.DecodeIs | ergo-chain-types/src/autolykos_pow_scheme.rs:57-81 | every compact form: bit 23 is the sign, and the 23 bits below it are shifted to the size in the top byte |
| CompactBits.EncodeCompactBits | ergo-chain-types/src/autolykos_pow_scheme.rs:84-118 | the returned value for every number: size and mantissa for non-negative ones, where the sign-shift branch is never taken; two mantissa bytes for negative ones, where it always is |
| CompactBits.EncodeIs | ergo-chain-types/src/autolykos_pow_scheme.rs:84-118 | the size of a non-negative number's form is the least number of bytes with room for a sign, and the mantissa is its three leading bytes |
| CompactBits.DecodeOfEncode | ergo-chain-types/src/autolykos_pow_scheme.rs:57-118 | below 2^2039 decoding the encoding keeps the leading three signed bytes and clears the rest |
| CompactBits.Keep3Bounds | ergo-chain-types/src/autolykos_pow_scheme.rs:57-118 | that is never above the number, exact up to three bytes, and off by less than one unit of the last byte kept |
| CompactBits.ReencodeIsStable | ergo-chain-types/src/autolykos_pow_scheme.rs:84-118 | encoding it again gives the same compact form |
| CompactBits.EncodeMonotone | ergo-chain-types/src/autolykos_pow_scheme.rs:84-118 | a larger number never has a smaller compact form |
| CompactBits.RoundTripIff | ergo-chain-types/src/autolykos_pow_scheme.rs:57-118 | cut to 32 bits, the round trip keeps the leading bytes of a non-negative number if and only if it is below 2^2039 |
| CompactBits.ScaleIsLost | ergo-chain-types/src/autolykos_pow_scheme.rs:84-118 | a negative number of three bytes or more and 256 times it have the same compact form |
| CompactBits.NegativeRoundTripIff | ergo-chain-types/src/autolykos_pow_scheme.rs:57-118 | exactly one negative number survives the round trip |

## Left out

- MerkleTree.NewTree: lists that hold anything but leaves; the constructor is documented for leaf nodes, and the other node kinds are hidden from its documentation (ergo-merkle-tree/src/merkletree.rs:10-22 and 160).
- MerkleTree.IndexHashes: the same.
- MultiproofSurplus.TrustedIff: trees that are not full; there a pair of entries can only stand for a parent with two children, so the condition also depends on which parents have one. `Multiproofs.MultiproofsAreSound` covers them.
- Floating-point levels, proof-of-work hits, Blake2b and elliptic-curve arithmetic: the level and the hash are uninterpreted.
- Release builds, in which integer overflow wraps instead of aborting.
- The literal entries of the power tables, and the irreducibility of the reduction polynomial: stated hypotheses.
- The hash of the empty extension (`root_hash_special`), the lookups of single proofs by element and the verifier's accessors: thin wrappers.
- Byte conversions of field elements and polynomials (`to_bytes`, `try_from`).
- `from_signed_mod` and the plain checked operations of 256-bit integers: one library call each.
- Serialization and JSON forms of proofs, headers and trees; ErgoTree, the interpreter, the wallet, peers, bindings and the compiler.
