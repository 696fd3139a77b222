# zPOOL: a model and its proofs

zPOOL is a shielded pool for Solana tokens. Coins in a vault become notes, commitments in an append-only Merkle tree;
spending a note reveals its nullifier and a zero-knowledge proof. This project models the on-chain program, the
circuit's relation, the three Merkle trees (program, client, circuit), the relayer's indexer and rate limiter, and the
fee arithmetic that client, relayer and program share. `dafny verify dfyconfig.toml` checks all of it.

## What is proved

- **Solvency of every run.** Whatever transactions, configuration changes, new pools, donations and outside transfers
  happen in whatever order, each vault holds its reserve (the rent minimum for SOL), the amounts of all unspent notes,
  and what it was given for nothing. The same runs contain no double spend, and nullifiers and leaves stay equal in
  number.
- **Acceptance is exact.** A transaction is accepted if and only if it meets a list of conditions on accounts, words and
  amounts, and then changes exactly what it should: nobody pays but the vault and the signer, one proof serves one set of
  terms, and only the administrator changes configuration and limits.
- **Honest spends land.** The transaction the client builds from owned, unspent notes passes every check of the program,
  even if the tree has grown since root and paths were served, as long as the root is still in the window. The fee is the
  one the client charges itself, and the proof verifies because its statement is shown to hold.
- **One tree.** The program's frontier, the client's partly rebuilt layers and the circuit's path fold all refine one
  recursive definition, for any height and any window; `NewDeployedTree` is the instance 26 / 250.
- **The indexer mirrors the chain**, for every interleaving of polls, single lookups, deaths after any write and restarts.
- **The arithmetic**: gross and net token amounts, deposit sizing, the most that can be withdrawn, nested fee thresholds,
  public amounts, byte layouts, note selection and merging, and the token buckets.

Where a routine does not do what it promises for every input, the model says for which inputs it does:

- `spendable('withdraw')` returns the largest amount exactly if the fee on everything is less than everything, or nothing
  fits (`NothingAboveFits`). Whether the answer itself fits is decided by what six rounds leave of a gap, against the
  thousand steps and the percentage on them, whatever the quoted floor. If the first candidate is above the floor, the
  gap is the fee on everything (`CountdownReaches`, `CountdownTooShort`); if only the third is, it is what the fee on
  everything but the floor exceeds the floor by (`CountdownReachesFromFloor`, `CountdownTooShortFromFloor`); if neither
  is, the outcome is known exactly (`FloorCycle`); and if the fee on everything is everything, the answer is nothing
  (`NothingLeft`). Undecided is only a band of rounding, fourteen units wide in the first case and ten in the second.
- `grossForCredited` finds its answer exactly if one of eight guesses suffices. The guesses grow by a plain factor while
  they credit at most one unit (`StaysPlain`). A plain guess that would credit a unit early enough makes sure of the
  target (`SizedWhenLargeEnough`); if the sixth would not, the seventh decides (`LastGuessDecides`), and if the fifth
  would not, the sixth and the one after it do (`LastTwoGuessesDecide`). Two consequences are exact: fees that together
  leave more than 0.39% size every target (`ShareThreshold`), and every target from sixteen up is sized at all rates below
  full (`TargetThreshold`).
- `consolidate` reads the send fee once to size the merge and `send` reads it again. The inner selection succeeds exactly
  if the fee has not risen in between (`MergeSelectsTwo`); `RisenFeeNests` is an input where it recurses.

## How the model is built

`Ledger` states what each instruction does on values, check by check, with the program's own errors. `Program` has the
handlers as classes that update accounts in place and proves them equal to `Ledger`. `VaultFlow`, `Books` and `Runs`
prove what follows, `Acceptance`, `Administration` and `RunRules` say what the instructions amount to without naming
their checks; `Completeness` builds the client's transaction and proves it accepted. A 32-byte array is modelled
as the number it encodes (`Word`), which `Encoding` justifies.

Hypotheses, all of them stated in the contracts that use them:

- Poseidon is an arbitrary function with canonical outputs. `Faithful(hash, asked)` says that among the evaluations one
  run makes, `asked`, no two collide and none is zero. It is never asked of all inputs, where a compressing hash must
  fail it. `MerkleSpec.FoldSound` and `Membership.HistoricMembership` need no hypothesis: they return the collision.
- Proof soundness: an accepted transaction of a run comes with a witness satisfying the circuit's relation. Proof
  completeness (`ProofComplete`): if the built witness satisfies the relation, the pairing check passes.
- Nobody but the program takes from a vault. The rest of the chain may change every other balance, raise the vault's,
  and change a mint's transfer fee, between any two instructions.
- The SOL runtime refuses an instruction that changes the sum of the lamports it touches. Without that rule a payout
  addressed to the vault itself would create lamports.

Inputs on which the code falls short: `HighRateOverestimates`, `FirstRoundGivesUp`, `SmallTargetNotSized`,
`RisenFeeNests`, `MarginIsExact`, `IndexMissed`, `DepositPreview` at the full fee rate, and `SelectionComplete` (an empty
wallet cannot cover a need of zero).

## Model

| member | source | states |
|---|---|---|
| MerkleSpec.EmptyNode | program/programs/shieldpool/src/merkle_tree.rs:13-16 | a node with no leaf below it is the zero subtree of its level |
| MerkleSpec.SmallestTrees | circuits/src/merkleProof.circom:16-32 | the smallest trees and folds, spelled out |
| MerkleSpec.CompleteNode | sdk/src/merkle.ts:23-28 | a node whose leaves are all among the first n depends on those only, which is why a partial rebuild may stop there |
| MerkleSpec.AncestorIsQuotient | sdk/src/merkle.ts:23-23 | the ancestor of leaf i at a level is i divided by 2^level, rounded down |
| MerkleSpec.FoldPath | circuits/src/merkleProof.circom:16-32 | the sibling path of any leaf position folds, in the circuit's bit order, from the leaf to the root |
| MerkleSpec.FoldSound | circuits/src/merkleProof.circom:9-33 | a path that folds to a node of the tree starts at the tree's own leaf, or the lemma returns the two colliding hash inputs |
| FrontierTree.RingExact | program/programs/shieldpool/src/merkle_tree.rs:79-105 | a non-zero word is in the ring exactly when it is one of the last k roots, through every wraparound |
| FrontierTree.RingPush | program/programs/shieldpool/src/merkle_tree.rs:70-74 | writing the next slot keeps the ring exact |
| FrontierTree.ClimbStep | program/programs/shieldpool/src/merkle_tree.rs:47-63 | each turn of the append loop hashes the right pair, whichever way the index bit points |
| FrontierTree.FrontierPush | program/programs/shieldpool/src/merkle_tree.rs:51-60 | after an append every set bit of the leaf count has its finished left subtree stored |
| FrontierTree.TreeAccount.constructor | program/programs/shieldpool/src/merkle_tree.rs:9-24 | a new account is the empty tree, its subtrees and first root the zero ones, with the zero root as its only known root |
| FrontierTree.TreeAccount.Climb | program/programs/shieldpool/src/merkle_tree.rs:41-63 | the O(height) loop computes the root of the padded tree and the sibling path of the new leaf |
| FrontierTree.TreeAccount.Append | program/programs/shieldpool/src/merkle_tree.rs:26-77 | appends exactly the leaf or fails exactly when the tree holds 2^height leaves; the returned path folds to the new root |
| FrontierTree.TreeAccount.IsKnownRoot | program/programs/shieldpool/src/merkle_tree.rs:79-105 | the scan answers exactly whether the root is non-zero and among the last k |
| FrontierTree.NewDeployedTree | program/programs/shieldpool/src/lib.rs:30-31 | the deployed parameters, height 26 and 250 roots, are an instance |
| ClientTree.MerkleTree.constructor | sdk/src/merkle.ts:11-17 | the constructed layers are those of the padded tree |
| ClientTree.MerkleTree.Rebuild | sdk/src/merkle.ts:19-32 | rebuilding from the first new leaf gives the same layers as a full rebuild |
| ClientTree.MerkleTree.RebuildLayer | sdk/src/merkle.ts:21-30 | one layer, recomputed only right of the first new leaf's ancestor, is exact |
| ClientTree.MerkleTree.Root | sdk/src/merkle.ts:38-40 | the root is the padded tree's, also when there are no leaves |
| ClientTree.MerkleTree.Insert | sdk/src/merkle.ts:42-47 | one leaf more, its index returned, layers exact |
| ClientTree.MerkleTree.BulkInsert | sdk/src/merkle.ts:49-54 | any batch more, layers exact |
| ClientTree.MerkleTree.Path | sdk/src/merkle.ts:57-67 | the served path is the padded tree's sibling path; refused exactly for an index not in the tree |
| TreesAgree.ServeSpend | relayer/src/main.ts:753-763 | a path and root served at n leaves fold together, and the program knows the root while fewer than k leaves were appended since |
| TreesAgree.IndexedRootRecent | relayer/src/main.ts:753-763 | with the indexer: the root over the relayer's tree is among the chain's last k, and its paths fold from the chain's own leaves, while fewer than k leaves landed since |
| TreesAgree.ServeIndexed | relayer/src/main.ts:753-758 | the route itself, from stored rows to a root the account still knows |
| Membership.HistoricMembership | circuits/src/transaction.circom:75-86 | what folds to any root still in the window is the leaf at that index of the current tree, or is zero, or a collision is returned |
| Membership.MembershipSound | circuits/src/transaction.circom:82-86 | the same for a commitment in a run without collisions |
| JoinSplit.NullifierUnique | circuits/src/transaction.circom:64-73 | two spends have one nullifier exactly when they spend the same note at the same index |
| ClientNotes.CommitmentsAgree | sdk/src/utxo.ts:37-39 | the client's commitment is the one the circuit demands of an output |
| ClientNotes.NullifiersAgree | sdk/src/utxo.ts:41-47 | the client's nullifier is the one the circuit demands of an input |
| PublicAmount.CheckMeans | program/programs/shieldpool/src/utils.rs:92-131 | the check passes exactly when the word is ext_amount - fee in the field, ext_amount is not the minimum, and a deposit exceeds its fee |
| PublicAmount.ClientAndProgramAgree | sdk/src/prover.ts:107-110 | the client's field element is the canonical one and the program accepts it exactly when a deposit exceeds its fee |
| PublicAmount.TruncatedSign | sdk/src/prover.ts:108-109 | JavaScript's remainder has the dividend's sign and a smaller size than the divisor |
| PublicAmount.TruncatedTwice | sdk/src/prover.ts:108-109 | JavaScript's signed remainder, shifted and taken again, is the non-negative remainder |
| PublicAmount.IntegerConservation | circuits/src/transaction.circom:108-129 | with amounts below 2^248, conservation modulo the field order is conservation of integers, both ways |
| PublicAmount.CheckFeeExact | program/programs/shieldpool/src/utils.rs:158-184 | no u128 step overflows and no u64 cast loses anything |
| PublicAmount.PercentExactly | program/programs/shieldpool/src/utils.rs:160-164 | a percentage fee is the rate's share, rounded down |
| PublicAmount.ValidateFeeExact | program/programs/shieldpool/src/utils.rs:151-215 | accepted exactly when the fee reaches the rate less the margin |
| Encoding.BigToBytes32BE | sdk/src/crypto.ts:20-29 | the loop writes the big-endian bytes |
| Encoding.BytesToBigBE | sdk/src/crypto.ts:31-35 | the loop reads the big-endian number |
| Encoding.FromToBE | sdk/src/crypto.ts:20-35 | reading back what was written gives the number |
| Encoding.ToFromBE | sdk/src/crypto.ts:20-35 | writing back what was read gives the bytes |
| Encoding.FirstByteWeighsMost | sdk/src/crypto.ts:20-35 | in a big-endian word the first byte has the highest weight |
| Encoding.LastByteWeighsMost | sdk/src/prover.ts:112-117 | in a digest read as a field element the last byte has the highest weight |
| Encoding.FieldHashToDecimal | sdk/src/prover.ts:112-117 | the digest read little-endian and reduced, as the program reduces it |
| Encoding.CanonicalBytes | program/programs/shieldpool/src/groth16.rs:92-95 | among canonical inputs, different bytes are different field elements |
| Encoding.SecondEncoding | program/programs/shieldpool/src/groth16.rs:149-152 | without the canonical check every 32-byte encoding has a second one |
| Encoding.ParseSerialize | program/programs/shieldpool/src/utils.rs:279-314 | the program's Borsh layout of the external data parses back to it, nothing left over |
| Encoding.LayoutsAgree | sdk/src/extdata.ts:16-38 | the client's schema, field by field, gives the same bytes |
| Encoding.SerializeInjective | program/programs/shieldpool/src/utils.rs:279-314 | two external data share their bytes exactly when they are equal |
| Ledger.ExtDataBound | program/programs/shieldpool/src/lib.rs:147-159 | one digest is accepted with one recipient, amount, fee, fee account, mint and pair of ciphertexts only |
| VaultFlow.PaymentBalance | program/programs/shieldpool/src/lib.rs:215-218 | the two-write payout conserves lamports unless the payee is the vault |
| VaultFlow.SolFlow | program/programs/shieldpool/src/lib.rs:187-229 | an accepted SOL transaction changes the vault by exactly ext_amount - fee, pays no alias of it, and leaves the rent minimum |
| VaultFlow.TokenFlow | program/programs/shieldpool/src/lib.rs:299-356 | an accepted token transaction changes the vault by ext_amount - fee plus what it paid to itself |
| VaultFlow.SolChanges | program/programs/shieldpool/src/lib.rs:187-229 | the exact change of every account's lamports, whichever accounts coincide |
| VaultFlow.TokenChanges | program/programs/shieldpool/src/lib.rs:299-356 | the exact change of every token account, mint fees included |
| VaultFlow.DepositReceived | program/programs/shieldpool/src/lib.rs:303-320 | for a mint that only charges its fee the receipt check cannot fail |
| VaultFlow.FundsFlow | program/programs/shieldpool/src/lib.rs:183-356 | for both kinds of pool: vault kept, reserve kept, exact change |
| VaultFlow.TransactAccepts | program/programs/shieldpool/src/lib.rs:134-358 | everything an accepted transaction passed and everything it changed |
| VaultFlow.AcceptedTerms | program/programs/shieldpool/src/lib.rs:160-190 | an accepted transaction's proof verified, its fee reached the minimum and goes to the configured recipient, its deposit stayed below the limit |
| Acceptance.AcceptedExactly | program/programs/shieldpool/src/lib.rs:134-358 | the program accepts a transaction exactly if its nullifiers are new, its accounts are the right ones and the source is the signer's, its root is in the window, its proof commits to its data and amount, its fee suffices and is well addressed, the proof passes, the funds suffice and there is room |
| Acceptance.AcceptedEffects | program/programs/shieldpool/src/lib.rs:187-236 | an accepted transaction adds two leaves and two nullifiers, changes each balance by its exact change, and nothing else |
| Acceptance.OnlySignerPays | program/programs/shieldpool/src/lib.rs:253-254 | an account whose balance falls is the vault, or, in a deposit, the signer's: itself for SOL, a token account it owns otherwise |
| Acceptance.TermsBound | program/programs/shieldpool/src/lib.rs:483-496 | two accepted transactions with one digest agree in recipient, amount, fee, fee account, mint and both ciphertexts |
| Acceptance.RefusedBecause | program/programs/shieldpool/src/lib.rs:141-181 | the checks come in the program's order, each with its own error, and a refused transaction changes nothing |
| Acceptance.FundsRefusedBecause | program/programs/shieldpool/src/lib.rs:199-229 | each shortage of funds has its own error: payer, vault on a withdrawal, vault on a fee alone |
| Acceptance.TokenDepositRefusedBecause | program/programs/shieldpool/src/lib.rs:299-320 | a token deposit below the limit is refused for a gross-up that does not fit, a source that cannot pay, a source that is the vault, or a vault that cannot hold it, in this order, and for nothing else |
| Acceptance.FullTreeRefuses | program/programs/shieldpool/src/lib.rs:231-234 | a full tree is noticed last and undoes everything |
| Acceptance.SolBalanced | program/programs/shieldpool/src/lib.rs:209-229 | once the single movements go through, the sum of lamports stops exactly what is paid to the vault itself |
| Acceptance.SolExactly | program/programs/shieldpool/src/lib.rs:187-229 | lamports move exactly if payer and vault can pay, payees can be credited and are not the vault, and the rent stays |
| Acceptance.TokenExactly | program/programs/shieldpool/src/lib.rs:299-356 | tokens move exactly if source and vault can pay and the payees can be credited |
| Books.UnspentSpend | circuits/src/transaction.circom:92-92 | spending a note lowers the unspent total by its amount |
| Books.InputBacked | circuits/src/transaction.circom:54-86 | a non-zero input with a fresh nullifier is an existing, unspent leaf of this pool with the amount it claims |
| Books.OwnerSpends | circuits/src/transaction.circom:54-73 | a note is spent only with the key behind its public key, and what is created has its mint field |
| Books.InputBounded | circuits/src/transaction.circom:88-90 | input amounts are below 2^248 although the circuit never checks them |
| Books.AmountsConserved | circuits/src/transaction.circom:128-129 | inputs plus ext_amount less fee are the outputs, as integers |
| Books.InputsDistinct | circuits/src/transaction.circom:115-126 | the two inputs never spend one leaf twice |
| Books.UnspentMoves | circuits/src/transaction.circom:128-129 | the unspent total changes by exactly ext_amount - fee |
| Books.VaultStaysBacked | program/programs/shieldpool/src/lib.rs:187-229 | vault and books stay equal over one accepted transaction |
| Books.AcceptedKeeps | program/programs/shieldpool/src/lib.rs:299-358 | the whole invariant of a pool survives an accepted transaction |
| Runs.StepInv | program/programs/shieldpool/src/lib.rs:36-360 | every instruction by anyone, and every outside change, keeps the invariant of all pools |
| Runs.RunInv | program/programs/shieldpool/src/lib.rs:36-360 | the invariant holds in every state of every run |
| Runs.Solvency | program/programs/shieldpool/src/lib.rs:187-234 | in every state each vault is its reserve, the unspent notes and the gifts, and every leaf is the commitment of its note |
| Runs.SubmitNullifiers | program/programs/shieldpool/src/lib.rs:508-517 | each accepted transaction adds two fresh nullifiers, one per prefix |
| Runs.NullifiersMatchLeaves | program/programs/shieldpool/src/lib.rs:542-549 | the two prefix sets stay disjoint and together count as many nullifiers as there are leaves in all pools |
| Runs.AcceptedAdds | program/programs/shieldpool/src/lib.rs:508-517 | what a transaction consumes and reveals was new before it and is recorded after it |
| Runs.NoDoubleSpend | program/programs/shieldpool/src/lib.rs:508-517 | two accepted transactions of a run share no nullifier, and in one pool consume no leaf twice |
| Runs.RunGrows | program/programs/shieldpool/src/merkle_tree.rs:65-68 | over a run leaves are only appended, nullifiers and spent leaves only added |
| Completeness.InputBuilt | sdk/src/pool.ts:204-210 | the client's padded inputs satisfy the circuit's constraints on an input; a dummy is at index 0 with a path of zeros |
| Completeness.WitnessBuilt | sdk/src/pool.ts:226-241 | the client's public inputs and witness satisfy the whole relation |
| Completeness.ServedRootKnown | program/programs/shieldpool/src/lib.rs:145-145 | a root served fewer than k leaves ago is still known |
| Completeness.ClientFeePasses | program/programs/shieldpool/src/lib.rs:167-173 | the fee the client charges itself is one the program takes, whichever way the amount goes |
| Completeness.ProofDataBuilt | program/programs/shieldpool/src/lib.rs:147-181 | hash, public amount, fee and canonical-input checks pass for the client's proof, with the client's own fee |
| Completeness.UnusedIsUnspent | sdk/src/pool.ts:166-173 | a note whose nullifier is unused is unspent in the pool's books |
| Completeness.VaultCovers | program/programs/shieldpool/src/lib.rs:209-224 | payability: the vault always holds what an honest spend takes out, beyond its reserve |
| Completeness.SolPays | program/programs/shieldpool/src/lib.rs:199-229 | neither InsufficientFunds check nor the sum rule stops an honest SOL payout |
| Completeness.SolDeposits | program/programs/shieldpool/src/lib.rs:187-198 | a funded SOL deposit and its fee go through |
| Completeness.TokenDeposits | program/programs/shieldpool/src/lib.rs:299-320 | a funded token deposit goes through, receipt check included |
| Completeness.HonestOrderAccepted | program/programs/shieldpool/src/lib.rs:134-358 | deposits, withdrawals and private payments built by the client are accepted in every state that satisfies the invariant |
| Completeness.HonestOrderLands | sdk/src/pool.ts:190-244 | over a run: built from an earlier state, accepted in a later one while the root is in the window |
| Completeness.HonestOrderEffects | sdk/src/pool.ts:190-244 | once accepted, the client's transaction appends exactly its two outputs in order, uses up its two notes' nullifiers and moves funds on the terms it asked for |
| Program.SecondAppendFits | program/programs/shieldpool/src/lib.rs:231-234 | the second append cannot fail once the first succeeded |
| Administration.ConfigurationExactly | program/programs/shieldpool/src/lib.rs:67-91 | the configuration changes exactly at the administrator's word and to proper rates, what is not given stays, and the administrator never changes |
| Administration.OpeningExactly | program/programs/shieldpool/src/lib.rs:40-63 | opening takes a proper rate and leaves an empty, unlimited SOL pool and a configuration that is the caller's |
| Administration.CreationExactly | program/programs/shieldpool/src/lib.rs:101-130 | anyone opens the pool of a mint once, unless it is a non-transferable Token-2022 mint; the pool is empty, unlimited and the administrator's |
| Administration.LimitExactly | program/programs/shieldpool/src/lib.rs:94-98 | a limit changes exactly at the pool administrator's word, and nothing with it |
| RunRules.OneAdministrator | program/programs/shieldpool/src/lib.rs:596-610 | in every state of every run the program and all its pools have the administrator they started with |
| RunRules.OnlyAdministratorChanges | program/programs/shieldpool/src/lib.rs:596-610 | over a run, configuration and limits change only in that administrator's steps, and vaults never |
| RunRules.StepTakesEffect | program/programs/shieldpool/src/lib.rs:36-360 | each step of a run changes what its instruction says, or nothing if it is refused |
| RunRules.GiftsExactly | program/programs/shieldpool/src/lib.rs:187-229 | a vault's gifts grow exactly by what the outside adds and by what a transaction pays to the vault itself |
| Program.Shared.constructor | program/programs/shieldpool/src/lib.rs:56-63 | the initial configuration |
| Program.Shared.UpdateGlobalConfig | program/programs/shieldpool/src/lib.rs:67-91 | all options are applied, or none and the first error |
| Program.PoolAccounts.constructor | program/programs/shieldpool/src/lib.rs:114-122 | a new pool has no leaves and no deposit limit |
| Program.PoolAccounts.UpdateDepositLimit | program/programs/shieldpool/src/lib.rs:94-98 | only the administrator, and only the limit |
| Program.PoolAccounts.MoveLamports | program/programs/shieldpool/src/lib.rs:187-229 | the step-by-step lamport movements are those of the ledger, error by error |
| Program.PoolAccounts.MoveTokenAccounts | program/programs/shieldpool/src/lib.rs:299-356 | the same for token accounts |
| Program.PoolAccounts.AppendBoth | program/programs/shieldpool/src/lib.rs:231-234 | both outputs are appended, in order, or neither |
| Program.PoolAccounts.Check | program/programs/shieldpool/src/lib.rs:141-181 | the checks before any change fail with the ledger's error or establish all of its conditions |
| Program.PoolAccounts.Transact | program/programs/shieldpool/src/lib.rs:134-358 | the handler's result, error and new state are the ledger's; on failure nothing changes |
| Indexer.Relayer.Tree | relayer/src/main.ts:109-116 | a tree built on demand is the stored rows of its mint |
| Indexer.Relayer.InsertLeaf | relayer/src/db.ts:56-59 | the next row extends the stored sequence |
| Indexer.Relayer.ApplyEvent | relayer/src/main.ts:437-442 | held leaves are skipped, early ones refused, the next one stored and inserted, and the process dies exactly when its budget is used up; a death leaves the tables right |
| Indexer.Relayer.ApplyBatch | relayer/src/main.ts:434-443 | one mint's batch succeeds exactly when it has no gap, and is a no-op if everything is held; at a gap everything below it is stored |
| Indexer.Relayer.ApplyLeaves | relayer/src/main.ts:431-445 | a batch over many mints succeeds exactly when it has no gap, within a budget of its events; otherwise it stops at the first mint with a gap, earlier mints stored and later ones untouched; each row written costs one, and only announced rows are written; re-applying it in any order is a no-op |
| Indexer.MintsInOrder | relayer/src/main.ts:432-434 | mints are taken in the order in which they first appear |
| Indexer.Relayer.MarkSeen | relayer/src/db.ts:69-71 | marking a transaction keeps the tables right exactly when its leaves are stored |
| Indexer.Relayer.IndexSignature | relayer/src/main.ts:447-451 | an unseen transaction is stored and marked seen exactly if it leaves no gap, given a budget above its events; a seen one changes nothing |
| Indexer.Relayer.IndexMissed | relayer/src/main.ts:402-403 | if the node returns no transaction, the tables stay right exactly when its leaves were stored already |
| Indexer.Relayer.FetchPages | relayer/src/main.ts:455-464 | paging backwards collects everything newer than the cursor, newest first, for any page size |
| Indexer.Relayer.PollFetch | relayer/src/main.ts:453-467 | what is fetched starts right after the cursor, or at the beginning if it is not listed, and what is applied of it is what is unseen, in order |
| Indexer.Relayer.PollCommit | relayer/src/main.ts:468-472 | given a budget above its writes, everything pending is stored and seen and the cursor moved exactly if there is no gap, else seen and cursor stay; nothing up to the new cursor is unseen |
| Indexer.Relayer.Poll | relayer/src/main.ts:453-473 | a poll applies what is listed and not seen, fails exactly at a gap, and with a complete list and enough budget leaves rows equal to the chain's leaves |
| Indexer.Relayer.CaughtUp | relayer/src/main.ts:453-473 | once everything listed is seen and every leaf is listed, rows equal the chain's leaves |
| Indexer.Relayer.Restart | relayer/src/main.ts:100-100 | forgetting all trees loses nothing |
| Indexer.Relayer.ChainGrows | relayer/src/db.ts:47-71 | a growing chain disturbs none of it |
| Indexer.Turn | relayer/src/main.ts:475-485 | each event has its effect on a living process: a served tree is in memory, an indexed transaction without a gap is seen, a poll read and then written has seen all it read |
| Indexer.Follow | relayer/src/main.ts:475-485 | every interleaving of growth, serving, single indexing, fetching, committing, deaths and restarts keeps tables a gapless prefix of the chain and trees equal to the tables |
| TokenFee.GrossNetConnection | sdk/src/pool.ts:344-348 | preFee(n) <= a exactly when n <= a - fee(a), for every rate and cap |
| TokenFee.FeeOnExactly | sdk/src/pool.ts:314-314 | the mint takes the least fee that is at the cap or covers the rate |
| TokenFee.PreFeeExact | program/programs/shieldpool/src/lib.rs:303-320 | sending the gross-up delivers exactly the net |
| TokenFee.NetSteps | sdk/src/pool.ts:336-337 | one more unit sent is at most one more received, and never less |
| TokenFee.DepositPreview | sdk/src/pool.ts:335-353 | the parts add up to the amount, the gross-up never exceeds it, and the preview fails exactly at the full rate with something to arrive |
| TokenFee.CreditedMonotone | sdk/src/pool.ts:326-353 | a larger deposit never credits less |
| DepositSizing.GrossForCredited | sdk/src/pool.ts:672-684 | an answer is the least wallet amount that credits the target; below the full mint rate there is one exactly if one of the eight guesses suffices, at the full rate only for a target of nothing |
| DepositSizing.Bisect | sdk/src/pool.ts:676-680 | the bisection ends at the least sufficient amount |
| SizingReach.GuessClimbs | sdk/src/pool.ts:681-681 | leaving rounding aside, a guess that credits too little is followed by one that credits more in proportion to the target, past the cap as well |
| SizingReach.StaysPlain | sdk/src/pool.ts:681-681 | while at most one unit would be credited, each guess is the last one times the target plus one, plus one, and credits at most one unit |
| SizingReach.SizedWhenLargeEnough | sdk/src/pool.ts:673-682 | at rates below full and any cap, a target is sized if the fourth plain guess would credit a whole unit; or the fifth, where two more guesses land; or the sixth, where the protocol fee is light |
| SizingReach.LastGuessDecides | sdk/src/pool.ts:673-683 | if the sixth plain guess would credit at most one unit, the target is sized exactly if the seventh credits it; any rates, any cap |
| SizingReach.LastTwoGuessesDecide | sdk/src/pool.ts:673-683 | if the fifth would, exactly if the sixth or the guess that follows from it does |
| SizingReach.GivesUpBelow | sdk/src/pool.ts:683-683 | a target is not sized if the eighth guess, cap included, would credit at most one unit less than it before rounding |
| SizingReach.TargetOneExactly | sdk/src/pool.ts:673-682 | a target of one is sized exactly if 255 units leave anything after the mint's fee |
| SizingReach.ShareThreshold | sdk/src/pool.ts:673-683 | every target is sized at all rates that together leave a given share of an amount exactly if that share is above 0.39% |
| SizingReach.LightFeesSize | sdk/src/pool.ts:673-682 | fees that together leave more than 0.39% size every target, whatever the cap; both rates up to one half are far inside |
| SizingReach.TargetsFromSixteenSize | sdk/src/pool.ts:673-682 | every target from sixteen up is sized at all rates below full, whatever the cap |
| SizingReach.TargetThreshold | sdk/src/pool.ts:673-683 | sixteen is the least bound with that property |
| SizingReach.FullProtocolFee | sdk/src/pool.ts:683-683 | at the full protocol rate only a target of nothing is sized |
| SizingReach.SmallTargetNotSized | sdk/src/pool.ts:683-683 | fifteen, at the highest rates below full: sizing gives up although an amount exists |
| Fees.SendFeePasses | relayer/src/main.ts:499-502 | a quoted send fee passes exactly while the quote has risen by no more than a quarter, rounded up |
| Fees.WithdrawFeeExactly | sdk/src/pool.ts:354-363 | the client charges the least fee that covers both percentage with surcharge and floor |
| Fees.WithdrawalTakenExactly | relayer/src/main.ts:503-508 | the relayer takes a withdrawal exactly if its fee covers 95% of the percentage with surcharge and 80% of the floor, each rounded down |
| Fees.RelayerCoversProgram | relayer/src/main.ts:503-508 | the relayer's minimum is at least the program's for margins from 500 on |
| Fees.WithdrawThresholdsNest | sdk/src/pool.ts:354-363 | client fee >= relayer minimum >= program minimum, even if the floor rose by a quarter |
| Fees.MarginIsExact | relayer/src/main.ts:505-506 | below a margin of 500 some amount passes the relayer and fails the program |
| Fees.DepositFeePasses | sdk/src/pool.ts:326-329 | the client's deposit fee at the rate it read passes the program if the margin forgives what the rate has risen by |
| Fees.DepositFeesPassExactly | program/programs/shieldpool/src/utils.rs:158-182 | every deposit passes exactly if the new rate, less the margin, is at most the rate read |
| Fees.WithdrawFeePasses | sdk/src/pool.ts:354-363 | the same for its withdrawal fee, surcharge and floor included |
| Fees.WithdrawFeesPassExactly | program/programs/shieldpool/src/utils.rs:183-211 | every withdrawal at every surcharge and floor passes exactly on the same condition |
| Spendable.SpendableWithdraw | sdk/src/pool.ts:261-281 | the answer fits exactly when the countdown is long enough for where the rounds ended, and is then the first candidate that fits; if not, it is what is left after a thousand steps; nothing above it fits exactly if the fee on everything leaves something or nothing fits; the fee returned is the last one looked up |
| Spendable.SixRounds | sdk/src/pool.ts:269-272 | the first loop ends at the sixth candidate, or at the first that leaves nothing |
| Spendable.CountDown | sdk/src/pool.ts:273-277 | the second loop stops at the first candidate that fits, at nothing, or after a thousand steps |
| Spendable.SpendableSend | sdk/src/pool.ts:265-266 | for a send: everything but the flat fee, or nothing |
| Spendable.GapAtMost | sdk/src/pool.ts:269-272 | between any two rounds the gap between candidates shrinks at least by the rate to the power of their distance, up to one unit a round |
| Spendable.GapAtLeast | sdk/src/pool.ts:269-272 | and, from an even round whose successor is above the floor, at most by that |
| Spendable.GapDecides | sdk/src/pool.ts:273-277 | after six rounds a gap up to the steps and the percentage on them is counted down, and one that exceeds them by two is not, whatever the floor |
| Spendable.CountdownReaches | sdk/src/pool.ts:269-277 | at any rate and floor, the answer fits if the fee on everything times the rate to the sixth power is at most the steps and the percentage on them, less six |
| Spendable.CountdownAtFifty | sdk/src/pool.ts:269-277 | up to 50 basis points and 2^55 units it always is |
| Spendable.CountdownTooShort | sdk/src/pool.ts:269-277 | it does not if that product is eight more or above, and the first candidate is above the floor |
| Spendable.CountdownReachesFromFloor | sdk/src/pool.ts:269-277 | if the first candidate is on the floor: the same with the fourth power of the rate and the excess over the floor |
| Spendable.CountdownTooShortFromFloor | sdk/src/pool.ts:269-277 | and its other side, if the third candidate is above the floor |
| Spendable.FloorCycle | sdk/src/pool.ts:269-277 | if the third is on the floor too, the rounds go to and fro and the outcome is known exactly |
| Spendable.NothingLeft | sdk/src/pool.ts:269-279 | if the fee on everything is at least everything, the rounds end at nothing, which fits |
| Spendable.RoundsLeaveSomething | sdk/src/pool.ts:269-272 | every round leaves something exactly if the fee on everything is less than everything |
| Spendable.NothingAboveFits | sdk/src/pool.ts:256-260 | nothing above the answer fits exactly if the fee on everything is less than everything, or not even one unit fits |
| Spendable.HighRateOverestimates | sdk/src/pool.ts:273-277 | at half the amount as fee the answer does not fit |
| Spendable.FirstRoundGivesUp | sdk/src/pool.ts:269-272 | an instance of the other side: the fee on everything is everything, the answer is nothing, and one unit fits |
| NoteSelection.SelectionComplete | sdk/src/pool.ts:247-254 | selection succeeds exactly when one note or some pair covers the need |
| NoteSelection.SelectionCovers | sdk/src/pool.ts:251-252 | what is selected covers the need, and a pair is used only when the largest note does not |
| NoteSelection.SentConserves | sdk/src/pool.ts:578-580 | a payment to oneself costs exactly its fee, keeps the notes in order, and leaves one note fewer when there is no change |
| NoteSelection.MergeConserves | sdk/src/pool.ts:725-731 | a merge whose two readings of the fee agree costs exactly that fee and leaves fewer notes |
| NoteSelection.MergeSelectsTwo | sdk/src/pool.ts:728-730 | the payment inside a merge finds its notes at once exactly if the fee has not risen since the merge was sized; it nests exactly if it has and the balance bears it |
| NoteSelection.RisenFeeNests | sdk/src/pool.ts:573-575 | three notes and a fee risen by one unit, where the payment inside the merge has to merge in turn |
| NoteSelection.Consolidate | sdk/src/pool.ts:725-731 | one merge with both readings of the fee: readings used in order, the balance down by exactly the fees charged; if the fee has not risen it lands with the notes it was sized for; while every second reading is higher it recurses and merges nothing |
| NoteSelection.SelectInputsMerging | sdk/src/pool.ts:284-297 | a selection covers the need and the balance goes down by exactly the fees charged, however the fee changes; at a steady fee the recursion is over at once, at most six merges are made, each leaving fewer notes, and every outcome is the one its condition calls for |
| RateLimiter.Limiter.Allow | relayer/src/main.ts:643-655 | answer and new buckets of one request |
| RateLimiter.Limiter.Evict | relayer/src/main.ts:656-659 | exactly the buckets idle for more than ten minutes are dropped |
| RateLimiter.AdmissionBound | relayer/src/main.ts:643-655 | over any stretch of time the requests of one client admit at most the burst plus rate times time |
| RateLimiter.OthersUnnoticed | relayer/src/main.ts:643-655 | what one client gets in a run does not depend on what the others do |
| RateLimiter.RunAdmissionBound | relayer/src/main.ts:635-659 | in any stretch of any run from the start, with other clients and the timer interleaved, one client gets at most the burst plus rate times time |
| RateLimiter.AdmissionsPerClass | relayer/src/main.ts:637-655 | the same in numbers: in T seconds at most 60 + 15T node requests, 6 + T/5 relays, 15 + 3T searches and 120 + 30T others |
| RateLimiter.PacePerClass | relayer/src/main.ts:637-655 | a client that waits 67, 5000, 334 or 34 milliseconds is let through, and from an empty bucket not a millisecond earlier |
| RateLimiter.BurstPerClass | relayer/src/main.ts:637-649 | a new client is let through exactly 60, 6, 15 or 120 times at once |
| RateLimiter.SpacedRequestAdmitted | relayer/src/main.ts:650-653 | a client whose bucket had time for a token is admitted |
| RateLimiter.InstantAdmissions | relayer/src/main.ts:650-654 | at one instant a bucket admits exactly its whole tokens |
| RateLimiter.NewClientGetsBurst | relayer/src/main.ts:637-649 | a new client may send its whole burst at once and no more |
| RateLimiter.EvictionUnobservable | relayer/src/main.ts:656-659 | every run gives the same answers with eviction as without |

## Left out

- Program.PoolAccounts.Transact: funds move on a working copy that is dropped on failure, standing for the runtime's rollback; the rent of the nullifier accounts, paid by the signer, is not modelled.
- Runs.Solvency: assumes proof soundness and no hash collision among the evaluations of the run, as said above; mints whose authority can move vault funds and transfer hooks are outside it.
- Runs.NoDoubleSpend: a note with one commitment and index in two pools has one nullifier, so spending it in one pool makes it unspendable in the other; only the pool's own books are claimed.
- Completeness.HonestOrderLands: path and root must come from one snapshot of the tree; the client requests them separately, and between the two requests a leaf may land.
- Indexer.Relayer.IndexSignature: the node returns the transaction; IndexMissed states what happens when it does not.
- Indexer.Relayer.PollFetch: one reading of the node's list is a prefix of the transactions that landed, and the list does not change between its pages.
- ClientTree.MerkleTree.Rebuild: array indices are exact integers, as JavaScript numbers are up to 2^53.
- TokenFee.PreFeeExact: spl-token-2022's own gross-up is not part of this model; it is taken to be the one the client mirrors, with the full rate limited by the cap.
- RateLimiter.Limiter.Allow: tokens are reals; floating-point rounding is not modelled.
- NoteSelection.SelectInputsMerging: a merge is taken to have landed and to have been synchronised before the next round; the outcomes of a whole run of merges are stated for a fee that stays the same (SteadyOutcome), which the code does not guarantee; `Unfinished` stands for a recursion that is still going when the given readings of the fee are used up.
- NoteSelection.MergeConserves: for two readings of the fee that agree; SentConserves and Consolidate state what holds otherwise.
- Completeness.HonestOrderAccepted: the accounts are taken to be the right ones (fee account of the configured recipient, payees that can be credited), and the program's rates to have risen by no more than its margin forgives.
- Spendable.SpendableWithdraw: the `fragmented` flag and the number of notes, returned beside the answer, are not modelled.
- Spendable.CountdownReaches: between its bound and the one of CountdownTooShort lie fourteen units of rounding, where nothing is claimed; ten between the two bounds from the floor.
- SizingReach.SizedWhenLargeEnough: if the fourth plain guess would credit less than a unit, the fifth more, and two more guesses need not land, the guesses themselves decide (LaterGuessesDecide) and no simpler condition is given.
- Groth16 pairing, curve arithmetic, the trusted setup, and the insides of Poseidon, SHA-256, x25519 and AES-GCM.
- Privacy and unlinkability.
- The client's notes over time (sync, reserve, release), prepared payments, and races inside one client.
- Merkle tree and vault provisioning, lookup tables, HTTP routes, prices, token metadata and display names.
- The mint field: the circuit keeps the mint private, so nothing proved here depends on how it is computed.
- The partner fee on deposits, which is a transfer beside the program.
