# Verified core of the node

A Dafny model of the pure data-structure and protocol code of this Bitcoin node, with proofs of what that code is for. Hashes, signatures, elliptic curves and random numbers are function-valued parameters or arbitrary choices; everything else is written out: the same branches, constants, error exits and, where it matters, the same integer widths.

| area | files |
|---|---|
| Merkle trees and partial Merkle trees (BIP 37) | Shifts, Merkle, MerkleBlock, PartialMerkle, PartialMerkleTree, PartialMerkleSound, PartialMerkleShapes |
| the address manager and its file | AddrManState, AddrManTried, AddrMan, AddrManFile |
| the script verification queue | CheckQueue |
| scripts: instructions, numbers, multisignatures, the machine, its opcodes, standard scripts | ScriptCode, ScriptNum, MultiSig, ScriptMachine, ScriptLaws, ScriptEval, ScriptVerify, ScriptStandard, ScriptStructured |
| unspent outputs, blocks and the money supply | Transactions, UtxoState, Utxo, UtxoChain, UtxoOverflow |
| chains, locators, choice of the best chain | BlockTree, Chain, ChainSelect |
| the memory pool | MempoolState, Mempool |
| byte codecs | VarInt, Amount, ScriptCompressor, CoinsCodec, CoinsStream, Base58 |
| messages on the wire, and their handler | Framing, Net, Messages |
| shared | Wrappers, Arithmetic, Sequences |

Code that works step by step is a class or a method with loops, tied by its contract to a function or a predicate; the properties are lemmas about those. `hide` statements only keep proofs quick.

## What the main results say

* Building, packing, unpacking and extracting a partial Merkle tree gives back exactly the selected txids (`PartialMerkleTree.SendAndExtract`). A received tree with the true root proves its matches, that is, they are txids of the block at strictly increasing positions, if and only if the number of transactions received with it is close enough to the true one: of the same height, and greater by at most half of its lowest bit; a number of greater height matches nothing (`PartialMerkleSound.ExtractSound`, `PartialMerkleSound.TallerEmpty`, `PartialMerkleShapes.SoundExactly`). Announced for three transactions, four match one of them twice; announced for four, two match an inner node (`PartialMerkleShapes.FourForThree`, `PartialMerkleShapes.TwoForFour`). The header comment's bound of 2N-1 bits does not hold (`PartialMerkle.BitBoundCounterexample`); `PartialMerkle.EncodeSize` gives the exact number.
* Every run of Add, Good, Attempt, Connected and GetAddr keeps the whole invariant of the address manager (`AddrMan.CAddrMan.Run`), its own consistency check never complains (`AddrMan.CAddrMan.Check_`), and saving and loading gives the same manager up to new ids and forgotten attempt times (`AddrManFile.SaveAndLoad`).
* In every interleaving of the verification queue, Wait returns the verdict on exactly the checks added since the last Wait (`CheckQueue.WaitVerdict`), and Wait terminates: until it returns there are at most as many reports as checks to do, and one can always be made or the master wakes and returns (`CheckQueue.WaitTerminates`). When it has returned, nothing is to do and nothing has failed at any moment, but the counts that the next user's constructor compares without the mutex are equal only while no worker is inside its section (`CheckQueue.ReadyForNextUser`), and one can be (`CheckQueue.LateWake`).
* The flat script loop with its vector of flags is a recursive evaluator over nested conditionals (`ScriptStructured.FlatIsStructured`), and its limits hold at every loop head (`ScriptMachine.RunWithinLimits`). The greedy multisignature loop is complete (`MultiSig.GreedyComplete`), and CombineMultisig finds as many signatures as there are when each verifies under one key (`MultiSig.CombineMultisig`). VerifyScript accepts the signature script it has completed if and only if the signatures can be assigned to the keys and are canonical where the flags ask for it, which CombineMultisig does not test (`ScriptVerify.CombinedVerdict`, `ScriptVerify.CombinedVerifies`, `ScriptVerify.NotCanonical`).
* What each opcode does is stated on stack elements and on the numbers they stand for, apart from the machine (`ScriptLaws.DupLaws`, `ScriptLaws.TwoNumbers`, `ScriptLaws.CheckSigLaws`, `ScriptLaws.MultisigLaw`). From that follows when an answer spends an output: to a key or a key's hash, if and only if key and signature are canonical, the key has that hash, and the signature verifies for the script without itself (`ScriptStandard.KeyVerifies`, `ScriptStandard.KeyHashVerifies`); to a script's hash, if and only if the script shown has it and, under the P2SH rules, ends true on the values pushed below it (`ScriptStandard.ScriptHashVerifies`, `ScriptStandard.MultisigHashVerifies`).
* Over whole chains there is never more money than the subsidies paid so far, and never more than MAX_MONEY, as long as the fees of every block fit 64 bits (`UtxoChain.MoneySupply`). No transaction is compared with its own inputs; all rests on one comparison per block, made in 64 bits. A connected block keeps its outputs within its inputs and its subsidy if and only if its fees fit (`UtxoChain.BlockCreates`, `UtxoChain.MoneyGrows`); and every block of well-formed transactions with such fees that keeps them there is accepted (`UtxoChain.BalancedConnects`). They fit in every block of at most 4393 transactions (`UtxoChain.FewTransactions`); a block of 4394 whose fees do not fit connects and leaves more than MAX_MONEY (`UtxoOverflow.MintingConnects`, `UtxoOverflow.SupplyExceeded`).
* GetValueIn returns the exact sum if and only if it is below 2^63, and then no step on the way leaves the width (`UtxoChain.InputSumFits`). That is so in every block of at most 4392 transactions, and hence over every run of such blocks (`UtxoChain.FewInputsFit`, `UtxoChain.SmallBlocks`), but not in every block of 4393, even one whose fees fit (`UtxoOverflow.FewestExceedWidth`, `UtxoOverflow.InputsExceedWidth`).
* The search for the best chain terminates if and only if every failed candidate off the active chain is outranked by an eligible one (`BlockTree.SettlesExactly`), and then activating it ends with both chains being the path to the eligible candidate with the most work, of several the one received first (`ChainSelect.BlockChains.ActivateBestChain`). Locators are logarithmic and find a common block at most twice as deep as the fork (`Chain.LocatorLength`, `Chain.LocatorFindsFork`).
* Recursive removal from the memory pool takes out exactly a transaction and its descendants and keeps the input index exact (`Mempool.CTxMemPool.Remove`); what stays behind keeps its inputs (`Mempool.RemoveKeepsInputs`).
* Unspent outputs, amounts, variable-length numbers, scripts in compact form and Base58 texts all come back from their encodings. The formats are also compared with what the comments of the program say of them, up to its examples (`VarInt.DigitsFigure`, `Amount.CompactForm`, `CoinsCodec.SecondExample`, `Base58.SameNumber`). One exception is a result: a negative transaction version does not survive in CCoins, and every other one does (`CoinsCodec.CoinsRoundTrip`).
* However the wire cuts the stream, what was sent plus what is queued is the framed messages in order, the send assertions hold, and a receiver fed any pieces of the wire has the first messages sent (`Net.CSender.SocketSendData`, `Net.ReceiveFrom`), with the magic, command, size and checksum where they belong (`Framing.DeliveredCarries`). Whenever the handler of the receiver has its turns, it handles exactly those messages, in order and each once (`Messages.ServeAll`).

## Model

| member | source | states |
|---|---|---|
| Shifts.ShrAdjoint | src/main.h:468-470 | a shift to the right reaches p exactly when p shifted to the left fits |
| Merkle.NodeExists | src/main.h:468-470 | a node exists at a height exactly when its leftmost leaf is a transaction |
| Merkle.ChildExists | src/main.cpp:1938-1942 | the left child that CalcHash descends to always exists |
| Merkle.WidthHalves | src/main.h:468-470 | each level is half as wide as the one below, rounded up |
| Merkle.TreeHeight | src/main.cpp:2003-2006 | the height computed by the loop is the least at which one node is left |
| MerkleBlock.SiblingStep | src/core.cpp:224-241 | hashing a node with its sibling, in the order its position asks for and with itself when it is alone, is its parent in the recursive tree |
| MerkleBlock.BranchReachesRoot | src/core.cpp:259-272 | folding the branch of transaction i at index i gives the root, for every i and every number of transactions |
| MerkleBlock.BranchIsBinding | src/core.cpp:259-272 | with an injective hash, a branch of the right length that folds to the root belongs to the txid at that index and is its branch |
| MerkleBlock.LastIsRoot | src/core.cpp:224-241 | the last element of the flat tree is the recursive root |
| MerkleBlock.Block.BuildMerkleTree | src/core.cpp:224-241 | the array holds at every level offset exactly the nodes of the recursive tree; the result is its last element, none for an empty block |
| MerkleBlock.Block.GetMerkleBranch | src/core.cpp:243-257 | the result holds the sibling of every ancestor; the tree is built first when it is missing |
| MerkleBlock.Block.CheckMerkleBranch | src/core.cpp:259-272 | the loop folds the branch along the bits of the index; index -1 never verifies |
| PartialMerkle.DecodeEncode | src/main.cpp:1950-1996 | traversing what was built gives the node's hash, the selected txids and the two cursors, wherever the encoding stands in longer lists |
| PartialMerkleSound.LoneLimit | src/main.h:468-470 | where the last node of a level has no sibling, the number of transactions plus half its lowest bit ends before the middle of where the sibling would stand |
| PartialMerkleSound.DecodeSound | src/main.cpp:1968-1996 | for any bits and hashes and any announced number not greater than the true one, or for different txids greater by at most half its lowest bit: a traversal that yields a node's hash yields txids below that node at strictly increasing positions |
| PartialMerkleSound.NothingMatched | src/main.cpp:1968-1996 | a traversal that stands above the node whose hash it yields matches nothing, unless a txid is the hash of a pair |
| PartialMerkle.EncodeSize | src/main.h:433-449 | hashes: at most one per leaf and at most 1 + matches * height; bits: at most 1 + 2 * matches * height, and exactly 2 * hashes - 1 plus the one-child nodes descended |
| PartialMerkle.BitBoundCounterexample | src/main.h:449 | three txids with the last one matched need four bits for two hashes |
| PartialMerkle.WidthFitsUint32 | src/main.h:468-470 | the sum inside the width computation stays below 2^32 up to 2^30 transactions |
| PartialMerkleSound.ExtractSound | src/main.cpp:2014-2045 | with such a number of the same height, whatever bits and hashes were received: if the root is the Merkle root of a list then the matches are entries of that list at strictly increasing positions |
| PartialMerkleSound.TallerEmpty | src/main.cpp:2014-2045 | with a number of greater height nothing is matched, unless a txid is the hash of a pair |
| PartialMerkleShapes.DecodeReshaped | src/main.cpp:1968-1996 | traversing the nodes of one list in the shape of another length gives the true hash, wherever lone children in that shape are lone in the list |
| PartialMerkleShapes.ShorterMatches | src/main.cpp:2014-2045 | with any number of smaller height some bits and hashes extract the true root and match an inner node |
| PartialMerkleShapes.GreaterMatchesTwice | src/main.cpp:2014-2045 | with any number of the same height that is greater by more than half the lowest bit some bits and hashes extract the true root and match a txid twice |
| PartialMerkleShapes.SoundExactly | src/main.cpp:2014-2045 | for different txids, none the hash of a pair: a tree with the true root always has entries of the list at increasing positions as matches if and only if the announced number is refused, has a greater height, or has the same height and is greater by at most half the lowest bit |
| PartialMerkleShapes.FourForThree | src/main.cpp:2014-2045 | four transactions announced for three: the third txid is matched twice |
| PartialMerkleShapes.TwoForFour | src/main.cpp:2014-2045 | two announced for four: an inner node is matched |
| PartialMerkleShapes.TwoForOne | src/main.cpp:2014-2045 | two announced for one whose txid is the hash of a pair: half of the pair is matched |
| PartialMerkle.ExtractEncode | src/main.cpp:2014-2045 | extracting from a built tree with padding below a byte gives the root and exactly the selected txids, for every list up to the block limit and every mask |
| PartialMerkle.NothingUnused | src/main.cpp:2014-2045 | an accepted tree announces 1 to 16666 transactions, and with anything behind it but bits that fill its last byte it is refused |
| PartialMerkleTree.UnpackPacked | src/main.h:485-502 | unpacking packed bits gives them back with fewer than eight zero bits behind them |
| PartialMerkleTree.PackBits | src/main.h:496-500 | bit p % 8 of byte p / 8 is bit p, and no other bit is set |
| PartialMerkleTree.UnpackBits | src/main.h:488-494 | every bit of every byte, least significant first |
| PartialMerkleTree.CPartialMerkleTree.constructor | src/main.cpp:1998-2010 | the bits and hashes are those of the encoding of the whole tree |
| PartialMerkleTree.CPartialMerkleTree.Unserialize | src/main.h:485-494 | everything is replaced by the message and fBad is cleared |
| PartialMerkleTree.CPartialMerkleTree.Serialize | src/main.h:495-501 | the message holds the packed bits |
| PartialMerkleTree.CPartialMerkleTree.TraverseAndBuild | src/main.cpp:1950-1966 | appends exactly the encoding of the subtree to both lists |
| PartialMerkleTree.CPartialMerkleTree.IsParentOfMatch | src/main.cpp:1952-1955 | the loop over leaves tells whether one below the node is matched |
| PartialMerkleTree.CPartialMerkleTree.TraverseAndExtract | src/main.cpp:1968-1996 | fBad is set exactly when decoding runs out of input; otherwise hash, cursors and matches are the decoded ones |
| PartialMerkleTree.CPartialMerkleTree.ExtractMatches | src/main.cpp:2014-2045 | all six rejections in order, and otherwise the root and the matches |
| PartialMerkleTree.SendAndExtract | src/main.h:485-502 | from any txids and mask through the message back to the selected txids and the root |
| AddrManState.BucketSpread | src/addrman.cpp:12-38 | the tried buckets of all services of one group are at most 4, the new buckets of everything one source group tells about at most 32 |
| AddrManState.TouchKeeps | src/addrman.cpp:370-387 | changing an entry's statistics keeps the invariant and shows up for that address only |
| AddrManState.SwapKeeps | src/addrman.cpp:108-126 | swapping two random positions keeps the invariant and is invisible |
| AddrManState.CreateKeeps | src/addrman.cpp:96-106 | a created entry is the one pending id; the address becomes known, no other changes |
| AddrManState.RaiseKeeps | src/addrman.cpp:360-363 | raising a reference count before there is a place for it leaves one pending id |
| AddrManState.PlaceKeeps | src/addrman.cpp:365 | entering the pending id into a bucket with room restores the invariant |
| AddrManState.EvictKeeps | src/addrman.cpp:152-204 | dropping a reference keeps the invariant with the id pending that was; the address is forgotten with its last reference only |
| AddrManTried.PromoteKeeps | src/addrman.cpp:206-236 | moving a new entry to a tried bucket with room keeps the invariant |
| AddrManTried.ExchangeKeeps | src/addrman.cpp:238-262 | exchanging it for a tried entry, which goes back to a new bucket, keeps the invariant and moves exactly those two |
| AddrManTried.ReorderKeeps | src/addrman.cpp:128-150 | shuffling a tried bucket keeps the tried table |
| AddrManTried.SizeBound | src/addrman.h:97-133 | at most 64*64 tried and 256*64 new addresses; their number is the size of all three indexes |
| AddrMan.RotationCovers | src/addrman.cpp:289-301 | a search that starts at any bucket and goes round reaches every bucket |
| AddrMan.TerribleEntries | src/addrman.cpp:40-58 | an entry is terrible if and only if it was not tried within the last minute and comes from more than ten minutes ahead, was never seen, not seen for 30 days, failed three times without ever a success, or ten times without one for a week |
| AddrMan.RefreshedTime | src/addrman.cpp:324-331 | hearing of a known address never takes its time back; it is brought forward to the news less the penalty when nothing was known or that is newer by more than an hour, or a day for news a day old; services add up and nothing else changes |
| AddrMan.FreshTime | src/addrman.cpp:353-354 | a new address has the time it was seen less the penalty, not below zero, and no attempt |
| AddrMan.EntriesAfter | src/addrman.cpp:279-386 | every field after a success, an attempt and a connection |
| AddrMan.CAddrMan.Find | src/addrman.cpp:83-94 | finds an address exactly when it is known, with its entry |
| AddrMan.CAddrMan.Create | src/addrman.cpp:96-106 | the three indexes after the call, with the next id |
| AddrMan.CAddrMan.SwapRandom | src/addrman.cpp:108-126 | both positions and both back pointers are exchanged, nothing else |
| AddrMan.InspectTried | src/addrman.cpp:134-147 | exchanges the first four elements with ones picked behind them; the one with the oldest success stands where it was put, and the result is the place it was picked from |
| AddrMan.CAddrMan.SelectTried | src/addrman.cpp:128-150 | the same on a tried bucket, which is only permuted |
| AddrMan.SelectedIsOldest | src/addrman.cpp:132-149 | the entry at the resulting place is the oldest inspected if and only if that was picked where it stood |
| AddrMan.SelectsNewer | src/addrman.cpp:132-149 | a bucket of two of which the newer entry is selected |
| AddrMan.OldestOf | src/addrman.cpp:179-191 | of the entries at four places of the bucket, the least recently seen, and of several the first |
| AddrMan.CAddrMan.ShrinkNew | src/addrman.cpp:152-204 | drops one reference of the bucket: that of the first terrible entry when there is one, and otherwise that of the least recently seen entry at four places; the result code tells which |
| AddrMan.CAddrMan.MakeTried | src/addrman.cpp:206-262 | the address becomes tried; at most one other goes back to new, and the tried count grows exactly when none does |
| AddrMan.CAddrMan.Displace | src/addrman.cpp:238-262 | the new entry takes the place of the old one, which goes to the new bucket that its own source gives it if that has room and otherwise to the one left |
| AddrMan.CAddrMan.Good_ | src/addrman.cpp:264-311 | nothing happens to an address not known under this very service; otherwise success is recorded and the address is tried |
| AddrMan.CAddrMan.FindNewBucket | src/addrman.cpp:289-305 | some bucket with the id; -1 only when no bucket has it |
| AddrMan.CAddrMan.Attempt_ | src/addrman.cpp:370-387 | one more attempt for that address, known under this service |
| AddrMan.CAddrMan.Connected_ | src/addrman.cpp:509-528 | the time seen is updated after twenty minutes, and nothing else ever |
| AddrMan.CAddrMan.Add_ | src/addrman.cpp:313-368 | unroutable: nothing; otherwise the address is known with exactly the entry it should have, and at most one other is forgotten; true exactly for an address not known before, which then stands in the bucket its source gives it; a known one may come to stand there when it is not tried and the news is newer than what is known, and otherwise no bucket changes |
| AddrMan.CAddrMan.GetAddr_ | src/addrman.cpp:493-507 | 23 percent of the known addresses and at most 2500, all different, and nothing an observer sees changes |
| AddrMan.CAddrMan.Check_ | src/addrman.cpp:434-490 | returns 0 in every state the invariant allows |
| AddrMan.CAddrMan.Run | src/addrman.cpp:264-387 | any sequence of operations keeps the invariant and the size bound; only routable addresses come in |
| AddrManFile.WriteEntries | src/addrman.h:284-307 | every wanted entry once, in the order of its id, with its position recorded; the early exit on a wrong count never cuts one off |
| AddrManFile.WriteBucket | src/addrman.h:308-318 | the positions of exactly the ids in the bucket |
| AddrManFile.Write | src/addrman.h:280-318 | the file describes the manager |
| AddrManFile.RoomForTried | src/addrman.h:347-360 | no saved tried entry meets a full bucket when it is read |
| AddrManFile.IndexLoads | src/addrman.h:362-378 | a saved reference never exceeds the limit of references when it is read |
| AddrManFile.StoreTried | src/addrman.h:347-360 | stored under the next id, or dropped exactly when its bucket is full |
| AddrManFile.ReadTried | src/addrman.h:342-361 | nLost is 0 |
| AddrManFile.Read | src/addrman.h:319-379 | the result is the saved manager with its ids renumbered in the order of the file |
| AddrManFile.RenumberedConsistent | src/addrman.cpp:434-490 | a renumbered manager satisfies the whole invariant |
| AddrManFile.RenumberedView | src/addrman.h:319-379 | and shows the same addresses, entries and new buckets |
| AddrManFile.SaveAndLoad | src/addrman.h:249-381 | saving and loading gives the same manager apart from nLastTry |
| CheckQueue.InitialInv | src/checkqueue.h:124-125 | the invariant holds of a new queue with any number of threads |
| CheckQueue.NextInv | src/checkqueue.h:63-149 | every step of every thread keeps it: nTodo is queued plus in flight, the counters count, the verdict so far is right, the master sleeps only over work in flight or with its wakeup pending |
| CheckQueue.RunInv | src/checkqueue.h:63-149 | so does every run |
| CheckQueue.BatchSize | src/checkqueue.h:99-103 | at least one check and at most the queue; if more than one, no more than a full batch and than the queue divided by the threads counted and one more; and the greatest such number |
| CheckQueue.WaitReturns | src/checkqueue.h:84-93 | only the master returns, with the conjunction of all checks added, and with nothing in flight |
| CheckQueue.WaitVerdict | src/checkqueue.h:132-149 | over any run, Wait returns true exactly when every check added since the last Wait passes |
| CheckQueue.WaitProgresses | src/checkqueue.h:74-97 | while the master waits a batch is in flight, or it is notified and will return |
| CheckQueue.WaitTerminates | src/checkqueue.h:63-109 | in any run, from any moment in Wait until it returns there are at most nTodo reports; while something is to do a batch is waiting to be reported, and then the pending wakeup makes Wait return |
| CheckQueue.ControlReads | src/checkqueue.h:166-173 | while the master has added nothing: at every moment nTodo is 0 and fAllOk is true, and nTotal equals nIdle if and only if no worker is between the two updates of its section |
| CheckQueue.ReadyForNextUser | src/checkqueue.h:166-173 | so it is from the return of Wait until the master's next step, whatever the workers do |
| CheckQueue.LateWake | src/checkqueue.h:94-97 | a run after which Wait has returned and a worker that an Add has woken is between them, with nTotal 1 and nIdle 0 |
| CheckQueue.CCheckQueue.Add | src/checkqueue.h:138-149 | appends the batch and counts it |
| CheckQueue.CCheckQueue.EnterLoop | src/checkqueue.h:79-84 | the critical section at entry is the step function's |
| CheckQueue.CCheckQueue.WakeUp | src/checkqueue.h:94-97 | the section after a wait |
| CheckQueue.CCheckQueue.ReportBatch | src/checkqueue.h:70-84 | the section after a batch; the master is notified exactly when nothing is left and it is not the reporter |
| CheckQueue.CCheckQueue.LoopHead | src/checkqueue.h:84-113 | sleep, return or take a batch, as the step function says |
| CheckQueue.CCheckQueue.RunBatch | src/checkqueue.h:114-118 | true exactly when nothing had failed and every check of the batch passes |
| ScriptCode.ReadPush | src/script.h:371-396 | reading undoes every push whose length fits four bytes, and no longer one |
| ScriptCode.PushForms | src/script.h:371-396 | the bytes of a push: the length in the opcode up to 75, then in one, two or four bytes after 0x4c, 0x4d or 0x4e, least significant first |
| ScriptCode.GetOpPrefix | src/script.h:434-501 | reading does not depend on what follows: instruction encodings are prefix-free |
| ScriptCode.ScriptParts | src/script.h:434-501 | a script is its instructions followed by a tail that cannot be read |
| ScriptCode.PartsScript | src/script.h:434-501 | and any instructions with such a tail read back as themselves |
| ScriptCode.MatchIsReading | src/script.h:503-520 | comparing bytes at an instruction's start finds it exactly when it is the one read there |
| ScriptCode.DeletedReads | src/script.h:503-520 | after deletion the instructions are those left after filtering, the tail is kept, and the length shrinks by the count |
| ScriptCode.PushIsInstruction | src/script.h:371-396 | a push is one instruction |
| ScriptCode.CScript.PushBytes | src/script.h:371-396 | appends the push with the length field its size needs |
| ScriptCode.ErasedIsDeleted | src/script.h:503-520 | cutting bytes out at the starts of instructions is, for a single instruction, deleting it from the list of instructions |
| ScriptCode.CScript.FindAndDelete | src/script.h:503-520 | the code afterwards, and the number of deletions, for any byte string |
| MultiSig.GreedyComplete | src/script.cpp:914-935 | the greedy pass succeeds exactly when some order-preserving assignment of signatures to keys verifies |
| MultiSig.CheckLoop | src/script.cpp:914-935 | so does the loop over the stack, which counts from the top |
| MultiSig.MatchSigs | src/script.cpp:1711-1730 | every matched pair verifies, and no verifying pair is missed altogether |
| MultiSig.CombineMultisig | src/script.cpp:1694-1747 | the result pushes an empty element, signatures from the two inputs that can be assigned in order, and empty elements up to the number required; when some are missing, no assignable list from the inputs has more, provided each of its signatures verifies under one key only |
| MultiSig.AssignableOnStack | src/script.cpp:899-931 | signatures can be assigned to the keys in order if and only if they can when both lists are read from the top of the stack and the signatures are dropped from the script code |
| MultiSig.DeleteAbsent | src/script.cpp:907-912 | dropping signatures that are not in the script leaves it alone |
| MultiSig.DeleteSigsReads | src/script.cpp:907-912 | deleting the signatures leaves exactly the instructions that push none of them, in order, and the unreadable tail |
| MultiSig.UnsignedSame | src/script.cpp:907-912 | whatever the order of deletion |
| ScriptNum.DecodeEncodeNum | src/bignum.h:245-270 | every number comes back from its encoding |
| ScriptNum.DecodeDigits | src/bignum.h:245-258 | bytes are digits in base 256, least significant first; the top bit of the last is the sign |
| ScriptNum.EncodeShortest | src/bignum.h:260-270 | no byte string that stands for the same number is shorter than its encoding |
| ScriptNum.EncodeNumLength | src/bignum.h:260-270 | a number below 2^(8k-1) takes at most k bytes |
| ScriptNum.CastRange | src/script.cpp:36-43 | what is accepted as a number is within 32 bits |
| ScriptNum.BoolIsNonzero | src/script.cpp:45-57 | a byte string is true exactly when its number is not zero; negative zero is false |
| ScriptNum.EvalBool | src/script.cpp:45-57 | the loop computes that |
| ScriptMachine.FlatJoin | src/script.cpp:323-350 | running a list is running its parts one after the other |
| ScriptMachine.OpWithinLimits | src/script.cpp:346-953 | no instruction makes an element longer than 520 bytes or the count of instructions larger than 201 |
| ScriptMachine.RunWithinLimits | src/script.cpp:323-958 | at every loop head of a run the two stacks hold at most 1000 elements of at most 520 bytes, and nOpCount is at most 201 |
| ScriptLaws.PushLaws | src/script.cpp:346-386 | opcodes up to 0x4e push their data, 0x4f pushes -1, and 0x51 to 0x60 push 1 to 16 |
| ScriptLaws.OtherOpcodes | src/script.cpp:392-395 | what NOP and NOP1 to NOP10 leave alone, and the opcodes that always fail when executed |
| ScriptLaws.DropLaws | src/script.cpp:474-590 | 2DROP, DROP and NIP: (x1 x2 -- ), (x -- ), (x1 x2 -- x2) |
| ScriptLaws.DupLaws | src/script.cpp:484-600 | 2DUP, 3DUP, IFDUP, DUP and OVER in the same pictures |
| ScriptLaws.PairLaws | src/script.cpp:510-543 | 2OVER, 2ROT and 2SWAP |
| ScriptLaws.TurnLaws | src/script.cpp:620-650 | ROT, SWAP and TUCK |
| ScriptLaws.PickLaws | src/script.cpp:602-618 | PICK copies and ROLL moves the element under n others; both refuse numbers of more than four bytes, negative ones, and ones too great for the stack |
| ScriptLaws.TooFew | src/script.cpp:432-812 | every instruction that takes elements fails when there are too few |
| ScriptLaws.TestLaws | src/script.cpp:432-444 | VERIFY passes nonzero numbers only and takes them; EQUAL tells whether two elements are the same bytes and EQUALVERIFY goes on only then; hashes replace the top by its digest |
| ScriptLaws.AltLaws | src/script.cpp:456-472 | TOALTSTACK and FROMALTSTACK move one element |
| ScriptLaws.OneNumber | src/script.cpp:698-722 | 1ADD, 1SUB, NEGATE, ABS, NOT and 0NOTEQUAL leave the shortest form of the number they should; numbers of more than four bytes are refused |
| ScriptLaws.TwoNumbers | src/script.cpp:724-779 | so do ADD, SUB, MIN, MAX, BOOLAND, BOOLOR and the comparisons; NUMEQUALVERIFY goes on only when both are equal |
| ScriptLaws.WithinLaw | src/script.cpp:781-796 | WITHIN: at least the lower and below the upper limit |
| ScriptLaws.SizeLaws | src/script.cpp:556-662 | DEPTH and SIZE push the shortest form of the number of elements and of bytes |
| ScriptLaws.CheckSigLaws | src/script.cpp:840-874 | CHECKSIG replaces signature and key by whether both are canonical and the signature verifies for the script behind the last separator without that signature; CHECKSIGVERIFY goes on only then |
| ScriptLaws.SeparatorLaw | src/script.cpp:833-838 | CODESEPARATOR moves the start of that script behind itself |
| ScriptLaws.MultisigLaw | src/script.cpp:876-949 | CHECKMULTISIG, for any operands with m signatures, n keys and room for n operations: whether the signatures can be assigned to keys in order, each verifying for the script without any of the signatures |
| ScriptLaws.MultisigRefuses | src/script.cpp:880-905 | it fails on numbers of more than four bytes, on more than 20 keys, more keys than operations left, more signatures than keys, negative counts and missing elements |
| ScriptLaws.MultisigVerifies | src/script.cpp:943-949 | CHECKMULTISIGVERIFY goes on exactly when CHECKMULTISIG leaves true, and takes that |
| ScriptLaws.StepLimits | src/script.cpp:327-350 | executed or not: at most 520 bytes of data, no disabled opcode, at most 201 operations; and at most 1000 elements afterwards |
| ScriptLaws.LimitsAreSharp | src/script.cpp:327-350 | a push passes exactly up to 520 bytes and with room for it, an instruction that does nothing exactly up to the 201st operation |
| ScriptLaws.TooLong | src/script.cpp:317-318 | a script of more than 10000 bytes is refused |
| ScriptLaws.OpeningLaws | src/script.cpp:397-414 | IF and NOTIF take the top element and open a branch by its truth; in a branch that is not taken they look at nothing |
| ScriptLaws.ClosingLaws | src/script.cpp:416-430 | ELSE turns the innermost branch, ENDIF closes it, both fail without one; VERIF and VERNOTIF always fail, and everything else does nothing in a branch that is not taken |
| ScriptEval.DropSigs | src/script.cpp:907-912 | signatures are deleted from the script code one after the other |
| ScriptEval.CheckMultisig | src/script.cpp:876-949 | the whole instruction, with its counts, limits and cleanup, succeeds by the existence of an assignment |
| ScriptEval.Execute | src/script.cpp:354-953 | each instruction does what the step function says, of which the laws in ScriptLaws hold |
| ScriptEval.ActOn | src/script.cpp:352-430 | conditionals and skipping, as the step function says |
| ScriptEval.EvalScript | src/script.cpp:307-970 | accepts exactly the scripts whose run ends with all conditionals closed, with the stack of that run |
| ScriptVerify.PushesOnly | src/script.cpp:1866-1882 | true exactly for scripts that can be read and only push |
| ScriptVerify.VerifyScript | src/script.cpp:1599-1638 | true exactly when the two scripts, and for a script hash the script on the stack, each end with true on top; the assertion that there is one never fails |
| ScriptVerify.PushesVerdict | src/script.cpp:1686-1692 | a script made of pushes yields exactly its values |
| ScriptVerify.MultisigInstructions | src/script.cpp:1941-1949 | a multisignature script reads back as m, the pushed keys, n and the check |
| ScriptVerify.SignatureAbsent | src/script.cpp:1941-1949 | a signature that is none of the keys is no instruction of it |
| ScriptVerify.ExecDecides | src/script.cpp:876-949 | OP_CHECKMULTISIG replaces as many signatures as are asked for, the keys and the counts by whether the signatures, canonical and verifying, can be assigned to the keys in order |
| ScriptVerify.MultisigVerdict | src/script.cpp:1941-1949 | so does the whole multisignature script |
| ScriptVerify.CombinedVerdict | src/script.cpp:1599-1638 | VerifyScript accepts a signature script with as many signatures as are asked for if and only if these, canonical and verifying, can be assigned to the keys in order |
| ScriptVerify.CombinedVerifies | src/script.cpp:1694-1747 | what CombineMultisig returns once it has all required signatures is accepted if they and their keys are canonical, refused if some signature is not, and accepted if and only if all are canonical when no signature verifies under two keys |
| ScriptVerify.NotCanonical | src/script.cpp:914-935 | a completed signature script that is refused: its signature verifies and is not canonical |
| ScriptStandard.KeyRun | src/script.cpp:833-874 | a key and CHECKSIG behind a separator, whatever ran before: the signature on top has to be good for this part of the script only |
| ScriptStandard.KeyVerifies | src/script.cpp:1599-1638 | a pushed signature spends an output to a key if and only if both are canonical and it verifies for the script without that signature |
| ScriptStandard.KeyVerifyVerdict | src/script.cpp:866-872 | with CHECKSIGVERIFY the script goes on exactly then, without the signature |
| ScriptStandard.KeySigned | src/script.cpp:853-857 | which is the whole script, unless the signature is the key itself |
| ScriptStandard.KeyHashVerifies | src/script.cpp:1923-1927 | a pushed signature and key spend an output to a key hash if and only if that is the key's HASH160 and the signature is good |
| ScriptStandard.KeyHashSigned | src/script.cpp:853-857 | for the whole script, unless the signature is the hash itself |
| ScriptStandard.PushOnlyMeans | src/script.cpp:1866-1882 | a script only pushes when all of it can be read and no instruction begins with an opcode above 0x60 |
| ScriptStandard.ScriptHashes | src/script.cpp:1857-1864 | a payment to a script hash is recognised exactly by HASH160, twenty pushed bytes and EQUAL |
| ScriptStandard.ScriptHashVerifies | src/script.cpp:1616-1637 | pushed values and a pushed script spend an output to a script hash if and only if that is the script's HASH160 and, under the P2SH rules, the script run on the values ends with true on top |
| ScriptStandard.OnlyPushes | src/script.cpp:1618-1619 | under those rules a signature script that does more than push spends none |
| ScriptStandard.MultisigHashVerifies | src/script.cpp:1616-1637 | for a multisignature script: if and only if it has the hash and the signatures, canonical and verifying, can be assigned to its keys in order |
| ScriptStructured.FlatIsEval | src/script.cpp:397-430 | on a well-nested list the flag vector computes what the recursive evaluator does: a repeated ELSE toggles, and checks apply to skipped instructions too |
| ScriptStructured.ParseBlockSound | src/script.cpp:397-430 | parsing into nested blocks loses no instruction |
| ScriptStructured.UnclosedBlock | src/script.cpp:966-967 | a list with an unclosed conditional never ends with all conditionals closed |
| ScriptStructured.StrayFails | src/script.cpp:416-430 | ELSE and ENDIF outside every conditional fail |
| ScriptStructured.FlatIsStructured | src/script.cpp:307-970 | for every script and stack the flat run and the recursive evaluator give the same verdict |
| UtxoState.SpendOutValue | src/coins.cpp:30-43 | spending an output takes exactly its value, makes it and no other unavailable, and changes no other |
| UtxoState.SpendAllTotal | src/main.cpp:1114-1121 | spending all inputs takes exactly their sum out of the set |
| UtxoState.ApplyOutputs | src/main.cpp:1110-1127 | what can be spent after a transaction: its own outputs but null ones and those whose script starts with OP_RETURN, and everything else that could be spent before but its inputs, each as it was; the entry of its id has its version and knows whether it is a coinbase |
| UtxoState.ApplyTotal | src/main.cpp:1110-1127 | a transaction adds at most its outputs and takes out its inputs |
| UtxoChain.ApplyBalance | src/main.cpp:1110-1127 | the exact balance of a transaction: spent, left, and lost by overwriting |
| Utxo.CheckTransaction | src/main.cpp:615-670 | accepts exactly the transactions with inputs and outputs, of at most 1000000 bytes, each value and their sum from 0 to 21 million coins, no input twice, and a null input only if it is the only one; the running sum never overflows |
| Utxo.CheckBlock | src/main.cpp:1586-1634 | accepts exactly the blocks whose first transaction only is a coinbase, whose transactions pass and whose txids differ |
| Utxo.CCoinsViewCache.FetchCoins | src/coins.cpp:85-95 | looking up may fill the cache and changes nothing for anyone who looks |
| Utxo.CCoinsViewCache.HaveInputs | src/coins.cpp:160-179 | true exactly when every input is available |
| Utxo.CCoinsViewCache.GetValueIn | src/coins.cpp:148-158 | the sum of the inputs in 64 bits, which is the exact sum if and only if that is below 2^63 |
| Utxo.CCoinsViewCache.Spend | src/coins.cpp:30-43 | succeeds exactly on an available output, which it removes |
| Utxo.CCoinsViewCache.UpdateCoins | src/main.cpp:1110-1127 | the view afterwards; the assertion on every spend never fails |
| UtxoChain.ConnectBlock | src/main.cpp:1196-1328 | accepts exactly the blocks that connect, and then the view is that after all their transactions; a block of well-formed transactions whose inputs are there in turn and whose fees fit 64 bits is accepted if and only if it overwrites nothing where that is forbidden and its outputs are at most its inputs plus the subsidy |
| UtxoChain.ConnectTransactions | src/main.cpp:1259-1301 | applies all transactions exactly when each finds its inputs, and returns the sum of the fees as 64 bits hold it |
| UtxoChain.BalancedConnects | src/main.cpp:1306-1310 | the 64-bit comparison accepts exactly what the exact one does: all outputs at most all inputs plus the subsidy |
| UtxoChain.HalvedSubsidy | src/main.cpp:852-860 | fifty coins in the first period, and half of the period before in every later one |
| UtxoChain.BlockAdds | src/main.cpp:1306-1310 | a connected block's coinbase is within subsidy plus exact fees if and only if those fit 64 bits, and then the block adds at most its subsidy |
| UtxoChain.BlockCreates | src/main.cpp:1306-1310 | a connected block's outputs are at most its inputs plus its subsidy if and only if its fees fit 64 bits |
| UtxoChain.AllBalance | src/main.cpp:1110-1127 | with nothing overwritten and every output spendable, a block changes the unspent total by exactly its outputs minus its inputs |
| UtxoChain.MoneyGrows | src/main.cpp:1196-1328 | such a block, when it connects, raises the total by at most its subsidy if and only if its fees fit 64 bits |
| UtxoChain.FewTransactions | src/main.cpp:1286 | fees fit in every block of at most 4393 transactions |
| UtxoOverflow.MintingConnects | src/main.cpp:1286-1310 | and not in every block of 4394: one connects whose exact fees are -4393 * MAX_MONEY, and leaves 4393 * MAX_MONEY |
| UtxoChain.InputSumFits | src/coins.cpp:148-158 | every step of the sum over a transaction's inputs fits 64 bits if and only if the exact sum is below 2^63 |
| UtxoChain.FewInputsFit | src/coins.cpp:148-158 | that is so for every transaction of a block of at most 4392 |
| UtxoOverflow.FewestExceedWidth | src/coins.cpp:148-158 | and not of every block of 4393: in a view that holds MAX_MONEY one connects with its fees in width although the inputs of its last transaction do not fit |
| UtxoOverflow.InputsExceedWidth | src/coins.cpp:148-158 | nor of every block of 4395 over a view that holds nothing: one connects with exact fees 0 although the inputs of its last transaction add up to 4393 * MAX_MONEY |
| UtxoChain.SupplyBound | src/main.cpp:852-860 | all subsidies together never exceed MAX_MONEY, for a halving interval up to 210000 |
| UtxoChain.MoneySupply | src/main.cpp:1196-1328 | after any run of connected blocks whose fees all fit 64 bits, from an empty set, the unspent total is at most the subsidies so far and at most MAX_MONEY |
| UtxoChain.SmallBlocks | src/main.cpp:1196-1328 | after any run of connected blocks of at most 4392 transactions the same holds, and every sum of inputs on the way was exact |
| UtxoOverflow.SupplyExceeded | src/main.cpp:1196-1328 | over runs without that condition the total is not bounded: three blocks connect and leave 4393 * MAX_MONEY |
| BlockTree.LessIsTotal | src/main.cpp:86-105 | the comparator is a strict total order, so a set has a last element |
| BlockTree.GreatestIsBest | src/main.cpp:86-105 | the last block of a set is the one with the most work; of several, the one received first; of several, the one with the lowest pointer; and no other block is last |
| BlockTree.ContainsIsMember | src/main.h:965-967 | looking at one height tells membership in a chain |
| BlockTree.CommonUpToFork | src/main.h:964-967 | two chains share exactly the blocks up to their fork |
| BlockTree.BetweenIneligible | src/main.cpp:1424-1437 | every block that a retry marks is off the active chain and has a failed block below it |
| BlockTree.RetryShrinks | src/main.cpp:1430-1434 | a retry removes something exactly when the candidate does not carry a failure bit itself |
| BlockTree.RetryOutranked | src/main.cpp:1411-1444 | a retry does not change whether every failed member off the active chain is outranked by an eligible one |
| BlockTree.SettlesExactly | src/main.cpp:1411-1444 | the retries come to an end if and only if that is so |
| BlockTree.MarkingKeepsEligible | src/main.cpp:1430-1434 | marking such blocks changes no candidate's eligibility |
| Chain.CChain.SetTip | src/main.cpp:263-273 | the vector becomes the path from the root to the new tip, though the loop stops at the first common block; the result is the fork point, or NULL when there is none |
| Chain.CChain.GetLocator | src/main.cpp:308-333 | the entries are the ancestors at depths 0 to 11 and then 9 + 2^j, down to the root, from the tip or from any block of the tree |
| Chain.CChain.FindFork | src/main.cpp:335-347 | the first entry that is in the chain, and its root otherwise |
| Chain.LocatorDescends | src/main.cpp:308-333 | locator heights strictly decrease to 0 |
| Chain.LocatorSteps | src/main.cpp:308-333 | the first entries lie one below the other, from the eleventh on the way down doubles with each, and the last is the root |
| Chain.LocatorLength | src/main.cpp:308-333 | at most 12 + floor(log2(height)) entries for height 1 and more |
| Chain.LocatorFindsFork | src/main.cpp:335-347 | on another chain it finds a common block at most twice as deep below the tip as the fork |
| ChainSelect.BlockChains.DropFailedTips | src/main.cpp:1405-1409 | failed blocks at the end leave the best chain and the set |
| ChainSelect.BlockChains.RejectInvalid | src/main.cpp:1420-1441 | tells whether a failed block lies between the candidate and the active chain; if so exactly the blocks above the first one met are marked and removed, none if that is the candidate; pindexBestInvalid is then the one with more work of what it was and the candidate |
| ChainSelect.BlockChains.FindCandidate | src/main.cpp:1411-1444 | terminates with the eligible member of the original set that no other exceeds in work, of several the one received first, of several the lowest pointer, or with none when there is none; only ineligible blocks were removed |
| ChainSelect.BlockChains.FindMostWorkChain | src/main.cpp:1402-1452 | of the eligible members and the last unfailed active block, the best chain ends in the one with the most work, of several the one received first, of several the lowest pointer |
| ChainSelect.BlockChains.DisconnectTip | src/main.cpp:1370-1388 | one block less, except at the root |
| ChainSelect.BlockChains.ActivateBestChain | src/main.cpp:1455-1476 | never fails; both chains are the path to that block of most work, and without any candidate the active chain stays |
| MempoolState.IndexIsUnique | src/txmempool.h:85-86 | a pool has only one exact index of inputs |
| MempoolState.NoDoubleSpend | src/txmempool.h:98-103 | with an exact index no output has two spenders |
| MempoolState.DescendantsLeast | src/txmempool.cpp:87-96 | the descendants are the least set closed under spending that has the direct spenders |
| MempoolState.DescendantsWithout | src/txmempool.cpp:87-96 | taking a closed set out takes just that out of anyone's descendants |
| Mempool.CTxMemPool.AddUnchecked | src/txmempool.cpp:67-81 | adds the transaction and keeps the index exact |
| Mempool.CTxMemPool.AcceptToMemoryPool | src/main.cpp:728-745 | of the pool's own tests: refused exactly when known already or sharing an input with a member |
| Mempool.CTxMemPool.Remove | src/txmempool.cpp:84-106 | takes out exactly the transaction and, when recursive, everything reachable from its outputs; terminates, keeps the index exact and counts every removal in 32 bits |
| Mempool.CTxMemPool.RemoveConflicts | src/txmempool.cpp:108-121 | takes out exactly the conflicting transactions and their descendants; afterwards no other member shares an input |
| Mempool.CTxMemPool.PruneSpent | src/txmempool.cpp:41-51 | exactly the outputs that the pool spends become unavailable |
| Mempool.CTxMemPool.Check | src/txmempool.cpp:131-169 | all assertions pass exactly when the index is exact and every input is known |
| Mempool.RemoveKeepsInputs | src/txmempool.cpp:131-169 | recursive removal leaves no transaction without its inputs |
| VarInt.RoundTrip | src/serialize.h:277-308 | reading gives the number back and leaves what follows |
| VarInt.OnlyEncoding | src/serialize.h:242-262 | every number has exactly one encoding |
| VarInt.DigitsFigure | src/serialize.h:242-248 | the number is the last digit plus 128^i times one more than each digit i places before; all bytes but the last have the high bit set |
| VarInt.SmallSizes | src/serialize.h:250-251 | one byte up to 127, two up to 16511, three up to 2113663 |
| VarInt.Examples | src/serialize.h:257-262 | the numbers of the comment and their encodings; those it shows for 16511 and 65535 are the encodings of 32895 and 65407 |
| VarInt.DigitsFit | src/serialize.h:280 | the buffer of (8 * sizeof + 6) / 7 bytes is large enough for 32 and 64 bits |
| VarInt.WrittenReads | src/serialize.h:277-308 | a signed number comes back exactly when it is not negative |
| VarInt.WriteVarInt | src/serialize.h:277-292 | the two loops write that encoding |
| VarInt.ReadVarInt | src/serialize.h:294-307 | the loop reads it, keeping what fits the type; fails at the end of the stream |
| Amount.DecompressCompress | src/core.cpp:174-217 | decompression undoes compression for every amount |
| Amount.CompressDecompress | src/core.cpp:174-217 | every number is the compact form of exactly one amount |
| Amount.CompressedBound | src/core.cpp:174-191 | the compact form is at most nine times the amount, so 64 bits hold it up to MAX_MONEY |
| Amount.CompactForm | src/core.cpp:165-172 | the format: an exponent e below nine and a last digit d give 1 + 10 * (9 * n + d - 1) + e, multiples of 10^9 give 1 + 10 * (n - 1) + 9, and zero gives zero |
| Amount.CompressAmount | src/core.cpp:174-191 | the loop computes it in 64 bits; the assertion on the last digit holds |
| Amount.DecompressAmount | src/core.cpp:193-217 | and back |
| ScriptCompressor.DecompressCompress | src/script.cpp:1987-2069 | each of the six special forms gives the script back |
| ScriptCompressor.SpecialForms | src/script.cpp:1987-2014 | the bytes of each special form: 0 or 1 before a hash, a short key as it is, and for a valid long key 4 or 5 before its x coordinate |
| ScriptCompressor.OnlySpecialForms | src/script.cpp:1951-1985 | no other script has a special form |
| ScriptCompressor.LongForms | src/script.cpp:2054-2067 | codes 4 and 5 stand for the point that the short key with 2 or 3 stands for; without one the script is empty |
| ScriptCompressor.PlainForm | src/script.h:646-658 | any other script follows its length plus six |
| ScriptCompressor.RoundTrip | src/script.h:646-673 | every script comes back from its compact form, and exactly its bytes are read |
| CoinsCodec.ReadMaskBack | src/coins.h:175-200 | the number of nonzero mask bytes is enough to find the end of the mask and every output's bit |
| CoinsCodec.MaskFigures | src/coins.h:175-184 | the bits of a mask byte, least significant first, are the next eight outputs |
| CoinsCodec.AvailableSomewhere | src/coins.h:160-164 | the assertion before writing holds if and only if not all outputs are spent |
| CoinsCodec.CodeBits | src/coins.h:165-199 | the code gives back its three flags and the count |
| CoinsCodec.MoneyFits | src/core.h:262-285 | every amount of money, and every amount below a ninth of 2^64, has a compact form of 64 bits |
| CoinsCodec.OutRoundTrip | src/core.h:262-285 | an output whose amount, negative or not, has a compact form of 64 bits comes back |
| CoinsCodec.CoinsRoundTrip | src/coins.h:157-218 | what is not pruned comes back trimmed, with exactly the written bytes read; the version exactly when it is not negative |
| CoinsCodec.FirstExample | src/coins.h:34-46 | the first example of the comment is what is written, for any key hash, but for the height |
| CoinsCodec.SecondExample | src/coins.h:49-66 | and so is the second |
| CoinsStream.CCoins.CalcMaskSize | src/coins.cpp:12-28 | the last used mask byte and the number of nonzero ones |
| CoinsStream.CCoins.Cleanup | src/coins.h:92-97 | drops spent outputs from the end |
| CoinsStream.CCoins.Serialize | src/coins.h:157-184 | the loops write that encoding, whatever the amounts |
| CoinsStream.CCoins.Unserialize | src/coins.h:186-218 | the loops read it into the fields; false exactly when the stream ends too early |
| Base58.DecodeEncode | src/base58.h:34-126 | every byte string comes back from its text, leading zeros included |
| Base58.EncodeDecode | src/base58.h:34-126 | every text over the alphabet comes back from its bytes |
| Base58.AlphabetOrder | src/base58.h:31 | the alphabet is all digits and letters but 0, I, O and l, in order |
| Base58.SpaceCodes | src/base58.h:88-98 | white space is what isspace accepts: six characters |
| Base58.SameNumber | src/base58.h:34-72 | a text is the same number in base 58 as its bytes in base 256, both most significant first, with as many leading ones as there are leading zeros |
| Base58.SpacesAround | src/base58.h:82-108 | white space around the text makes no difference |
| Base58.OnlySpacesAround | src/base58.h:82-108 | nothing else is accepted |
| Base58.EncodeBase58 | src/base58.h:34-72 | the division loop writes that text |
| Base58.BytesOfBignum | src/base58.h:110-115 | trimming the sign byte leaves the shortest bytes of the number |
| Base58.DecodeBase58 | src/base58.h:82-127 | the loops read it; false exactly on text that is not accepted |
| Framing.StreamParsed | src/net.cpp:630-656 | a stream can be cut into messages in one way only |
| Framing.ParsedStream | src/net.cpp:630-656 | cutting loses no byte; only the last message may be incomplete |
| Framing.ParsedPrefix | src/net.cpp:630-656 | what was complete stays the same when more arrives |
| Framing.FramedParsed | src/net.h:483-522 | messages up to MAX_SIZE are cut out exactly as they were framed |
| Framing.PartlyArrived | src/net.cpp:630-656 | any part of the stream is accepted and its complete messages are the first ones sent |
| Framing.CommandBytes | src/protocol.cpp:31-37 | a command is its letters and zeros up to twelve bytes, of a longer one the first twelve; up to the first zero they read back |
| Framing.DeliveredCarries | src/net.h:483-522 | in the bytes of a framed message: magic at 0 to 4, command at 4 to 16 with zeros behind it, size at 16 to 20, checksum at 20 to 24, then the data |
| Net.CNetMessage.ReadHeader | src/net.cpp:658-688 | takes what the header still needs; -1 exactly when the complete header announces more than MAX_SIZE |
| Net.CNetMessage.ReadData | src/net.cpp:690-699 | takes what the message still needs |
| Net.CReceiver.ReceiveMsgBytes | src/net.cpp:630-656 | the messages are those of the whole stream so far, however it was cut; fails exactly when a header in it announces too much |
| Net.CSender.SendEntries | src/net.cpp:714-743 | the queue is sent in order until the socket does not take all of an entry; what was taken plus what is left stays the same, and offset and size are those of what is left |
| Net.CSender.SocketSendData | src/net.cpp:710-751 | what was taken plus what is queued stays the same, sizes match the queue, and all three assertions hold |
| Net.CSender.BeginMessage | src/net.h:464-470 | starts a message with the magic, the command, readable up to the first zero, and an empty size and checksum |
| Net.CSender.PushMessage | src/net.h:527-684 | a message with this command and any number of parts is framed as one and added to what was taken plus what is queued |
| Net.CSender.EndMessage | src/net.h:483-522 | size and checksum are filled in, and the message is added to what was taken plus what is queued |
| Net.ReceiveFrom | src/net.cpp:630-656 | a receiver fed the bytes on the wire in any pieces never objects, has the first messages sent, and all of them once it has all the bytes; each complete one has the magic, the command, the size and the checksum of the letter sent, and its data |
| Messages.IsValid | src/protocol.cpp:47-75 | true exactly for this network's magic, a printable command with nothing but zeros behind it, and a size up to MAX_SIZE |
| Messages.GetCommand | src/protocol.cpp:39-45 | the text before the first zero if the last byte is zero, and otherwise all twelve bytes; of a valid command its text |
| Messages.GoodCarries | src/main.cpp:3273-3302 | a message passes all tests of the handler if and only if it carries a letter with a printable command, and then it is that letter |
| Messages.ProcessMessages | src/main.cpp:3231-3349 | passes over complete messages with errors in header or checksum, ends the connection at another network's magic, and handles the first good one; what is behind that, or incomplete, stays |
| Messages.TurnReaches | src/main.cpp:3231-3349 | of messages that are what has come in from a sender, a turn handles the next letter if it is complete and does nothing otherwise |
| Messages.ServeAll | src/net.cpp:1527-1545 | whatever pieces the bytes of a sender come in and whenever the handler has its turns, it handles the letters in the order sent, each once and unchanged, and in the end all that have come in |

## Left out

Code that is not modelled:

- Select_ of the address manager: a random search without a bound, over floating-point odds.
- Loading a manager file with another number of new buckets, versions and keys in that file, and the bytes of the file: the file is a record of its entries and indexes.
- fQuit of the verification queue, which nothing sets, and notifications of workers: a sleeping worker may wake up at any time, which includes every lost or spurious wakeup.
- Signature hashes, elliptic curves and hash functions: parameters, with the one law about short public keys that src/script.cpp relies on (`ScriptCompressor.Curve.Lawful`). Injectivity of the hash is a premise only where a lemma says so.
- SerializeScriptCode, CBlock and CTransaction streams, CTxInUndo and undo data; `m_location` of CCoins, which is not written either; GetSerializeSize of CCoins.
- Scripts and signature operation counts in ConnectBlock: one boolean `others`. Time, proof of work, Merkle root and signature operation counts in CheckBlock, and a block's serialized size (a transaction's is checked).
- The coins view below the cache, Flush and best-block hashes.
- AddToBlockIndex and its late re-linking, AcceptBlock, ProcessBlock and orphans: chains start from a well-formed tree. resetChains.
- Side effects of UpdateTip other than the new tip: notifications, logging, wallets, version warnings.
- Fees, priorities, floating point and the wallet-facing tests of AcceptToMemoryPool.
- What ProcessMessage does with a message, and shutting a connection down while it is handled; pending replies and a full send buffer are one boolean of each turn.
- The debugging options that drop or fuzz messages, locks, sockets as system objects, and statistics other than the byte count.
- Databases, files, RPC, user interface, network addresses, filters, the checkpoint list: plumbing over other libraries, or only easy members.

Where the code and its documentation disagree the model follows the code:

- src/main.h:449 says at most 2*N-1 flag bits; one-child nodes need more (`PartialMerkle.BitBoundCounterexample`).
- src/coins.h:19-29 documents a height at the end of serialized coins; the code writes none.
- src/serialize.h:260-261 shows encodings of 16511 and 65535 that are those of 32895 and 65407 (`VarInt.Examples`).
- src/main.h:57 declares a coinbase maturity that nothing checks when a block connects; the model has none.
- src/addrman.cpp:133 says that SelectTried finds the least recently tried of the entries it inspects; it returns the place that entry was picked from, where another one stands by then (`AddrMan.SelectsNewer`, `AddrMan.SelectedIsOldest`).
- src/main.h:420-422 says that a partial tree gives back its list of txids in an authenticated way. The number of transactions is received too, and that holds for some numbers only (`PartialMerkleShapes.SoundExactly`).
- src/checkqueue.h:168-172 asserts equal counts without the mutex, which can fail while a worker is in its section (`CheckQueue.ControlReads`, `CheckQueue.LateWake`).
- Signed overflow, which C++ leaves undefined, is modelled as wrap-around in ConnectBlock and GetValueIn.

Contracts stated weaker or with a premise:

- AddrMan.CAddrMan.Good_: requires a positive time, because an entry with success time 0 would be tried without a success.
- AddrMan.CAddrMan.Attempt_: requires a time that is not negative, because the consistency check refuses a negative nLastTry; nAttempts is an unbounded integer.
- AddrManFile.Read: only files that a consistent manager wrote, with 256 new buckets.
- AddrManFile.ReadTried: the same files.
- AddrMan.CAddrMan.Check_: only states that no error is reported in states the invariant allows, not that every other state is reported.
- ChainSelect.BlockChains.ActivateBestChain: requires that every failed candidate off the active chain is outranked by an eligible one, which is exactly when the retry loop ends (`BlockTree.SettlesExactly`); that both chains agree at entry; and that the tree has one root.
- ChainSelect.BlockChains.FindMostWorkChain: with FindCandidate, requires the same of the candidates.
- Chain.CChain.GetLocator: the step is an unbounded integer; it is below twice the height, so 32 bits hold it for all heights below 2^30.
- CheckQueue.NextInv: counters are unbounded integers, and there is one master, thread 0.
- CheckQueue.ControlReads: the constructor's reads are taken at one moment.
- CoinsCodec.CoinsRoundTrip: requires amounts whose compact form has 64 bits (all money has, `CoinsCodec.MoneyFits`) and sizes that fit 32 bits; what larger amounts become is not claimed.
- ScriptVerify.CombinedVerifies: requires that no signature is itself one of the keys, because the check deletes signatures from the script before it verifies them; elements of at most 520 bytes; and at most 16 keys, as the opcodes for small numbers allow.
- PartialMerkleShapes.SoundExactly: requires an injective hash, different txids, and that no txid is the hash of a pair, without which more can pass for a txid (`PartialMerkleShapes.TwoForOne`).
- Mempool.CTxMemPool.Remove: requires a ranking of ids by ancestry, which exists because ids are hashes of what they name; and that an id names one transaction.
- Mempool.CTxMemPool.AcceptToMemoryPool: every test that does not look at the pool is one boolean argument.
- Mempool.CTxMemPool.AddUnchecked: requires what its caller has checked, no second spender and no second copy.
- Net.CSender.EndMessage: one message at a time; its size field keeps the low 32 bits.
- ScriptStandard.KeyHashVerifies: with KeyVerifies and ScriptHashVerifies, for elements of at most 520 bytes and signature scripts of at most 10000 bytes that only push; no others can be run.
- ScriptStandard.MultisigHashVerifies: requires what ScriptVerify.CombinedVerifies requires.
- ScriptEval.EvalScript: starts from a stack within the limits, as every stack does that VerifyScript passes on; ECDSA is the parameter.
- Chain.CChain.SetTip: a block's hash and its index entry are one thing.
- UtxoChain.MoneySupply: requires fees within 64 bits in every block, without which it is false (`UtxoOverflow.SupplyExceeded`); heights below 64 halvings, where the shift is defined; and a halving interval of at most 210000.
- UtxoChain.ConnectBlock: scripts and signature operation counts are one boolean argument; which blocks it accepts is stated in exact numbers for fees within 64 bits and at most MAX_MONEY unspent (`UtxoChain.BalancedConnects`), outside of which `UtxoChain.BlockCreates` says what goes wrong.
- Messages.ServeAll: every command sent is printable and at most twelve bytes long, as all commands of the program are; a handler that never gets a turn handles nothing.
- Utxo.CheckBlock: size, proof of work, time, Merkle root and signature operation counts are left out.
- UtxoState.ApplyTotal: an inequality, because outputs that can never be spent and overwritten outputs lose money; `UtxoChain.ApplyBalance` is the equation.
