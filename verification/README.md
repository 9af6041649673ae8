# btclite: a verified model of its core

btclite is a small Bitcoin node. This project models its hard cores in Dafny and proves what they are for:

- **Block tree and active chain** (`SkipList`, `BlockTree`, `ActiveChain`, `ChainStates`). Entries are objects with a
  ghost path to their root. Every insertion keeps the forest, its skip pointers, its work sums and its best header in
  order; the skip-list walk agrees with the plain walk over parents and takes few steps; the array of the active chain
  is the path of its tip although `SetTip` stops early; locators and fork points are what they should be.
- **Compact targets and work** (`CompactTarget`, `BlockHeaders`). The shift-and-mask code against the number a compact
  value denotes: error bound, canonical forms, monotonicity, an exact overflow flag, and the work quotient computed
  inside 256 bits.
- **Peer tables** (`PeerTables`). A map, two tables by group and a shuffled list agree after every operation.
- **Wire format** (`Endian`, `Serialization`, `Transactions`, `StreamIO`). Writers and readers against encodings that
  are inverse to each other in both directions, and the size formula.
- **Messages and handshake** (`Messages`, `Handshake`, `Deliveries`, `Nodes`). The framing loop against a
  specification of one pass over the buffer; the version/verack state machine against a description of what a whole
  history of events implies; and both together over a run of reads: which streams of frames are handed over.
- **Merkle root, scripts, subnets, median** (`HexText`, `Merkle`, `Scripts`, `SubNets`, `Medians`).

`Bits` and `Bytes` hold the bit operations and the fixed-width types: integers are unbounded, so widths, wrap-around
and truncation are written out. A `dafny verify dfyconfig.toml` in this directory checks everything.

## How to read the model

Code that changes things step by step is a class or a method with a loop, proved against a function of its inputs or
of its old state; what the code promises is then proved about that function. Hash functions, the keyed hashes of the
peer tables, payload decoders, the clock, random draws, shuffles and the iteration order of hash tables are parameters.

Where the code and what one would expect of it part, the code is kept and the exact condition is proved:

- A header that names its own hash as parent becomes its own parent: the tree stays in order exactly when the added
  header is not one (`ChainStates.ChainState.AddToBlockIndex`).
- A compact value survives decoding and encoding exactly when it is canonical (`CompactTarget.EncodeDecode`).
- The framing loop drops a header before it knows that its payload has arrived: frames that arrive in any number of
  reads are all handed over exactly when no read ends inside a payload and the connection is not disconnected while
  frames are still to come (`Deliveries.ReadsDeliver`). A read disconnects exactly when a version message in it is
  turned away and no verack in it comes after an accepted version (`Deliveries.ReadDisconnects`), so once a version is
  recorded the first condition alone is exact (`Deliveries.RecordedReadsDeliver`).
- Being disconnected is not final: a disconnected connection stays so exactly unless the next event is a verack after
  an accepted version (`Handshake.StaysDisconnected`), and after a whole history it is disconnected exactly when
  something touched it and no completed handshake stands (`Handshake.DisconnectedIff`).
- A locator fits its 32 entries exactly up to height 2^21 + 9 (`ActiveChain.LocatorFits`).
- A Merkle root does not determine its leaves: two lists have one root exactly when they are the same once the deeper
  one is raised to the depth of the other and both are filled up by repeating, or two texts have one hash
  (`Merkle.RootsAgree`). An odd list may repeat its last hash (`Merkle.LengthMatters`), and an inner node may pass for
  a leaf (`Merkle.InnerNodeAsLeaf`).
- The list of pushed byte strings is recovered exactly when none is empty and none has 2^32 bytes or more
  (`Scripts.ListRecovered`).
- A script number decodes to the number its sign and magnitude mean exactly unless it has four bytes with the sign bit
  set, which decode 2^32 too high, because the fourth byte is shifted into the sign of a 32-bit int
  (`Scripts.DecodedIffSignMagnitude`, `Scripts.FourNegativeBytes`).
- `FindFork` misses a higher fork exactly when the given entry lies above `Height()`, which wraps at 2^32, and the
  entry of its path just above that is on the chain (`ActiveChain.Chain.FindFork`).
- A stored time stamp is lowered by an announcement exactly when that lies within the first hour of the epoch, or the
  first day, where the comparison wraps below zero (`PeerTables.TimestampFalls`).
- The ban flag is set exactly when some partial sum of penalties, compared as unsigned, has reached the threshold
  (`Handshake.BanIffReached`).

## Model

| member | source | states |
|---|---|---|
| `SkipList.InvertLowestOne` | src/chain/include/block_index.h:211-214 | `n & (n - 1)` is the number without its lowest one bit, by a recursive definition that uses no mask |
| `SkipList.GetSkipHeight` | src/chain/include/block_index.h:217-227 | the masked expression is the skip height by that definition, for odd and even heights |
| `SkipList.EvenSkipMeans` | src/chain/include/block_index.h:222-227 | the skip height of an even height (2q + 1) * 2^k is 2q * 2^k |
| `SkipList.OddSkipMeans` | src/chain/include/block_index.h:222-227 | the skip height of an odd height with at least two more one bits: the two lowest of them are lost |
| `SkipList.OneBitSkipMeans` | src/chain/include/block_index.h:222-227 | the skip height of 2^k + 1 is 1 |
| `SkipList.ClearsOneBit` | src/chain/include/block_index.h:210-214 | clearing gives a smaller number with exactly one bit less |
| `SkipList.SkipHeightIsLower` | src/chain/include/block_index.h:222-227 | a skip pointer leads strictly down from every height but 0 |
| `SkipList.OddStepsToRoot` | src/chain/src/block_index.cpp:33-50 | from an odd height the walk to the root takes at most as many iterations as the height has one bits |
| `SkipList.StepsToRoot` | src/chain/src/block_index.cpp:33-50 | from any height the walk to the root takes at most the number of one bits plus one iterations |
| `SkipList.StepReducesPotential` | src/chain/src/block_index.cpp:36-49 | every iteration, to any target, uses up some of a quadratic potential in the bits where walk and target differ |
| `SkipList.StepsAreFew` | src/chain/src/block_index.cpp:33-50 | between any two heights below 2^b the walk takes at most b * b iterations |
| `BlockTree.BlockIndex.GetAncestor` | src/chain/src/block_index.cpp:27-53 | in every forest whose skip pointers are null or right, the walk returns the entry of the path at the height, null iff the height is above, in exactly the number of steps analysed in `SkipList` once the pointers are built; an entry that is its own parent is also covered |
| `BlockTree.PathIsParentWalk` | src/chain/src/block_index.cpp:33-50 | the path lists exactly what following parent pointers, one at a time, reaches |
| `BlockTree.LinkedParents` | src/chain/include/block_index.h:182-189 | in a forest parents are members, one lower, and roots have height 0 |
| `BlockTree.SamePathBelow` | src/chain/src/chain_state.cpp:14-18 | two paths that meet at a height are the same below it |
| `BlockTree.BlockIndex.BuildSkip` | src/chain/include/block_index.h:78-83 | the skip pointer becomes the ancestor at the skip height, null if that is above the parent, the parent itself if that is its own parent; without a parent it stays |
| `BlockTree.BlockIndex.RaiseValidity` | src/chain/src/block_index.cpp:55-70 | raises iff neither failure flag is set and the level, the status modulo 8, is lower; then exactly the level changes, else nothing |
| `BlockTree.RaisingMeans` | src/chain/src/block_index.cpp:55-70 | the masked tests and the masked update as arithmetic on the status |
| `BlockTree.FailedStays` | src/chain/src/block_index.cpp:60-62 | a status with bit 5 or bit 6 set is left as it is |
| `BlockTree.RaisingIsMonotone` | src/chain/src/block_index.cpp:55-70 | the level never falls, all other bits stay, a failed entry stays as it is, and raising twice is raising once |
| `BlockTree.StatusFields` | src/chain/src/block_index.cpp:64-65 | the masks split the status into a level below 8 and the bits above |
| `ActiveChain.Chain.SetTip` | src/chain/src/chain_state.cpp:7-19 | the array is the whole path of the new tip, although the loop stops at the first slot that agrees |
| `ActiveChain.Chain.ExistsIffListed` | src/chain/include/chain_state.h:51-54 | the test by height finds exactly the entries that the array lists |
| `ActiveChain.Chain.ChainHoldsPath` | src/chain/include/chain_state.h:51-54 | an entry is in the chain only if the array up to it is its own path |
| `ActiveChain.Chain.GetLocator` | src/chain/src/chain_state.cpp:21-53 | on or off the active chain, the locator lists the hashes of the ancestors at the locator's heights, ending with the root; without a start it begins at the tip, and is empty for an empty chain |
| `ActiveChain.Chain.WalkLocator` | src/chain/src/chain_state.cpp:34-50 | the loop, with its doubling step, for one start |
| `ActiveChain.Chain.StepBack` | src/chain/src/chain_state.cpp:41-47 | the array and the skip list give the same ancestor |
| `ActiveChain.LocatorDepthIncreases` | src/chain/src/chain_state.cpp:40-49 | each entry lies deeper than the one before |
| `ActiveChain.LocatorFits` | src/chain/src/chain_state.cpp:29-50 | at most 32 entries exactly when the start height is at most 2^21 + 9 |
| `ActiveChain.NextLocatorHeight` | src/chain/src/chain_state.cpp:40-49 | the clamped step leads from each locator height to the next, and the step doubles from the eleventh entry on |
| `ActiveChain.Chain.FindFork` | src/chain/src/chain_state.cpp:55-68 | the result is the highest entry up to `Height()` that is on the chain and on the path of the given one, null exactly when there is none; nothing higher at all is on both exactly when the given entry is not above `Height()` or the next entry of its path is not on the chain, and always with at most 2^32 blocks |
| `ActiveChain.Chain.SearchDown` | src/chain/src/chain_state.cpp:64-65 | the loop ends at the first entry going down that is on the chain |
| `ActiveChain.Chain.FirstAbove` | src/chain/src/chain_state.cpp:55-68 | a path meets the chain above a height exactly when it does so one above that height |
| `ActiveChain.Chain.LongChainHidesTip` | src/chain/src/chain_state.cpp:61-62 | with more than 2^32 blocks the tip itself lies on the chain above `Height()`, which is the failing case |
| `ChainStates.ChainState.constructor` | src/chain/src/chain_state.cpp:92-127 | an empty tree is in order |
| `ChainStates.ChainState.AddToBlockIndex` | src/chain/src/chain_state.cpp:92-127 | duplicates change nothing; a new header gets a new entry under its hash, whose parent is the known entry of the hash it names, with height, work and validity level from that; it becomes best header iff it has more work; everything in `Valid` (keys, heights, skip pointers, work, earliest best header, active chain) holds after it exactly when the header does not name its own hash as parent |
| `ChainStates.ChainState.LinkEntry` | src/chain/src/chain_state.cpp:107-114 | the new entry goes on top of its parent if that is known, else becomes a root, or becomes its own parent |
| `ChainStates.ChainState.MakeEntry` | src/chain/src/chain_state.cpp:101-117 | the entry that the tree can take, with its work and its validity level |
| `ChainStates.ChainState.Register` | src/chain/src/chain_state.cpp:107-124 | map, dirty set and best header after an entry is entered, and when the whole is in order |
| `ChainStates.GrowTree` | src/chain/src/chain_state.cpp:109-116 | an entry on top leaves forest, skip pointers, parents and work of all entries right |
| `ChainStates.GrowBest` | src/chain/src/chain_state.cpp:119-122 | comparing with `<` keeps the earliest entry of maximal work |
| `ChainStates.GrowKeyed` | src/chain/src/chain_state.cpp:107-108 | entries stay keyed by their own hash, each once |
| `ChainStates.WorkIsExact` | src/chain/src/chain_state.cpp:115-116 | the stored work is the sum of the proofs along the path exactly while that sum is below 2^256 |
| `ChainStates.OwnParentFits` | src/chain/src/chain_state.cpp:109-113 | no tree in order holds an entry that is its own parent |
| `ChainStates.ChainState.ConnectTip` | src/chain/src/chain_state.cpp:7-19 | connecting a block whose parent is the tip appends it to the active chain and changes nothing else |
| `CompactTarget.Compact.LogicalSize` | src/consensus/src/compact.cpp:38-46 | the loop counts the bytes of the value |
| `CompactTarget.Compact.SetCompact` | src/consensus/src/compact.cpp:48-65 | the shifted value is the number denoted, modulo 2^256; it is negative exactly when bit 23 is set and the number is not zero, and overflows exactly when the number does not fit |
| `CompactTarget.Wrap256IsMod` | src/consensus/src/compact.cpp:57-58 | cutting a shifted value off at 256 bits is the remainder modulo 2^256 |
| `CompactTarget.DecodeMeans` | src/consensus/src/compact.cpp:48-61 | number and sign by quotient, remainder and parity of the compact number: (c mod 2^23) * 256^(c / 2^24) / 2^24, and bit 23 |
| `CompactTarget.Compact.GetCompact` | src/consensus/src/compact.cpp:67-87 | shifts, sign correction and composition give the encoding; both assertions hold |
| `CompactTarget.Compact.FromCompact` | src/consensus/src/compact.cpp:6-10 | value and flags of a compact number, each by arithmetic on it, and its re-encoding |
| `CompactTarget.Compact.FromNormal` | src/consensus/src/compact.cpp:12-16 | a 256-bit value and its encoding |
| `CompactTarget.DenotedMeans` | src/consensus/src/compact.cpp:53-59 | the two shift branches are one formula: mantissa * 256^exponent / 2^24, rounded down |
| `CompactTarget.FieldBits` | src/consensus/src/compact.cpp:50-61 | the masks and shifts give exponent, mantissa and sign by division and remainder |
| `CompactTarget.EncodingMeans` | src/consensus/src/compact.cpp:67-86 | the mantissa encoded is the value's leading part, in [2^15, 2^23) |
| `CompactTarget.DecodeEncode` | src/consensus/src/compact.cpp:48-87 | encoding then decoding any n > 0 gives t <= n with (n - t) * 2^15 < n |
| `CompactTarget.EncodeIdempotent` | src/consensus/src/compact.cpp:48-87 | encoding the decoded value again gives the same compact number |
| `CompactTarget.EncodeMonotone` | src/consensus/src/compact.cpp:67-87 | a larger value never has a smaller encoding |
| `CompactTarget.EncodeDecode` | src/consensus/src/compact.cpp:48-87 | decoding then encoding gives the compact number back exactly when it is canonical |
| `CompactTarget.EncodingIsCanonical` | src/consensus/src/compact.cpp:67-87 | every encoding is canonical |
| `CompactTarget.OverflowExact` | src/consensus/src/compact.cpp:62-64 | the flag is set exactly when the number denoted does not fit in 256 bits, for every 32-bit input |
| `CompactTarget.EncodeFits` | src/consensus/src/compact.cpp:84-86 | the assertions of the encoder hold, and an encoding is neither negative nor overflowing |
| `BlockHeaders.GetBlockProof` | src/consensus/src/block.cpp:48-64 | the result p is zero exactly when the sign bit is set or the target t is zero or at least 2^256, else p * (t + 1) <= 2^256 < (p + 1) * (t + 1); no intermediate is over 256 bits |
| `BlockHeaders.ProofMeans` | src/consensus/src/block.cpp:48-64 | the same of the function that the chain work adds up |
| `BlockHeaders.ProofIdentity` | src/consensus/src/block.cpp:59-63 | ~t / (t + 1) + 1 is the quotient, and lies strictly between 0 and 2^256 |
| `BlockHeaders.WorkIsAntitone` | src/consensus/src/block.cpp:48-64 | a larger target never has more work |
| `PeerTables.Peers.constructor` | src/network/src/peers.cpp:41-46 | empty tables agree |
| `PeerTables.Peers.Add` | src/network/src/peers.cpp:48-135 | every branch, with the whole new map and tables; the four structures agree afterwards |
| `PeerTables.Peers.AddKnown` | src/network/src/peers.cpp:64-100 | a known peer is refreshed, or taken out of map, table and order when terrible |
| `PeerTables.Peers.Refresh` | src/network/src/peers.cpp:79-99 | the steps of the update, without and with news |
| `PeerTables.RefreshedMeans` | src/network/src/peers.cpp:85-97 | with news, each service bit is set iff it was stored or announced, the time stamp moves exactly when it lags by more than an hour, or a day for old news, plus the penalty, and all else stays |
| `PeerTables.RefreshedWithoutNews` | src/network/src/peers.cpp:79-83 | without news the whole stored peer stays |
| `PeerTables.TimestampFalls` | src/network/src/peers.cpp:85-93 | a stored time stamp falls exactly when the one announced is within its first hour, or day, so that the difference wraps in 32 bits |
| `PeerTables.KeptIff` | src/network/src/peers.cpp:12-37 | which peers are not terrible, by the ages of their last try, time stamp and last success and the number of attempts |
| `PeerTables.TerribleStays` | src/network/src/peers.cpp:12-37 | a terrible peer stays so as time passes, unless its time stamp lay ahead |
| `PeerTables.Peers.MakeRoom` | src/network/src/peers.cpp:102-116 | a terrible representative of the group is removed, any other keeps the group |
| `PeerTables.Peers.Evict` | src/network/src/peers.cpp:68-77 | removal from one table, the map and the order leaves them in agreement |
| `PeerTables.Peers.MakeTried` | src/network/src/peers.cpp:152-185 | which peers move, what is recorded, that an older tried entry of the group stays, and that an address with another port changes nothing |
| `PeerTables.Peers.EraseRand` | src/network/src/peers.cpp:446-459 | swap with the last and pop removes exactly one occurrence |
| `PeerTables.Peers.Find` | src/network/src/peers.cpp:242-269 | what is found, and in which table it is listed under its own key |
| `PeerTables.Peers.FindExact` | src/network/src/peers.cpp:341-346 | an address is found iff its key is stored with the same IP and the same port |
| `PeerTables.Peers.FindSameGroup` | src/network/src/peers.cpp:283-310 | an entry always leads to a stored peer of that group |
| `PeerTables.Peers.Select` | src/network/src/peers.cpp:187-221 | succeeds exactly when a usable table is not empty, and returns a stored peer of the group drawn |
| `PeerTables.Peers.Advance` | src/network/src/peers.cpp:187-221 | the iterator loop ends at the position drawn and never runs off the end |
| `PeerTables.Peers.GetAddrs` | src/network/src/peers.cpp:354-372 | appends the addresses of the usable ones among the first n shuffled keys, all with different IPs, where n is 2500 or, if less, 23 per cent of the map rounded down; the order stays a listing of the map |
| `PeerTables.SelectedAreDistinct` | src/network/src/peers.cpp:354-372 | distinct keys of stored peers have distinct IPs |
| `PeerTables.UsableIsFilter` | src/network/src/peers.cpp:354-372 | what is selected is exactly the stored peers that are not terrible, each once |
| `PeerTables.OnceEach` | src/network/src/peers.cpp:354-372 | the order has no repetition and as many keys as the map |
| `PeerTables.AgreeWithout` | src/network/src/peers.cpp:105-116 | the agreement of the four structures survives the removal of a peer |
| `PeerTables.Peers.Store` | src/network/src/peers.cpp:152-175 | a stored peer may be replaced by one with the same IP |
| `PeerTables.Peers.SetServices` | src/network/src/peers.cpp:223-240 | changes only the services of the peer with that exact address |
| `PeerTables.Peers.Attempt` | src/network/src/peers.cpp:312-331 | changes only the last try and the count of attempts of the peer with that exact address |
| `PeerTables.Peers.UpdateTime` | src/network/src/peers.cpp:333-352 | changes only the timestamp, and only when it is more than twenty minutes older |
| `PeerTables.Peers.Clear` | src/network/src/peers.cpp:408-415 | empties all four structures together |
| `Endian.ToLittleEndian` | src/utility/include/util_endian.h:24-33 | the loop fills the buffer with the low bytes, lowest first |
| `Endian.FromLittleEndian` | src/utility/include/util_endian.h:50-63 | shifting and or-ing the bytes gives the number they stand for |
| `Endian.ByteAt` | src/utility/include/util_endian.h:24-33 | byte i is n / 256^i modulo 256 |
| `Endian.ValueOfBytes` | src/utility/include/util_endian.h:24-63 | reading the bytes of a number that fits gives it back |
| `Endian.BytesOfValue` | src/utility/include/util_endian.h:24-63 | writing the number read gives the bytes back |
| `Serialization.IntRoundTrip` | src/utility/include/serialize.h:189-196 | an integer written in k bytes is read back, and the rest is left |
| `Serialization.IntCanonical` | src/utility/include/serialize.h:189-196 | writing what was read reproduces the bytes consumed |
| `Serialization.VarIntLength` | src/utility/src/serialize.cpp:7-17 | the size function is the number of bytes written |
| `Serialization.VarIntLayout` | src/utility/include/serialize.h:169-187 | length, first byte and every further byte of the encoding, for each of the four ranges |
| `Serialization.VarIntRoundTrip` | src/utility/include/serialize.h:403-436 | a number up to 2^25 is read back, a larger one is rejected |
| `Serialization.VarIntCanonical` | src/utility/include/serialize.h:403-436 | only the shortest form is accepted: writing what was read reproduces the bytes consumed |
| `Serialization.ByteVectorRoundTrip` | src/utility/include/serialize.h:324-345 | a byte vector within the limit is read back |
| `Serialization.ByteVectorCanonical` | src/utility/include/serialize.h:324-345 | writing the vector read reproduces the bytes consumed |
| `Serialization.VectorRoundTrip` | src/utility/include/serialize.h:367-386 | a vector of values whose own reader inverts their writer is read back |
| `Serialization.VectorCanonical` | src/utility/include/serialize.h:367-386 | and what is read, written again, reproduces the bytes consumed |
| `Serialization.VectorLayout` | src/utility/include/serialize.h:138-146 | the number of elements, then each element behind those before it |
| `Serialization.ByteSink.Write` | src/utility/include/blob.h:29-34 | appends and changes nothing before |
| `Serialization.ByteSource.Read` | src/utility/include/blob.h:62-77 | gives as many bytes as there are, up to the size, moves past exactly these and answers their number, or -1 at the end |
| `Transactions.TransactionRoundTrip` | src/consensus/src/transaction.cpp:388-406 | every transaction within the size limits is read back as written, and the following bytes are untouched |
| `Transactions.TransactionCanonical` | src/consensus/src/transaction.cpp:398-406 | the reader accepts only what the writer produces |
| `Transactions.TransactionUnambiguous` | src/consensus/src/transaction.cpp:388-406 | no encoding is the beginning of another one's |
| `Transactions.TransactionSizeExact` | src/consensus/src/transaction.cpp:480-496 | a transaction writes exactly as many bytes as `SerializedSize` says |
| `Transactions.HeaderRoundTrip` | src/consensus/include/block.h:72-94 | every block header is read back as written |
| `Transactions.HeaderCanonical` | src/consensus/include/block.h:84-94 | writing the header read reproduces the bytes consumed |
| `Transactions.BlockRoundTrip` | src/consensus/include/block.h:116-129 | every block within the size limits is read back as written, and the following bytes are untouched |
| `Transactions.BlockCanonical` | src/consensus/include/block.h:123-129 | the reader of blocks accepts only what the writer produces |
| `Transactions.TxOutLayout` | src/consensus/include/transaction.h:181-187 | value in bytes 0 to 7, then the script behind its size |
| `Transactions.TxInLayout` | src/consensus/include/transaction.h:108-115 | hash in bytes 0 to 31, index in 32 to 35, the script behind its size, the sequence number in the last four |
| `Transactions.TransactionLayout` | src/consensus/src/transaction.cpp:388-396 | version first, inputs before outputs, lock time last |
| `Transactions.HeaderLayout` | src/consensus/include/block.h:72-82 | each field of a block header by byte position, 80 bytes in all |
| `Transactions.BlockLayout` | src/consensus/include/block.h:116-122 | the header in bytes 0 to 79, then the transactions behind their number |
| `Transactions.OutPointRoundTrip` | src/consensus/include/transaction.h:55-69 | an out point is read back as written |
| `Transactions.TxInRoundTrip` | src/consensus/include/transaction.h:108-124 | an input is read back as written |
| `Transactions.TxOutRoundTrip` | src/consensus/include/transaction.h:181-195 | an output is read back as written |
| `StreamIO.WriteInt` | src/utility/include/serialize.h:189-196 | the lowest-level writer appends the little-endian bytes |
| `StreamIO.WriteVarInt` | src/utility/include/serialize.h:169-187 | the four branches append the encoding |
| `StreamIO.WriteByteVector` | src/utility/include/serialize.h:119-127 | size, then the bytes if there are any |
| `StreamIO.WriteVector` | src/utility/include/serialize.h:138-146 | the loop over the elements appends the encoding of the whole vector |
| `StreamIO.WriteTxIn` | src/consensus/include/transaction.h:108-115 | the fields in order append the encoding of the input |
| `StreamIO.WriteTxOut` | src/consensus/include/transaction.h:181-187 | the fields in order append the encoding of the output |
| `StreamIO.WriteTransaction` | src/consensus/src/transaction.cpp:388-396 | the fields in order append the encoding, `SerializedSize` bytes in all |
| `StreamIO.WriteHeader` | src/consensus/include/block.h:72-82 | the fields in order append the encoding of the header |
| `StreamIO.WriteBlock` | src/consensus/include/block.h:116-122 | header and transactions append the encoding of the block |
| `StreamIO.ReadInt` | src/utility/include/serialize.h:438-447 | value and position of the cursor are what parsing gives |
| `StreamIO.ReadVarInt` | src/utility/include/serialize.h:403-436 | value, exception and position of the cursor are what parsing gives |
| `StreamIO.ReadBytes` | src/utility/include/serialize.h:310-345 | the loop reads byte by byte what parsing gives |
| `StreamIO.ReadByteVector` | src/utility/include/serialize.h:324-345 | size and bytes as parsing gives them |
| `StreamIO.ReadAll` | src/utility/include/serialize.h:377-383 | the loop over the elements reads what parsing them one after the other gives, or fails as that does |
| `StreamIO.ReadTxIn` | src/consensus/include/transaction.h:117-124 | the fields in order, as parsing gives them |
| `StreamIO.ReadTxOut` | src/consensus/include/transaction.h:189-195 | the fields in order, as parsing gives them |
| `StreamIO.ReadTransaction` | src/consensus/src/transaction.cpp:398-406 | the fields in order, as parsing gives them |
| `StreamIO.ReadHeader` | src/consensus/include/block.h:84-94 | the fields in order, as parsing gives them |
| `StreamIO.ReadBlock` | src/consensus/include/block.h:123-129 | header and transactions, as parsing gives them |
| `Messages.CommandRoundTrip` | src/network/src/protocol/message.cpp:124-136 | a command is read back as it was set exactly when it fits twelve bytes and contains no NUL |
| `Messages.CommandAt` | src/network/src/protocol/message.cpp:124-136 | the command field by position: cut off at twelve characters, filled up with zeros |
| `Messages.MessageHeaderRoundTrip` | src/network/include/protocol/message.h:68-86 | a message header is read back as written |
| `Messages.MessageHeaderCanonical` | src/network/include/protocol/message.h:78-86 | the first 24 bytes are the encoding of the header read from them |
| `Messages.MessageHeaderLayout` | src/network/include/protocol/message.h:68-76 | each of the 24 bytes of a message header |
| `Messages.FromRaw` | src/network/src/protocol/message.cpp:26-35 | reading the fields in order from a stream over the raw bytes gives the header at the front of the buffer |
| `Messages.WriteMessageHeader` | src/network/include/protocol/message.h:68-76 | the fields in order append the encoding of the header |
| `Messages.ScanFrames` | src/network/src/msg_process.cpp:137-165 | complete good frames are handed over once each, in order, and the pass goes on behind them |
| `Messages.ScanConserves` | src/network/src/msg_process.cpp:137-165 | every byte is handed over, left in the buffer, or part of the one header that ended the pass, for each way in which it can end |
| `Messages.EmptiedIffFrames` | src/network/src/msg_process.cpp:137-165 | the buffer is emptied with these frames handed over exactly when it is their concatenation and all are good |
| `Messages.CutPass` | src/network/src/msg_process.cpp:137-164 | for every cut of a stream of good frames: the pass over the bytes before it hands over exactly the frames that are whole in them, keeps the beginning of the next one if that is less than a header, and loses a header exactly if the cut is inside a payload |
| `Messages.SentIsGood` | src/network/include/msg_process.h:61-70 | what `SendMsg` frames is taken by the other side exactly when the payload is at most 4,000,000 bytes |
| `Handshake.HistoryExplains` | src/network/src/protocol/version.cpp:37-110 | after every sequence of messages and disconnections: the version is that of the first acceptable version message; the state is established exactly when a verack came after it and nothing disconnected since; the score counts the offences; the ban flag is set exactly from 100 on |
| `Handshake.InitialIffUntouched` | src/network/src/protocol/version.cpp:52-94 | the connection leaves its initial state exactly when something disconnects it, a version message is turned away, or a verack completes the handshake |
| `Handshake.DisconnectedIff` | src/network/src/protocol/version.cpp:52-94 | after every history the connection is disconnected exactly when something has touched it and no completed handshake stands uncut |
| `Handshake.StaysDisconnected` | src/network/src/protocol/verack.cpp:39 | a disconnected connection stays disconnected exactly unless the next event is a well-formed verack after an accepted version |
| `Handshake.VersionIsFinal` | src/network/src/protocol/version.cpp:43-47 | a recorded version never changes and is at least 31800 |
| `Handshake.VersionRecordedIff` | src/network/src/protocol/version.cpp:43-110 | before a version is recorded, a version message is recorded exactly under the tests on its header, its data, the clock and the connection, each by value and by bit |
| `Handshake.RecvVersionMeans` | src/network/src/protocol/version.cpp:43-110 | what the handler changes, field by field, and what it answers, in the three cases of a repeated, a rejected and an accepted version |
| `Handshake.HandlersInTurn` | src/network/include/msg_process.h:37-44 | no handler but version's and verack's runs unless the handshake is complete, and verack's not before an accepted version |
| `Handshake.SentIsAdmitted` | src/network/include/msg_process.h:24-62 | the header that `SendMsg` makes, with its checksum, passes the tests of the other side and runs the handler exactly when the network is known, the length in bounds, the checksum that of the data, the data valid, and it is its turn |
| `Handshake.HandledCommands` | src/network/src/msg_process.cpp:39-105 | the commands that have a branch in dispatch besides version and verack, all of them valid in a header |
| `Handshake.ScoreCounts` | src/network/src/protocol/message.cpp:165-177 | one point for each repeated or early well-formed message and for nothing else; the hundredth sets the ban flag |
| `Handshake.BanIffReached` | src/network/src/node.cpp:68-84 | for all penalties, of either sign and any size: the score is their sum, and the ban flag is set exactly when some partial sum, compared as unsigned, has reached the threshold |
| `Handshake.BanIffThreshold` | src/network/src/node.cpp:68-84 | for penalties that are not negative and stay below 2^31 in all, this is exactly that the final score has reached the threshold |
| `Handshake.VerackRevives` | src/network/src/protocol/verack.cpp:39 | a concrete case: a version, a disconnection and a verack end in an established connection |
| `Handshake.DesirableBits` | src/network/include/node.h:106-108 | the masked test asks for the network bit and the witness bit |
| `Handshake.WitnessBit` | src/network/src/protocol/version.cpp:108-110 | the masked test asks for bit 3 |
| `Handshake.ForkBits` | src/network/src/protocol/version.cpp:66 | the masked test asks for bit 5 or bit 7 |
| `Deliveries.ReadsDeliver` | src/network/src/msg_process.cpp:128-164 | for every connection, history and stream of good frames, in any number of reads: the history gains exactly these frames, once each and in order, and no disconnection, exactly when no read ends inside a payload and the connection is not disconnected while frames are to come |
| `Deliveries.ReadDisconnects` | src/network/src/msg_process.cpp:131-164 | the frames of a read leave an open connection disconnected exactly when they hold a version message that is turned away, none having been accepted before, and no verack after an accepted version |
| `Deliveries.RecordedReadsDeliver` | src/network/src/msg_process.cpp:128-164 | once a version is recorded on an open connection, all frames are handed over exactly when no read ends inside a payload |
| `Deliveries.RejectedVersionStops` | src/network/src/msg_process.cpp:131-132 | after a version message that is turned away, the frame of the next read stays in the buffer although no read ends inside a payload |
| `Deliveries.SentVerackEstablishes` | src/network/include/msg_process.h:47-92 | the bytes of a sent verack, in one read, complete the handshake of a side that has recorded a version |
| `Deliveries.ClosedTakesNothing` | src/network/src/msg_process.cpp:131-132 | a disconnected connection only collects bytes, whatever arrives |
| `Deliveries.ReadsTakeBytes` | src/network/src/msg_process.cpp:137-164 | whatever arrives, the frames handed over in several reads take no more bytes than arrived, and fewer after a lost header |
| `Nodes.Node.constructor` | src/network/include/node.h:128-148 | a fresh connection agrees with the empty history |
| `Nodes.Node.ParseMsg` | src/network/src/msg_process.cpp:116-168 | the loop hands over exactly the frames of one pass, leaves what the pass leaves, disconnects at oversized and foreign frames, and answers true exactly when the buffer was drained and every handler did; the fields stay what the history implies |
| `Nodes.Node.Receive` | src/network/src/msg_process.cpp:116-168 | bytes arrive and the parser runs: history and buffer become what the model of one read says, disconnected or not |
| `Nodes.Node.ReceiveAll` | src/network/src/msg_process.cpp:116-168 | the same for a run of reads, so that frames are handed over exactly under the conditions of `Deliveries.ReadsDeliver` |
| `Nodes.Node.TakeFrame` | src/network/src/msg_process.cpp:138-164 | one iteration: the frame taken, or why not; at least 24 bytes go |
| `Nodes.Node.ParseMsgData` | src/network/src/msg_process.cpp:23-114 | dispatch by command, with the checks before a handler |
| `Nodes.Node.Gate` | src/network/include/msg_process.h:24-42 | checksum, validity and order, in this order; only the last costs a point |
| `Nodes.Node.CheckMisbehaving` | src/network/src/protocol/message.cpp:165-177 | which commands may run in which state |
| `Nodes.Node.HandleVersion` | src/network/src/protocol/version.cpp:37-110 | every branch, with the whole new state of the connection |
| `Nodes.Node.HandleVerack` | src/network/src/protocol/verack.cpp:39 | establishes, whatever the state was |
| `Nodes.Node.Misbehaving` | src/network/src/node.cpp:68-84 | score and ban flag after a penalty |
| `Nodes.Node.Disconnect` | src/network/include/node.h:172-175 | sets the state, and the history says so |
| `Nodes.Node.SendMsg` | src/network/include/msg_process.h:47-92 | one frame is appended to the output exactly when there is a connection, the size is right and the write succeeds; its header has the magic, the low 32 bits of the length and the checksum given, and reads as the command exactly when that fits twelve bytes without NUL |
| `Nodes.Node.SentArrives` | src/network/src/msg_process.cpp:116-168 | what one side sent is what the other side's pass hands over, with nothing left |
| `HexText.EncodeHex` | src/utility/include/string_encoding.h:53-70 | the loop writes two digits a byte, with spaces between if asked for |
| `HexText.HexAt` | src/utility/include/string_encoding.h:53-70 | the two digits of byte i stand at position 2 * i, or 3 * i behind a space |
| `HexText.DigitCodes` | src/utility/include/string_encoding.h:53-70 | the digits are the high and the low half, by their character codes, in lower case |
| `HexText.HexInjective` | src/utility/include/string_encoding.h:53-70 | different byte strings have different texts, with and without spaces |
| `Merkle.ComputeMerkleRoot` | src/consensus/src/block.cpp:234-257 | for every non-empty list the level-by-level loop ends, and its result is the root of the tree defined from the top down; for one leaf that is the leaf, for two the hash of the text that spells the first and then the second |
| `Merkle.NextLevel` | src/consensus/src/block.cpp:243-253 | one level in two vectors, the last hash repeated on odd levels |
| `Merkle.HashPair` | src/consensus/src/block.cpp:247-249 | hashes a text of 128 characters that spells, two digits a byte, the first hash from its last byte to its first and then the second |
| `Merkle.PairTextAt` | src/consensus/src/block.cpp:247-249 | every character of that text, by its code |
| `Merkle.NodeOfLevel` | src/consensus/src/block.cpp:242-253 | a tree over a list is the tree one level lower over the list's next level |
| `Merkle.NodeOfCompleted` | src/consensus/src/block.cpp:242-253 | filling a level up to a power of two, by repeating where the tree repeats, leaves its node the same |
| `Merkle.LevelUpPadded` | src/consensus/src/block.cpp:243-245 | repeating the last of an odd number of nodes does not change the next level |
| `Merkle.RootBinds` | src/consensus/src/block.cpp:234-257 | two lists of one length with one root are the same, or exhibit two different texts with the same hash |
| `Merkle.NodesAgree` | src/consensus/src/block.cpp:234-257 | for any function of pairs and any two non-empty lists: one root exactly when the filled-up lists at the smaller depth are the same, or a collision of the function |
| `Merkle.RootsAgree` | src/consensus/src/block.cpp:234-257 | the same for the pair hash: one root exactly when the filled-up lists are the same, or two different texts with one hash |
| `Merkle.PairTextInjective` | src/consensus/src/block.cpp:247-249 | the text of a pair determines both hashes |
| `Merkle.LengthMatters` | src/consensus/src/block.cpp:243-245 | a failing case at one depth: an odd list of three or more has the root of the list with its last hash repeated |
| `Merkle.InnerNodeAsLeaf` | src/consensus/src/block.cpp:234-257 | a failing case across depths: the list of one inner node has the root of its two leaves |
| `Scripts.Script.PushBytes` | src/consensus/src/script.cpp:135-159 | the four length classes append opcode, length and data |
| `Scripts.PrefixLayout` | src/consensus/src/script.cpp:135-159 | opcode and length bytes for each of the four length classes |
| `Scripts.Script.PopOpcode` | src/consensus/src/script.cpp:166-176 | gives the next opcode and moves past it, unless the script has ended |
| `Scripts.Script.PopBytes` | src/consensus/src/script.cpp:178-211 | finds the data behind an opcode; the position moves past the length but not past the data, also when the data is cut short, and stays where it is when there is no length |
| `Scripts.PopIff` | src/consensus/src/script.cpp:178-211 | data are popped exactly behind an opcode from 1 to 78 and when they are all there; how many, and where they lie |
| `Scripts.Script.PushList` | src/consensus/src/script.cpp:135-159 | pushes a list of byte strings one after the other |
| `Scripts.PopPushed` | src/consensus/src/script.cpp:135-211 | anywhere in a script, the data pop returns the pushed bytes exactly when there is at least one and there are fewer than 2^32 |
| `Scripts.ListRecovered` | src/consensus/src/script.cpp:135-211 | for every list: popping opcode and data and moving on by the length recovers it exactly when none of its strings is empty or has 2^32 bytes or more |
| `Scripts.BytesEncoding` | src/consensus/src/script.cpp:64-93 | the loop gives the magnitude, with a zero byte where the top bit would read as a sign: bytes of that value, sign bit clear, minimal |
| `Scripts.Decode` | src/consensus/src/script.cpp:12-48 | the loop of shifts and the sign handling, in 64 bits, give sign and magnitude, or the exact exception |
| `Scripts.DecodedIffSignMagnitude` | src/consensus/src/script.cpp:37-47 | bytes decode to the number their sign and magnitude mean exactly unless there are four with the sign bit set |
| `Scripts.FourNegativeBytes` | src/consensus/src/script.cpp:37-47 | the failing case: the bytes of -2^24 decode to 2^32 - 2^24 |
| `Scripts.IntegerRoundTrip` | src/consensus/src/script.cpp:12-93 | a positive number strictly decodes to itself exactly below 2^31; a larger one overflows, and is never rejected as not minimal |
| `Scripts.StrictIsCanonical` | src/consensus/src/script.cpp:19-35 | the strict decoder reads a positive number from its own encoding and no other bytes |
| `Scripts.MinimalIsShortest` | src/consensus/src/script.cpp:19-35 | the strict decoder accepts bytes, of either sign, exactly when no shorter bytes mean the same number |
| `Scripts.PushInt` | src/consensus/src/script.cpp:115-123 | -1 becomes the byte 0x4f, 0 the byte 0x00, 1 to 16 the byte 0x50 + n, the others byte strings |
| `Scripts.IntegerPopped` | src/consensus/src/script.cpp:115-211 | a number from 17 to 2^31 - 1 that was pushed is popped as bytes that strictly decode to it |
| `Scripts.SignBit` | src/consensus/src/script.cpp:43-46 | clearing the sign bit subtracts it |
| `SubNets.SubNet.FromPrefix` | src/network/src/network_address.cpp:651-673 | valid iff the length is in range; then exactly the first n bits of the mask are set, n + 96 for an IPv4-mapped address, else all; the address is masked and stays of its kind |
| `SubNets.SubNet.FromAddress` | src/network/src/network_address.cpp:639-643 | a full mask, valid iff the address is |
| `SubNets.SubNet.FromMask` | src/network/src/network_address.cpp:675-690 | which bytes of the mask are used, and the address under it |
| `SubNets.KindsByNumber` | src/network/src/network_address.cpp:84-100 | IPv4-mapped, internal and other IPv6 addresses by their leading bits, the address read as one number |
| `SubNets.ValidByNumber` | src/network/src/network_address.cpp:210-245 | the valid addresses, as numbers: six conditions, none of which names a prefix |
| `SubNets.SubNet.Normalize` | src/network/src/network_address.cpp:670-672 | the loop masks the address |
| `SubNets.SubNet.Match` | src/network/src/network_address.cpp:704-714 | matches exactly the valid addresses that agree with the original address on the bits of the mask, if the subnet is valid |
| `SubNets.MaskedIff` | src/network/src/network_address.cpp:709-711 | comparing masked bytes is comparing the bits of the mask |
| `SubNets.AgreeOnPrefix` | src/network/src/network_address.cpp:709-711 | under a prefix mask this means the first n bits |
| `SubNets.ClearMaskBit` | src/network/src/network_address.cpp:666 | the byte-wise operation clears exactly one bit of the 128 |
| `SubNets.StaysMapped` | src/network/src/network_address.cpp:670-672 | masking neither makes nor unmakes an IPv4-mapped address |
| `SubNets.NetmaskBitsMeans` | src/network/src/network_address.cpp:763-789 | the nine bytes of the table are those with their ones in front, and the table counts them |
| `SubNets.SubNet.PrefixCount` | src/network/src/network_address.cpp:716-734 | for every mask: the count printed is the number of ones when they are all in front, and none is printed when they are not |
| `SubNets.PrefixRoundTrip` | src/network/src/network_address.cpp:651-751 | the prefix length that made the subnet is the one printed |
| `SubNets.PrefixIsUnique` | src/network/src/network_address.cpp:716-734 | a mask has at most one prefix length |
| `Medians.MedianFilter.constructor` | src/utility/include/util.h:129-135 | the filter starts with the initial value |
| `Medians.MedianFilter.Input` | src/utility/include/util.h:156-167 | values stay the last N samples, the initial one included, and `sorted` their sorted permutation |
| `Medians.MedianFilter.Median` | src/utility/include/util.h:169-181 | of any sorted permutation of the last samples: the middle one, or half the sum of the two middle ones, rounded towards zero; wherever more than half of the samples lie, it lies too |
| `Medians.MedianIsMiddle` | src/utility/include/util.h:174-180 | the difference between the sum of the two middle elements and twice the median is at most one and never of the opposite sign to the sum |
| `Medians.MajorityHoldsMedian` | src/utility/include/util.h:169-181 | if more than half of the elements lie in [a, b], so does the median |
| `Medians.SortedIsSorted` | src/utility/include/util.h:164-166 | sorting gives a sorted permutation |
| `Medians.SortedIsUnique` | src/utility/include/util.h:164-166 | and there is only one, however it is computed |

## Left out

- Sockets, buffers of libevent, threads and locks, timers, DNS, logging, configuration and files; an event buffer is a sequence of bytes.
- SHA-256 and the keyed hashes of the peer tables: they are functions without properties, except that equal map keys are assumed to mean equal groups, which `PeerTables.Peers.constructor` requires.
- Heights are unbounded: that a height is narrowed to `int` from 2^31 on in the skip arithmetic and in the locator's step is not modelled.
- ActiveChain.Chain.GetLocator: a null output pointer is not modelled.
- `BlockIndex::IsValid`, sequence numbers, `ReceivedBlockTransactions`, `LoadGenesisBlock` and the candidate sets.
- PeerTables.Peers.Select: the draws and the iteration order of the hash tables are arguments.
- PeerTables.Peers.GetAddrs: the shuffled order is an argument, and the clock is read once for a call.
- `Peers::ParseFromIstream`, which does not rebuild the shuffled list, and `Peers::Add` for a vector, which calls `Add` for each address.
- Serialization.ByteVectorRoundTrip: vectors over 1 MB are read although the source also interrupts the process then.
- StreamIO.ReadInt: after a short read the source goes on with what the buffer held before; the model stops. The varint is read as zero-extended, although its variable starts without a value.
- StreamIO.ReadAll: elements are read by a function that stands for their own reader, as the template parameter does; the methods for inputs and outputs are proved against those functions.
- Byte counts returned by `Deserialize`, strings, floats, and vectors of strings on the wire.
- Witness data: the flag of `Transaction::Serialize` is not used by the source.
- Nodes.Node.ParseMsgData: the decoders of payloads are parameters, and exceptions that they throw are not modelled.
- Nodes.Node.HandleVersion: messages sent in answer, the address filter, the peer tables and the time offset it also touches are not part of the state.
- Nodes.Node.HandleVerack: the messages it sends and the timers it starts.
- Nodes.Node.Disconnect: the callbacks registered for changes of state.
- Nodes.Node.Misbehaving: the score is unbounded; only its comparison is unsigned.
- Nodes.Node.ReceiveAll: reads are parsed one after the other; the thread pool that runs the parser is not modelled.
- Handlers other than version's and verack's: they do not touch the state modelled here, and their answers are parameters.
- `SerializedSize` of version and reject messages with over-long strings.
- Merkle.ComputeMerkleRoot: for an empty list the source reads from an empty vector, so the list must not be empty.
- Scripts.BytesEncoding: from 2^63 on the source shifts a negative number for ever; the argument must be smaller.
- Scripts.IntegerPopped: numbers up to 16 are opcodes and have no data to pop.
- Script opcodes other than pushes, and script evaluation.
- SubNets.SubNet.PrefixCount: of `ToString` only the count is modelled, not the text.
- Medians.MedianFilter.Median: the sum of the two middle samples is unbounded; `std::sort` is a function.
- The orphan pool, ban list, ring buffer, ping timing, getters and setters, and everything disabled by the preprocessor.
