/** The block tree as it grows header by header, with its best header and its active chain. */
module ChainStates {
  import opened Bytes
  import opened CompactTarget
  import opened BlockHeaders
  import opened SkipList
  import opened BlockTree
  import opened ActiveChain

  // The work of all headers on a path.
  ghost function WorkSum(path: seq<BlockIndex>): nat {
    if path == [] then 0
    else WorkSum(path[..|path| - 1]) + BlockProof(path[|path| - 1].header.bits)
  }

  lemma {:induction false} WrapSum(a: nat, b: nat)
    ensures Wrap256(Wrap256(a) + b) == Wrap256(a + b)
  {
    if a >= LIMIT {
      WrapSum(a - LIMIT, b);
    }
  }

  /** As long as the sum fits in 256 bits, the stored work is the sum itself. */
  lemma WorkIsExact(b: BlockIndex)
    requires b.chainWork == Wrap256(WorkSum(b.path))
    ensures WorkSum(b.path) < LIMIT <==> b.chainWork == WorkSum(b.path)
  {
  }

  ghost predicate NoneHasHash(log: seq<BlockIndex>, h: Hash256)
    reads log
  {
    forall b :: b in log ==> b.blockHash != h
  }

  // Entry i of the log has its parent by the rule of the source: the entry that its header names as
  // parent if that was added before, otherwise none, and so for good.
  ghost predicate ParentRule(log: seq<BlockIndex>, i: nat)
    requires i < |log|
    reads log
  {
    var b := log[i];
    if b.pprev == null
    then NoneHasHash(log[..i], b.header.prevBlockHash)
    else b.pprev in log[..i] && b.pprev.blockHash == b.header.prevBlockHash
  }

  ghost predicate WorkRule(b: BlockIndex)
    reads b
  {
    b.chainWork == Wrap256(WorkSum(b.path))
  }

  // The earliest of the entries with the most work.
  ghost predicate IsBest(log: seq<BlockIndex>, k: nat)
    reads log
  {
    k < |log| &&
    (forall j :: 0 <= j < k ==> log[j].chainWork < log[k].chainWork) &&
    (forall j :: k <= j < |log| ==> log[j].chainWork <= log[k].chainWork)
  }

  ghost predicate BestOf(log: seq<BlockIndex>, best: BlockIndex?, k: nat)
    reads log
  {
    if log == [] then best == null else IsBest(log, k) && best == log[k]
  }

  ghost function Entries(log: seq<BlockIndex>): set<BlockIndex> {
    set b | b in log
  }

  ghost predicate MappedEntry(blocks: map<Hash256, BlockIndex>, h: Hash256, log: seq<BlockIndex>)
    requires h in blocks
    reads blocks[h]
  {
    blocks[h] in log && blocks[h].blockHash == h
  }

  ghost predicate LoggedEntry(blocks: map<Hash256, BlockIndex>, b: BlockIndex, hashOf: BlockHeader -> Hash256)
    reads b
  {
    b.blockHash == hashOf(b.header) && b.blockHash in blocks && blocks[b.blockHash] == b
  }

  // Entries are keyed by their own hashes, each once.
  ghost predicate Keyed(blocks: map<Hash256, BlockIndex>, log: seq<BlockIndex>, hashOf: BlockHeader -> Hash256)
    reads log, blocks.Values
  {
    (forall h {:trigger MappedEntry(blocks, h, log)} :: h in blocks ==> MappedEntry(blocks, h, log)) &&
    (forall b {:trigger LoggedEntry(blocks, b, hashOf)} :: b in log ==> LoggedEntry(blocks, b, hashOf))
  }

  // The log is a forest with all skip pointers built, parents by the rule, and summed-up work.
  ghost predicate TreeValid(log: seq<BlockIndex>)
    reads log
  {
    Linked(Entries(log)) && SkipsGood(Entries(log)) && SkipsBuilt(Entries(log)) &&
    (forall i {:trigger ParentRule(log, i)} :: 0 <= i < |log| ==> ParentRule(log, i) && WorkRule(log[i]))
  }

  // Where AddToBlockIndex puts the entry of a header that is not its own parent ...
  ghost predicate LinkedOnTop(b: BlockIndex, log: seq<BlockIndex>)
    reads log, b`pprev, b`pskip, b`height, b`path
  {
    b !in log &&
    if b.pprev == null
    then b.height == 0 && b.path == [b] && b.pskip == null && NoneHasHash(log, b.header.prevBlockHash)
    else b.pprev in log && b.pprev.blockHash == b.header.prevBlockHash &&
         b.height == b.pprev.height + 1 && b.path == b.pprev.path + [b] &&
         SkipHeight(b.height) < |b.pprev.path| && b.pskip == b.pprev.path[SkipHeight(b.height)]
  }

  // ... and the work it gives it.
  ghost predicate WorkOnTop(b: BlockIndex)
    reads b, b.pprev
  {
    b.chainWork == Wrap256((if b.pprev != null then b.pprev.chainWork else 0) + BlockProof(b.header.bits))
  }

  ghost predicate FitsOnTop(b: BlockIndex, log: seq<BlockIndex>)
    reads log, b, b.pprev
  {
    LinkedOnTop(b, log) && WorkOnTop(b)
  }

  lemma GrowLinked(b: BlockIndex, log: seq<BlockIndex>)
    requires Linked(Entries(log)) && FitsOnTop(b, log)
    ensures Linked(Entries(log + [b]))
  {
    var small, large := Entries(log), Entries(log + [b]);
    forall c | c in large
      ensures c.Placed(large)
    {
      if c in log {
        assert c.Placed(small);
      } else {
        assert c == b;
        if b.pprev != null { assert b.pprev.Placed(small); }
      }
    }
  }

  lemma GrowSkips(b: BlockIndex, log: seq<BlockIndex>)
    requires Linked(Entries(log)) && SkipsGood(Entries(log)) && SkipsBuilt(Entries(log)) && FitsOnTop(b, log)
    ensures SkipsGood(Entries(log + [b])) && SkipsBuilt(Entries(log + [b]))
  {
    forall c | c in Entries(log + [b])
      ensures c.SkipGood() && (c.height > 0 ==> c.pskip != null)
    {
      if c in log {
        assert c.SkipGood();
      } else {
        assert c == b;
        if b.pprev != null {
          assert b.pprev.Placed(Entries(log));
          SkipHeightIsLower(b.height);
        }
      }
    }
  }

  lemma GrowWork(b: BlockIndex, log: seq<BlockIndex>)
    requires FitsOnTop(b, log)
    requires b.pprev != null ==> WorkRule(b.pprev)
    ensures WorkRule(b)
  {
    var proof := BlockProof(b.header.bits);
    if b.pprev == null {
      assert WorkSum(b.path[..0]) == 0;
    } else {
      assert b.path[..|b.path| - 1] == b.pprev.path;
      WrapSum(WorkSum(b.pprev.path), proof);
    }
  }

  /** A new entry on top leaves everything said of the tree true. */
  lemma GrowTree(b: BlockIndex, log: seq<BlockIndex>)
    requires TreeValid(log) && FitsOnTop(b, log)
    ensures TreeValid(log + [b])
  {
    var grown := log + [b];
    GrowLinked(b, log);
    GrowSkips(b, log);
    if b.pprev != null {
      var j :| 0 <= j < |log| && log[j] == b.pprev;
      assert ParentRule(log, j) && WorkRule(log[j]);
    }
    GrowWork(b, log);
    forall i {:trigger ParentRule(grown, i)} | 0 <= i < |grown|
      ensures ParentRule(grown, i) && WorkRule(grown[i])
    {
      assert grown[..i] == log[..i];
      if i < |log| { assert grown[i] == log[i] && ParentRule(log, i) && WorkRule(log[i]); }
    }
  }

  lemma GrowKeyed(b: BlockIndex, blocks: map<Hash256, BlockIndex>, log: seq<BlockIndex>,
                  hashOf: BlockHeader -> Hash256)
    requires Keyed(blocks, log, hashOf) && b.blockHash == hashOf(b.header) && b.blockHash !in blocks
    ensures Keyed(blocks[b.blockHash := b], log + [b], hashOf)
  {
    var grown, all := blocks[b.blockHash := b], log + [b];
    forall h | h in grown
      ensures MappedEntry(grown, h, all)
    {
      if h != b.blockHash { assert MappedEntry(blocks, h, log); }
    }
    forall c | c in all
      ensures LoggedEntry(grown, c, hashOf)
    {
      if c != b { assert LoggedEntry(blocks, c, hashOf); }
    }
  }

  lemma UnknownHash(h: Hash256, blocks: map<Hash256, BlockIndex>, log: seq<BlockIndex>,
                    hashOf: BlockHeader -> Hash256)
    requires Keyed(blocks, log, hashOf) && h !in blocks
    ensures NoneHasHash(log, h)
  {
    forall b | b in log
      ensures b.blockHash != h
    {
      assert LoggedEntry(blocks, b, hashOf);
    }
  }

  lemma GrowBest(b: BlockIndex, log: seq<BlockIndex>, best: BlockIndex?, k: nat)
    requires BestOf(log, best, k)
    ensures if best == null || best.chainWork < b.chainWork then BestOf(log + [b], b, |log|)
            else BestOf(log + [b], best, k)
  {
  }

  lemma EntriesAppend(log: seq<BlockIndex>, b: BlockIndex)
    ensures Entries(log + [b]) == Entries(log) + {b}
  {
  }

  lemma GrowChain(c: Chain, log: seq<BlockIndex>, grown: seq<BlockIndex>)
    requires c.Valid(Entries(log)) && TreeValid(grown) && log <= grown
    ensures c.Valid(Entries(grown))
  {
    assert forall b :: b in log ==> b in grown;
  }

  lemma FreshStatus()
    ensures RaisedStatus(0, BLOCK_VALID_TREE) == BLOCK_VALID_TREE
  {
    StatusFields(0, BLOCK_VALID_TREE);
  }

  // An entry that is its own parent has no place in any forest.
  lemma OwnParentFits(b: BlockIndex, log: seq<BlockIndex>)
    requires b in log && b.pprev == b
    ensures !TreeValid(log)
  {
    assert !b.Placed(Entries(log));
  }

  // Map, log and active chain agree.
  ghost predicate InOrder(blocks: map<Hash256, BlockIndex>, log: seq<BlockIndex>, hashOf: BlockHeader -> Hash256,
                          chain: Chain)
    reads log, blocks.Values, chain
  {
    Keyed(blocks, log, hashOf) && TreeValid(log) && chain.Valid(Entries(log))
  }

  lemma GrowOrder(b: BlockIndex, blocks: map<Hash256, BlockIndex>, log: seq<BlockIndex>,
                  hashOf: BlockHeader -> Hash256, chain: Chain)
    requires InOrder(blocks, log, hashOf, chain) && b.blockHash == hashOf(b.header) && b.blockHash !in blocks
    requires b.pprev == b || FitsOnTop(b, log)
    ensures InOrder(blocks[b.blockHash := b], log + [b], hashOf, chain) <==> b.pprev != b
  {
    if b.pprev != b {
      GrowKeyed(b, blocks, log, hashOf);
      GrowTree(b, log);
      GrowChain(chain, log, log + [b]);
    } else {
      OwnParentFits(b, log + [b]);
    }
  }

  // All of it: the best header too.
  ghost predicate Whole(blocks: map<Hash256, BlockIndex>, log: seq<BlockIndex>, hashOf: BlockHeader -> Hash256,
                        chain: Chain, best: BlockIndex?, at: nat)
    reads log, blocks.Values, chain
  {
    InOrder(blocks, log, hashOf, chain) && BestOf(log, best, at)
  }

  // The best header and its place once an entry is added.
  ghost function BestWith(b: BlockIndex, log: seq<BlockIndex>, best: BlockIndex?, at: nat): (r: (BlockIndex, nat))
    reads b, best
  {
    if best == null || best.chainWork < b.chainWork then (b, |log|) else (best, at)
  }

  lemma GrowWhole(b: BlockIndex, blocks: map<Hash256, BlockIndex>, log: seq<BlockIndex>,
                  hashOf: BlockHeader -> Hash256, chain: Chain, best: BlockIndex?, at: nat)
    requires Whole(blocks, log, hashOf, chain, best, at) && b.blockHash == hashOf(b.header) && b.blockHash !in blocks
    requires b.pprev == b || FitsOnTop(b, log)
    ensures var r := BestWith(b, log, best, at);
            Whole(blocks[b.blockHash := b], log + [b], hashOf, chain, r.0, r.1) <==> b.pprev != b
  {
    GrowOrder(b, blocks, log, hashOf, chain);
    GrowBest(b, log, best, at);
  }

  // The parent on top of which an entry fits is the one that the map has under its hash.
  lemma ParentByMap(b: BlockIndex, blocks: map<Hash256, BlockIndex>, log: seq<BlockIndex>,
                    hashOf: BlockHeader -> Hash256)
    requires Keyed(blocks, log, hashOf) && LinkedOnTop(b, log)
    ensures b.pprev == if b.header.prevBlockHash in blocks then blocks[b.header.prevBlockHash] else null
  {
    var prev := b.header.prevBlockHash;
    if prev in blocks { assert MappedEntry(blocks, prev, log); }
    if b.pprev != null { assert LoggedEntry(blocks, b.pprev, hashOf); }
  }

  class ChainState {
    const hashOf: BlockHeader -> Hash256
    const activeChain: Chain
    var mapBlockIndex: map<Hash256, BlockIndex>
    var dirty: set<BlockIndex>
    var bestHeader: BlockIndex?

    // All entries in the order in which they were added, and the place of the best header in it.
    ghost var log: seq<BlockIndex>
    ghost var bestAt: nat

    constructor (hashOf: BlockHeader -> Hash256)
      ensures Valid() && fresh(activeChain) && log == [] && this.hashOf == hashOf
      ensures mapBlockIndex == map[] && bestHeader == null && activeChain.active == []
    {
      this.hashOf := hashOf;
      activeChain := new Chain();
      mapBlockIndex, dirty, bestHeader := map[], {}, null;
      log, bestAt := [], 0;
    }

    ghost predicate Valid()
      reads this, log, mapBlockIndex.Values, activeChain
    {
      Whole(mapBlockIndex, log, hashOf, activeChain, bestHeader, bestAt) && dirty == Entries(log)
    }

    // Links a new entry to its parent if that is known, counting the entry itself.
    method LinkEntry(pindex: BlockIndex)
      requires Keyed(mapBlockIndex, log, hashOf) && Linked(Entries(log)) && SkipsGood(Entries(log))
      requires pindex !in log && pindex.blockHash !in mapBlockIndex
      requires pindex.pprev == null && pindex.pskip == null && pindex.height == 0 && pindex.path == [pindex]
      modifies pindex`pprev, pindex`height, pindex`pskip, pindex`path
      ensures if pindex.header.prevBlockHash == pindex.blockHash then pindex.pprev == pindex
              else LinkedOnTop(pindex, log)
    {
      ghost var forest := Entries(log);
      var prev := pindex.header.prevBlockHash;
      var blocks := mapBlockIndex[pindex.blockHash := pindex];
      if prev !in blocks {
        UnknownHash(prev, mapBlockIndex, log, hashOf);
      } else {
        if prev != pindex.blockHash { assert MappedEntry(mapBlockIndex, prev, log); }
        pindex.pprev := blocks[prev];
        pindex.height := pindex.pprev.height + 1;
        assert Linked(forest) == old(Linked(forest)) && SkipsGood(forest) == old(SkipsGood(forest));
        if pindex.pprev != pindex {
          WalkStep(pindex.pprev, pindex.pprev.height, forest);
          SkipHeightIsLower(pindex.height);
        }
        pindex.BuildSkip(forest);
        pindex.path := pindex.pprev.path + [pindex];
      }
    }

    // The new entry of a header.
    method MakeEntry(header: BlockHeader, hash: Hash256) returns (pindex: BlockIndex)
      requires Keyed(mapBlockIndex, log, hashOf) && Linked(Entries(log)) && SkipsGood(Entries(log))
      requires hash == hashOf(header) && hash !in mapBlockIndex
      ensures fresh(pindex) && pindex.header == header && pindex.blockHash == hash
      ensures pindex.status == 2
      ensures if header.prevBlockHash == hash then pindex.pprev == pindex else FitsOnTop(pindex, log)
    {
      pindex := new BlockIndex(header);
      assert pindex !in log;
      pindex.blockHash := hash;
      ghost var forest := Entries(log);
      assert Linked(forest) == old(Linked(forest)) && SkipsGood(forest) == old(SkipsGood(forest));
      assert Keyed(mapBlockIndex, log, hashOf) == old(Keyed(mapBlockIndex, log, hashOf));
      LinkEntry(pindex);
      label Linking:
      var proof := GetBlockProof(header);
      pindex.chainWork := Wrap256((if pindex.pprev != null then pindex.pprev.chainWork else 0) + proof);
      FreshStatus();
      var raised := pindex.RaiseValidity(BLOCK_VALID_TREE);
      assert LinkedOnTop(pindex, log) == old@Linking(LinkedOnTop(pindex, log));
    }

    // Enters a new entry into the map, the set of dirty entries and, if it has more work, as best header.
    method Register(pindex: BlockIndex)
      requires Valid() && pindex.blockHash == hashOf(pindex.header) && pindex.blockHash !in mapBlockIndex
      requires pindex.pprev == pindex || FitsOnTop(pindex, log)
      modifies this
      ensures log == old(log) + [pindex] && mapBlockIndex == old(mapBlockIndex)[pindex.blockHash := pindex]
      ensures dirty == old(dirty) + {pindex}
      ensures bestHeader == if old(bestHeader == null || bestHeader.chainWork < pindex.chainWork) then pindex
                            else old(bestHeader)
      ensures Valid() <==> pindex.pprev != pindex
    {
      GrowWhole(pindex, mapBlockIndex, log, hashOf, activeChain, bestHeader, bestAt);
      EntriesAppend(log, pindex);
      ghost var known, longer := mapBlockIndex[pindex.blockHash := pindex], log + [pindex];
      ghost var best := BestWith(pindex, log, bestHeader, bestAt);
      label Before:
      mapBlockIndex := mapBlockIndex[pindex.blockHash := pindex];
      if bestHeader == null || bestHeader.chainWork < pindex.chainWork {
        bestHeader := pindex;
        bestAt := |log|;
      }
      dirty := dirty + {pindex};
      log := log + [pindex];
      assert Whole(known, longer, hashOf, activeChain, best.0, best.1) ==
             old@Before(Whole(known, longer, hashOf, activeChain, best.0, best.1));
    }

    /** Adds the entry of a header unless it is known. The tree stays in order exactly if the header
        does not name its own hash as parent. */
    method AddToBlockIndex(header: BlockHeader) returns (pindex: BlockIndex)
      requires Valid()
      modifies this
      ensures hashOf(header) in old(mapBlockIndex) ==>
                pindex == old(mapBlockIndex)[hashOf(header)] && log == old(log) &&
                mapBlockIndex == old(mapBlockIndex) && bestHeader == old(bestHeader) && dirty == old(dirty)
      ensures hashOf(header) !in old(mapBlockIndex) ==>
                fresh(pindex) && pindex.header == header && log == old(log) + [pindex] &&
                mapBlockIndex == old(mapBlockIndex)[hashOf(header) := pindex] && dirty == old(dirty) + {pindex} &&
                pindex.blockHash == hashOf(header) && pindex.status == 2
      ensures hashOf(header) !in old(mapBlockIndex) && header.prevBlockHash != hashOf(header) ==>
                var known := header.prevBlockHash in old(mapBlockIndex);
                var prev := if known then old(mapBlockIndex)[header.prevBlockHash] else null;
                && pindex.pprev == prev
                && pindex.height == (if prev == null then 0 else prev.height + 1)
                && pindex.chainWork == Wrap256((if prev == null then 0 else prev.chainWork) + BlockProof(header.bits))
      ensures hashOf(header) !in old(mapBlockIndex) ==>
                bestHeader == if old(bestHeader == null) || old(bestHeader).chainWork < pindex.chainWork then pindex
                              else old(bestHeader)
      ensures Valid() <==> hashOf(header) in old(mapBlockIndex) || header.prevBlockHash != hashOf(header)
    {
      var hash := hashOf(header);
      if hash in mapBlockIndex {
        return mapBlockIndex[hash];
      }
      pindex := MakeEntry(header, hash);
      assert Valid() == old(Valid());
      if header.prevBlockHash != hash { ParentByMap(pindex, mapBlockIndex, log, hashOf); }
      Register(pindex);
    }

    /** Extends the active chain by one block on top of its tip. */
    method ConnectTip(pindex: BlockIndex)
      requires Valid() && pindex in Entries(log)
      requires pindex.pprev == activeChain.Tip()
      modifies activeChain
      ensures Valid()
      ensures activeChain.active == old(activeChain.active) + [pindex]
    {
      WalkStep(pindex, pindex.height, Entries(log));
      if pindex.pprev != null { WalkStep(pindex, pindex.height - 1, Entries(log)); }
      activeChain.SetTip(pindex, Entries(log));
      assert Keyed(mapBlockIndex, log, hashOf) == old(Keyed(mapBlockIndex, log, hashOf));
      assert TreeValid(log) == old(TreeValid(log));
      assert BestOf(log, bestHeader, bestAt) == old(BestOf(log, bestHeader, bestAt));
    }
  }
}
