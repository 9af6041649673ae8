/** The active chain: one branch of the block tree kept in an array by height. */
module ActiveChain {
  import opened Bits
  import opened Bytes
  import opened BlockTree

  // Distance of locator entry i below the start: single steps first, doubling steps after entry 11.
  function LocatorDepth(i: nat): nat {
    if i <= 11 then i else 11 + Pow2(i - 10) - 2
  }

  // The step from entry i to the next.
  function LocatorStep(i: nat): nat {
    if i <= 10 then 1 else Pow2(i - 10)
  }

  function LocatorHeight(start: nat, i: nat): nat {
    if LocatorDepth(i) >= start then 0 else start - LocatorDepth(i)
  }

  // A locator ends with the first entry that reaches the root.
  predicate IsLocatorLength(start: nat, n: nat) {
    n > 0 && LocatorDepth(n - 1) >= start && (n > 1 ==> LocatorDepth(n - 2) < start)
  }

  lemma {:induction false} LocatorDepthIncreases(i: nat, j: nat)
    requires i < j
    ensures LocatorDepth(i) < LocatorDepth(j)
    decreases j
  {
    if j >= 11 { assert Pow2(j - 10) >= 2; }
    if i < j - 1 { LocatorDepthIncreases(i, j - 1); }
    if j >= 12 && j - 1 >= 12 { assert Pow2(j - 10) == 2 * Pow2(j - 1 - 10); }
    LocatorPowers();
  }

  lemma LocatorPowers()
    ensures Pow2(2) == 4 && Pow2(21) == 0x20_0000
  {
    assert Pow2(3) == 8 && Pow2(6) == 64;
    Pow2Add(6, 6);
    Pow2Add(12, 6);
    Pow2Add(18, 3);
  }

  /** The reserved 32 entries suffice exactly up to height 2^21 + 9. */
  lemma LocatorFits(start: nat, n: nat)
    requires IsLocatorLength(start, n)
    ensures n <= 32 <==> start <= 0x20_0009
  {
    assert LocatorDepth(31) == 0x20_0009 by { LocatorPowers(); }
    if n <= 32 {
      if n < 32 { LocatorDepthIncreases(n - 1, 31); }
    } else {
      if n > 33 { LocatorDepthIncreases(31, n - 2); }
    }
  }

  // Entry i of a locator is the hash of the ancestor at height LocatorHeight(i).
  ghost predicate ListsAncestors(start: BlockIndex, locator: seq<Hash256>)
    reads start, start.path
  {
    |start.path| == start.height + 1 &&
    forall i :: 0 <= i < |locator| ==> locator[i] == start.path[LocatorHeight(start.height, i)].blockHash
  }

  lemma ListsOneMore(start: BlockIndex, locator: seq<Hash256>, next: BlockIndex)
    requires ListsAncestors(start, locator)
    requires var height := LocatorHeight(start.height, |locator|); height < |start.path| && next == start.path[height]
    ensures ListsAncestors(start, locator + [next.blockHash])
  {
  }

  class Chain {
    var active: seq<BlockIndex?>

    constructor ()
      ensures active == []
    {
      active := [];
    }

    // The array is the path of its last entry.
    ghost predicate Valid(forest: set<BlockIndex>)
      reads this, forest
    {
      Linked(forest) &&
      (active != [] ==>
         var tip := active[|active| - 1];
         tip != null && tip in forest && active == tip.path)
    }

    function Tip(): BlockIndex?
      reads this
    {
      if |active| > 0 then active[|active| - 1] else null
    }

    function GetBlockIndex(height: nat): BlockIndex?
      reads this
    {
      if height >= |active| then null else active[height]
    }

    predicate IsExist(b: BlockIndex)
      reads this, b
    {
      GetBlockIndex(b.height) == b
    }

    // size() - 1 in 32 bits; the empty chain has height 2^32 - 1
    function Height(): nat
      reads this
    {
      if |active| == 0 then 0xffff_ffff else (|active| - 1) % 0x1_0000_0000
    }

    // An entry exists in the chain exactly if the array lists it.
    lemma ExistsIffListed(b: BlockIndex, forest: set<BlockIndex>)
      requires Valid(forest)
      ensures IsExist(b) <==> b in active
    {
      if b in active {
        var k :| 0 <= k < |active| && active[k] == b;
        WalkStep(Tip(), Tip().height, forest);
        WalkStep(Tip(), k, forest);
      }
    }

    // The array up to an entry of the chain is the path of that entry.
    lemma ChainHoldsPath(b: BlockIndex, forest: set<BlockIndex>)
      requires Valid(forest) && IsExist(b)
      ensures b.height < |active| && active[..b.height + 1] == b.path
    {
      WalkStep(Tip(), Tip().height, forest);
      WalkStep(Tip(), b.height, forest);
    }

    /** Stops at the first slot that already agrees, and still leaves the whole path of the tip. */
    method SetTip(pindex: BlockIndex?, ghost forest: set<BlockIndex>)
      requires Valid(forest) && (pindex != null ==> pindex in forest)
      modifies this
      ensures Valid(forest)
      ensures active == if pindex == null then [] else pindex.path
    {
      if pindex == null {
        active := [];
        return;
      }
      ghost var tip := Tip();
      WalkStep(pindex, pindex.height, forest);
      var size := pindex.height + 1;
      active := if size <= |active| then active[..size]
                else active + seq(size - |active|, _ => null);
      ghost var resized := active;
      var walk: BlockIndex? := pindex;
      while walk != null && active[walk.height] != walk
        invariant |active| == size
        invariant walk != null ==> walk.height < size && walk == pindex.path[walk.height]
        invariant forall i :: (if walk == null then 0 else walk.height + 1) <= i < size ==> active[i] == pindex.path[i]
        invariant walk != null ==> forall i :: 0 <= i <= walk.height ==> active[i] == resized[i]
        decreases if walk == null then 0 else walk.height + 1
      {
        WalkStep(pindex, walk.height, forest);
        active := active[walk.height := walk];
        walk := walk.pprev;
      }
      if walk != null {
        SamePathBelow(tip, pindex, walk.height, forest);
      }
      assert active == pindex.path;
    }

    // The next entry of a locator: by the array for an entry of the chain, else by the skip list.
    method StepBack(pindex: BlockIndex, height: nat, ghost start: BlockIndex, ghost forest: set<BlockIndex>)
      returns (next: BlockIndex)
      requires Valid(forest) && SkipsGood(forest) && start in forest
      requires height <= pindex.height < |start.path| && pindex == start.path[pindex.height]
      ensures height < |start.path| && next == start.path[height] && next.height == height
    {
      WalkStep(start, start.height, forest);
      WalkStep(start, pindex.height, forest);
      WalkStep(start, height, forest);
      WalkStep(pindex, height, forest);
      assert pindex.path[height] == start.path[..pindex.height + 1][height];
      if IsExist(pindex) {
        ChainHoldsPath(pindex, forest);
        assert active[height] == active[..pindex.height + 1][height];
        next := GetBlockIndex(height);
      } else {
        ghost var steps;
        next, steps := pindex.GetAncestor(height, forest);
      }
    }

    /** The locator lists the hashes of the ancestors at the heights LocatorHeight names, down to the root,
        whether or not the start lies on the active chain; without a start it begins at the tip. */
    method GetLocator(from: BlockIndex?, ghost forest: set<BlockIndex>) returns (locator: seq<Hash256>)
      requires Valid(forest) && SkipsGood(forest) && (from != null ==> from in forest)
      ensures from != null ==> IsLocatorLength(from.height, |locator|) && ListsAncestors(from, locator)
      ensures from == null && Tip() != null ==>
                IsLocatorLength(Tip().height, |locator|) && ListsAncestors(Tip(), locator)
      ensures from == null && Tip() == null ==> locator == []
    {
      var pindex := from;
      if pindex == null {
        pindex := Tip();
      }
      if pindex == null {
        return [];
      }
      locator := WalkLocator(pindex, forest);
    }

    // The loop of GetLocator.
    method WalkLocator(start: BlockIndex, ghost forest: set<BlockIndex>) returns (locator: seq<Hash256>)
      requires Valid(forest) && SkipsGood(forest) && start in forest
      ensures IsLocatorLength(start.height, |locator|) && ListsAncestors(start, locator)
    {
      var step := 1;
      locator := [];
      var pindex := start;
      WalkStep(start, start.height, forest);
      while true
        invariant pindex.height == LocatorHeight(start.height, |locator|) < |start.path|
        invariant pindex == start.path[pindex.height]
        invariant |locator| > 0 ==> LocatorDepth(|locator| - 1) < start.height
        invariant step == LocatorStep(|locator|)
        invariant ListsAncestors(start, locator)
        decreases pindex.height
      {
        NextLocatorHeight(start.height, |locator|);
        ListsOneMore(start, locator, pindex);
        locator := locator + [pindex.blockHash];
        // Stop when the genesis block has been added.
        if pindex.height == 0 {
          break;
        }
        // Steps back that double from the eleventh entry on.
        var height := if pindex.height > step then pindex.height - step else 0;
        pindex := StepBack(pindex, height, start, forest);
        if |locator| > 10 {
          step := step * 2;
        }
      }
    }

    // No entry of a path above a height is on the active chain.
    ghost predicate NoneAbove(from: BlockIndex, above: int)
      reads this, from, from.path
    {
      forall h :: 0 <= h < |from.path| && above < h <= from.height ==> !IsExist(from.path[h])
    }

    // An entry of the chain has its whole path there.
    lemma OnChainBelow(from: BlockIndex, h: nat, k: nat, forest: set<BlockIndex>)
      requires Valid(forest) && from in forest && k <= h <= from.height < |from.path| && IsExist(from.path[h])
      ensures IsExist(from.path[k])
    {
      WalkStep(from, h, forest);
      WalkStep(from, k, forest);
      ChainHoldsPath(from.path[h], forest);
      assert active[k] == active[..h + 1][k] == from.path[..h + 1][k];
    }

    // So whether any entry above a height is on the chain shows at the first of them.
    lemma FirstAbove(from: BlockIndex, above: nat, forest: set<BlockIndex>)
      requires Valid(forest) && from in forest
      ensures |from.path| == from.height + 1
      ensures NoneAbove(from, above) <==> from.height <= above || !IsExist(from.path[above + 1])
    {
      WalkStep(from, from.height, forest);
      forall h | above < h <= from.height && IsExist(from.path[h])
        ensures IsExist(from.path[above + 1])
      {
        OnChainBelow(from, h, above + 1, forest);
      }
    }

    // Nothing lies above the height of a chain of at most 2^32 entries.
    lemma NoneAboveHeight(from: BlockIndex, forest: set<BlockIndex>)
      requires Valid(forest) && from in forest && |active| <= 0x1_0000_0000
      ensures NoneAbove(from, Height())
    {
      forall h | 0 <= h < |from.path| && Height() < h <= from.height
        ensures !IsExist(from.path[h])
      {
        WalkStep(from, h, forest);
      }
    }

    /** The tip of a longer chain lies above the height to which the search jumps, and so is not found. */
    lemma LongChainHidesTip(forest: set<BlockIndex>)
      requires Valid(forest) && |active| > 0x1_0000_0000
      ensures IsExist(Tip()) && Height() < Tip().height && !NoneAbove(Tip(), Height())
    {
      WalkStep(Tip(), Tip().height, forest);
    }

    // The highest entry of a path, up to a height, that is on the active chain, null if there is none.
    ghost predicate IsHighest(from: BlockIndex, fork: BlockIndex?, top: nat)
      reads this, from, from.path, fork
    {
      && |from.path| == from.height + 1
      && (fork != null ==>
            fork.height <= from.height && fork.height <= top && fork == from.path[fork.height] && IsExist(fork))
      && (forall h :: (if fork == null then 0 else fork.height + 1) <= h <= from.height && h <= top ==>
            !IsExist(from.path[h]))
    }

    ghost function ForkHeight(fork: BlockIndex?): int
      reads fork
    {
      if fork == null then -1 else fork.height
    }

    // What the search may miss is what lies above the height it starts from.
    lemma HighestMisses(from: BlockIndex, fork: BlockIndex?, top: nat)
      requires IsHighest(from, fork, top)
      ensures NoneAbove(from, ForkHeight(fork)) <==> NoneAbove(from, top)
    {
    }

    // The loop of FindFork.
    method SearchDown(from: BlockIndex, start: BlockIndex?, top: nat, ghost forest: set<BlockIndex>)
      returns (fork: BlockIndex?)
      requires Linked(forest) && from in forest && start != null && start.height <= from.height < |from.path|
      requires start == from.path[start.height] && start.height == if from.height > top then top else from.height
      ensures IsHighest(from, fork, top)
    {
      WalkStep(from, from.height, forest);
      fork := start;
      while fork != null && !IsExist(fork)
        invariant fork != null ==> fork.height <= start.height && fork == from.path[fork.height]
        invariant forall h :: (if fork == null then 0 else fork.height + 1) <= h <= start.height ==>
                    !IsExist(from.path[h])
        decreases if fork == null then 0 else fork.height + 1
      {
        WalkStep(from, fork.height, forest);
        fork := fork.pprev;
      }
    }

    /** The highest entry, up to the height of the chain, on both the active chain and the path of the given entry, null
        if there is none. Nothing higher is missed exactly when the given entry does not lie above that height, or the
        entry of its path just above it is not on the chain; in a chain of at most 2^32 entries this is always so. */
    method FindFork(from: BlockIndex?, ghost forest: set<BlockIndex>) returns (fork: BlockIndex?)
      requires Valid(forest) && SkipsGood(forest) && (from != null ==> from in forest)
      ensures from == null ==> fork == null
      ensures from != null ==> IsHighest(from, fork, Height())
      ensures from != null ==>
                (NoneAbove(from, ForkHeight(fork)) <==> from.height <= Height() || !IsExist(from.path[Height() + 1]))
      ensures from != null && |active| <= 0x1_0000_0000 ==> NoneAbove(from, ForkHeight(fork))
    {
      if from == null {
        return null;
      }
      WalkStep(from, from.height, forest);
      var pindex: BlockIndex? := from;
      if pindex.height > Height() {
        ghost var steps;
        pindex, steps := pindex.GetAncestor(Height(), forest);
        WalkStep(from, Height(), forest);
      }
      fork := SearchDown(from, pindex, Height(), forest);
      HighestMisses(from, fork, Height());
      FirstAbove(from, Height(), forest);
      if |active| <= 0x1_0000_0000 { NoneAboveHeight(from, forest); }
    }
  }

  // One step of the locator's walk.
  lemma NextLocatorHeight(start: nat, i: nat)
    ensures LocatorStep(i) > 0
    ensures i >= 11 ==> LocatorStep(i + 1) == LocatorStep(i) * 2
    ensures var height := LocatorHeight(start, i);
            (height > 0 <==> LocatorDepth(i) < start) &&
            LocatorHeight(start, i + 1) == if height > LocatorStep(i) then height - LocatorStep(i) else 0
  {
    LocatorPowers();
  }
}
