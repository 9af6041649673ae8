/** Entries of the block tree, the forest their parent pointers form, and the walk to an ancestor. */
module BlockTree {
  import opened Bits
  import opened Bytes
  import opened BlockHeaders
  import opened SkipList

  // Status of an entry: a validity level in the low bits, and flags.
  const BLOCK_VALID_TREE := 2
  const BLOCK_VALID_MASK := 0x7
  const BLOCK_NOT_VALID_MASK := 0xffff_fff8
  const BLOCK_FAILED_MASK := 0x60

  class BlockIndex {
    const header: BlockHeader
    var blockHash: Hash256
    var pprev: BlockIndex?
    var pskip: BlockIndex?
    var height: nat
    var chainWork: nat
    var status: uint32

    // All entries from the root up to this one, one for each height.
    ghost var path: seq<BlockIndex>

    constructor (header: BlockHeader)
      ensures this.header == header && pprev == null && pskip == null
      ensures height == 0 && chainWork == 0 && status == 0 && path == [this]
    {
      this.header := header;
      pprev, pskip, height, chainWork, status := null, null, 0, 0, 0;
      blockHash := seq(32, _ => 0);
      path := [this];
    }

    // Raise the validity level of this entry; returns whether it was changed.
    method RaiseValidity(upTo: nat) returns (raised: bool)
      requires upTo <= BLOCK_VALID_MASK
      modifies this`status
      ensures status == RaisedStatus(old(status), upTo)
      ensures raised <==> old(status) / 32 % 4 == 0 && old(status) % 8 < upTo
      ensures status == if raised then old(status) / 8 * 8 + upTo else old(status)
    {
      RaisingMeans(status, upTo);
      if And(status, BLOCK_FAILED_MASK) != 0 {
        return false;
      }
      if And(status, BLOCK_VALID_MASK) < upTo {
        StatusFields(status, upTo);
        status := Or(And(status, BLOCK_NOT_VALID_MASK), upTo);
        return true;
      }
      return false;
    }

    // An entry whose header names its own hash as parent becomes its own parent, and its skip pointer, once built, leads
    // to itself.
    predicate IsOwnParent()
      reads this
    {
      pprev == this && (pskip == null || pskip == this)
    }

    // The entry's place in the forest: its height, its parent and the entries below agree with its path.
    ghost predicate Placed(forest: set<BlockIndex>)
      reads this, forest
    {
      |path| == height + 1 && path[height] == this &&
      (forall i :: 0 <= i <= height ==> path[i] in forest && path[i].path == path[..i + 1] && path[i].height == i) &&
      pprev == if height == 0 then null else path[height - 1]
    }

    // The skip pointer is null or the ancestor at the skip height.
    ghost predicate SkipGood()
      reads this
    {
      pskip != null ==> SkipHeight(height) < height < |path| && pskip == path[SkipHeight(height)]
    }

    /** The entry at a given height on the way to the root, null when the height lies above this one.
        `steps` counts the iterations of the loop. */
    method GetAncestor(h: nat, ghost forest: set<BlockIndex>) returns (a: BlockIndex?, ghost steps: nat)
      requires (this in forest && Linked(forest) && SkipsGood(forest)) || IsOwnParent()
      ensures h > height <==> a == null
      ensures h <= height && !IsOwnParent() ==> h < |path| && a == path[h]
      ensures h <= height && IsOwnParent() ==> a == this
      ensures h <= height && !IsOwnParent() && SkipsBuilt(forest) ==> steps == Steps(height, h)
    {
      steps := 0;
      if h > height {
        return null, 0;
      }
      var walk := this;
      var heightWalk := height;
      if !IsOwnParent() { WalkStep(this, height, forest); }
      while heightWalk > h
        invariant h <= heightWalk <= height
        invariant IsOwnParent() ==> walk == this
        invariant !IsOwnParent() ==> |path| == height + 1 && walk == path[heightWalk]
        invariant !IsOwnParent() && SkipsBuilt(forest) ==> steps + Steps(heightWalk, h) == Steps(height, h)
        decreases heightWalk
      {
        if !IsOwnParent() { WalkStep(this, heightWalk, forest); }
        SkipHeightIsLower(heightWalk);
        var heightSkip := GetSkipHeight(heightWalk);
        var heightSkipPrev := GetSkipHeight(heightWalk - 1);
        if walk.pskip != null &&
           (heightSkip == h ||
            (heightSkip > h && !(heightSkipPrev < heightSkip - 2 && heightSkipPrev >= h)))
        {
          walk := walk.pskip;
          heightWalk := heightSkip;
        } else {
          walk := walk.pprev;
          heightWalk := heightWalk - 1;
        }
        steps := steps + 1;
      }
      a := walk;
    }

    // Point the skip pointer at the parent's ancestor at the skip height.
    method BuildSkip(ghost forest: set<BlockIndex>)
      requires pprev != null ==>
                 (pprev in forest && Linked(forest) && SkipsGood(forest)) || pprev.IsOwnParent()
      modifies this`pskip
      ensures pprev != null && !old(pprev.IsOwnParent()) && SkipHeight(height) <= pprev.height ==>
                SkipHeight(height) < |pprev.path| && pskip == pprev.path[SkipHeight(height)]
      ensures pprev != null && old(pprev.IsOwnParent()) && SkipHeight(height) <= pprev.height ==> pskip == pprev
      ensures pprev != null && SkipHeight(height) > pprev.height ==> pskip == null
      ensures old(IsOwnParent()) ==> IsOwnParent()
      ensures pprev == null ==> pskip == old(pskip)
    {
      if pprev != null {
        ghost var steps;
        pskip, steps := pprev.GetAncestor(GetSkipHeight(height), forest);
      }
    }
  }

  // ---------- validity bits ----------

  predicate MayRaise(status: uint32, upTo: nat) {
    And(status, BLOCK_FAILED_MASK) == 0 && And(status, BLOCK_VALID_MASK) < upTo
  }

  function RaisedStatus(status: uint32, upTo: nat): (r: uint32)
    requires upTo <= BLOCK_VALID_MASK
  {
    StatusFields(status, upTo);
    if MayRaise(status, upTo) then Or(And(status, BLOCK_NOT_VALID_MASK), upTo) else status
  }

  // The masks as arithmetic.
  lemma {:induction false} StatusFields(status: uint32, upTo: nat)
    requires upTo <= BLOCK_VALID_MASK
    ensures And(status, BLOCK_VALID_MASK) == status % 8
    ensures Or(And(status, BLOCK_NOT_VALID_MASK), upTo) == status / 8 * 8 + upTo < 0x1_0000_0000
  {
    var high := status / 8;
    assert And(status, BLOCK_VALID_MASK) == status % 8 by { AndMask(status, 3); assert Pow2(3) == 8; }
    assert And(status, BLOCK_NOT_VALID_MASK) == Shl(high, 3) == high * 8 by {
      AndShifted(status, 0x1fff_ffff, 3);
      ShrIsDiv(status, 3);
      ShlIsMul(high, 3);
      ShlIsMul(0x1fff_ffff, 3);
      assert Pow2(3) == 8;
      Pow2Of29();
      AndAllOnes(high, 29);
    }
    OrCommutes(upTo, Shl(high, 3));
    assert Pow2(3) == 8;
    OrDisjoint(upTo, high, 3);
  }

  lemma AndAllOnes(n: nat, k: nat)
    requires n < Pow2(k)
    ensures And(n, Pow2(k) - 1) == n
  {
    AndMask(n, k);
    DivUnique(n, Pow2(k), 0, n);
  }

  lemma Pow2Of29()
    ensures Pow2(29) == 0x2000_0000
  {
    assert Pow2(2) == 4 && Pow2(3) == 8;
    Pow2Add(3, 3);
    Pow2Add(6, 6);
    Pow2Add(12, 12);
    Pow2Add(24, 3);
    Pow2Add(27, 2);
  }

  // Bits 5 and 6 say that an entry failed, the three lowest are its validity level.
  lemma RaisingMeans(status: uint32, upTo: nat)
    requires upTo <= BLOCK_VALID_MASK
    ensures MayRaise(status, upTo) <==> status / 32 % 4 == 0 && status % 8 < upTo
    ensures RaisedStatus(status, upTo) == if MayRaise(status, upTo) then status / 8 * 8 + upTo else status
  {
    StatusFields(status, upTo);
    AndShifted(status, 3, 5);
    assert Pow2(5) == 32 && Pow2(2) == 4;
    ShrIsDiv(status, 5);
    ShlIsMul(3, 5);
    AndMask(status / 32, 2);
    ShlIsMul(status / 32 % 4, 5);
  }

  /** Raising sets exactly the validity level, never lowers it, leaves every other bit alone,
      does nothing to a failed entry, and is idempotent. */
  lemma RaisingIsMonotone(status: uint32, upTo: nat)
    requires upTo <= BLOCK_VALID_MASK
    ensures var r := RaisedStatus(status, upTo);
            r / 8 == status / 8 && r % 8 >= status % 8 &&
            (MayRaise(status, upTo) ==> r % 8 == upTo) && !MayRaise(r, upTo)
  {
    RaisingMeans(status, upTo);
    RaisingMeans(RaisedStatus(status, upTo), upTo);
  }

  /** An entry that failed, by either flag, keeps its status. */
  lemma FailedStays(status: uint32, upTo: nat)
    requires upTo <= BLOCK_VALID_MASK && (Bit(status, 5) || Bit(status, 6))
    ensures RaisedStatus(status, upTo) == status
  {
    RaisingMeans(status, upTo);
    if Bit(status, 5) { FlagIsSet(status, 5); } else { FlagIsSet(status, 6); }
  }

  lemma {:induction false} FlagIsSet(status: nat, k: nat)
    requires (k == 5 || k == 6) && Bit(status, k)
    ensures status / 32 % 4 != 0
  {
    BitIsDigit(status, k);
    assert Pow2(k) == if k == 5 then 32 else 64;
    if k == 6 { DivDiv(status, 32, 2); }
  }

  // ---------- the forest ----------

  ghost predicate Linked(forest: set<BlockIndex>)
    reads forest
  {
    forall b {:trigger b.Placed(forest)} :: b in forest ==> b.Placed(forest)
  }

  ghost predicate SkipsGood(forest: set<BlockIndex>)
    reads forest
  {
    forall b {:trigger b.SkipGood()} :: b in forest ==> b.SkipGood()
  }

  ghost predicate SkipsBuilt(forest: set<BlockIndex>)
    reads forest
  {
    forall b {:trigger b.pskip} :: b in forest && b.height > 0 ==> b.pskip != null
  }

  // What the pointers of an entry on a path lead to.
  lemma WalkStep(b: BlockIndex, k: nat, forest: set<BlockIndex>)
    requires Linked(forest) && b in forest && k <= b.height
    ensures |b.path| == b.height + 1 && b.path[b.height] == b && !b.IsOwnParent()
    ensures b.path[k] in forest && b.path[k].path == b.path[..k + 1]
    ensures forall i :: 0 <= i <= b.height ==> b.path[i].height == i
    ensures b.path[k].pprev == if k == 0 then null else b.path[k - 1]
    ensures SkipsGood(forest) && b.path[k].pskip != null ==>
              SkipHeight(k) < k && b.path[k].pskip == b.path[SkipHeight(k)]
    ensures SkipsBuilt(forest) && k > 0 ==> b.path[k].pskip != null
  {
    assert b.Placed(forest);
    var a := b.path[k];
    assert a.Placed(forest) && a.path == b.path[..k + 1];
    if SkipsGood(forest) { assert a.SkipGood(); }
  }

  // Two paths that meet are the same below.
  lemma SamePathBelow(b: BlockIndex, c: BlockIndex, k: nat, forest: set<BlockIndex>)
    requires Linked(forest) && b in forest && c in forest
    requires k < |b.path| && k < |c.path| && b.path[k] == c.path[k]
    ensures forall i :: 0 <= i <= k ==> b.path[i] == c.path[i]
  {
    assert b.Placed(forest) && c.Placed(forest);
    assert b.path[..k + 1] == c.path[..k + 1];
    forall i | 0 <= i <= k
      ensures b.path[i] == c.path[i]
    {
      assert b.path[..k + 1][i] == c.path[..k + 1][i];
    }
  }

  // ---------- the reference: parent pointers only ----------

  // Parents belong to the set and are one lower; an entry without a parent has height 0.
  ghost predicate ParentsLinked(forest: set<BlockIndex>)
    reads forest
  {
    forall b <- forest ::
      if b.pprev == null then b.height == 0
      else b.pprev in forest && b.height == b.pprev.height + 1
  }

  // Follow parent pointers down to height h.
  ghost function Ancestor(b: BlockIndex, h: nat, forest: set<BlockIndex>): (a: BlockIndex)
    requires b in forest && ParentsLinked(forest) && h <= b.height
    reads forest
    ensures a in forest && a.height == h
    decreases b.height
  {
    if b.height == h then b else Ancestor(b.pprev, h, forest)
  }

  lemma LinkedParents(forest: set<BlockIndex>)
    requires Linked(forest)
    ensures ParentsLinked(forest)
  {
    forall b <- forest
      ensures if b.pprev == null then b.height == 0
              else b.pprev in forest && b.height == b.pprev.height + 1
    {
      assert b.Placed(forest);
      if b.height > 0 { assert b.path[b.height - 1].path == b.path[..b.height]; }
    }
  }

  /** The path of an entry lists exactly what following parent pointers reaches. */
  lemma {:induction false} PathIsParentWalk(b: BlockIndex, h: nat, forest: set<BlockIndex>)
    requires Linked(forest) && b in forest && h <= b.height && ParentsLinked(forest)
    ensures h < |b.path| && b.path[h] == Ancestor(b, h, forest)
    decreases b.height
  {
    assert b.Placed(forest);
    if b.height != h {
      assert b.pprev == b.path[b.height - 1];
      PathIsParentWalk(b.pprev, h, forest);
      assert b.pprev.path == b.path[..b.height];
    }
  }
}
