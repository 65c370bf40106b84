/** The chain of blocks a wallet follows: what a relayed block does to it, and the change to a longer fork. */
module PeerManagers {
  import opened Options
  import opened Ledger
  import opened Wallets
  import opened Chains

  const WEEK: nat := 7 * 24 * 60 * 60

  /** What a relayed block meets: the peer's last block, whether a filter update is pending, the time, and whether
      the block's target is right. */
  datatype Setting = Setting(peerLast: nat, filterPending: bool, now: nat, targetOk: bool)

  datatype Orphan = Orphan(hash: Hash, block: Block)

  datatype Verdict =
    Ignored | Orphaned | Rejected | Extended | Existing | Postponed | OldFork | SideBranch | Reorganised

  predicate Keeps(v: Verdict) {
    v.Extended? || v.Existing? || v.SideBranch? || v.Reorganised?
  }

  predicate Matches(blocks: map<Hash, Block>, branch: seq<Hash>, tx: Hash) {
    exists i :: 0 <= i < |branch| && branch[i] in blocks && tx in blocks[branch[i]].txs
  }

  /** The time given to a stored block's transactions: halfway between it and its predecessor. */
  function Halfway(blocks: map<Hash, Block>, b: Hash): nat
    requires b in blocks
  {
    var block := blocks[b];
    if block.prev in blocks then block.timestamp / 2 + blocks[block.prev].timestamp / 2 else block.timestamp
  }

  lemma HalfwayIs(blocks: map<Hash, Block>, b: Hash)
    requires b in blocks
    ensures var t := blocks[b].timestamp;
      Halfway(blocks, b) == if blocks[b].prev in blocks then t / 2 + blocks[blocks[b].prev].timestamp / 2 else t
  {
  }

  /** tx has the height and time of the lowest block of the branch that matches it, a branch going from the top down. */
  predicate ConfirmedIn(blocks: map<Hash, Block>, branch: seq<Hash>, g: Hash, was: Tx, now: Tx) {
    exists i | 0 <= i < |branch| && branch[i] in blocks && g in blocks[branch[i]].txs ::
      now == was.(height := blocks[branch[i]].height, timestamp := Halfway(blocks, branch[i])) &&
      forall k :: i < k < |branch| ==> branch[k] in blocks && g !in blocks[branch[k]].txs
  }

  /** The wallet's transactions after a change of branch: those matched in the new one have the height and time of such
      a block; others above the join are unconfirmed. */
  ghost predicate Rebased(blocks: map<Hash, Block>, branch: seq<Hash>, low: nat,
                          hs: seq<Hash>, was: map<Hash, Tx>, now: map<Hash, Tx>) {
    forall g | g in hs ::
      g in was && g in now &&
      if Matches(blocks, branch, g) then ConfirmedIn(blocks, branch, g, was[g], now[g])
      else now[g] == if was[g].height > low then was[g].(height := TX_UNCONFIRMED) else was[g]
  }

  /** What happens to the wallet's transactions, left being the stored blocks before the new one and now those after:
      a block on the main chain confirms its own; one that overtakes the chain changes the branch at the join. */
  ghost predicate Follows(v: Verdict, left: map<Hash, Block>, last: Hash, blocks: map<Hash, Block>, h: Hash,
                          block: Block,
                          timestamp: nat, hs: seq<Hash>, addrs: set<Address>, was: map<Hash, Tx>, now: map<Hash, Tx>) {
    match v
    case Extended => Updated(was, addrs, block.txs, block.height, timestamp, now)
    case Existing =>
      Linked(left) &&
      if h in Ancestors(left, last) then Updated(was, addrs, block.txs, block.height, timestamp, now) else now == was
    case Reorganised =>
      Linked(blocks) && exists j | j in blocks && TurnsAt(blocks, h, last, j) ::
        Rebased(blocks, Visited(blocks, h, last, j), blocks[j].height, hs, was, now)
    case _ => now == was
  }

  lemma NothingFollows(v: Verdict, left: map<Hash, Block>, last: Hash, blocks: map<Hash, Block>, h: Hash, block: Block,
                       timestamp: nat, hs: seq<Hash>, addrs: set<Address>, now: map<Hash, Tx>)
    requires v.Ignored? || v.Orphaned?
    ensures Follows(v, left, last, blocks, h, block, timestamp, hs, addrs, now, now)
  {
  }

  class PeerManager {
    var blocks: map<Hash, Block>
    var orphans: map<Hash, Orphan>
    var lastBlock: Hash
    var lastOrphan: Hash
    var estimatedHeight: nat
    const wallet: Wallet
    const earliestKeyTime: nat
    const checkpoints: map<nat, Hash>
    const lastCheckpoint: nat
    /** A block's hash determines its height, because it covers the hash of the block before. */
    ghost const depth: Hash -> nat

    ghost predicate Stored(bs: map<Hash, Block>) {
      NO_HASH !in bs &&
      forall h | h in bs ::
        bs[h].height == depth(h) < BLOCK_UNKNOWN_HEIGHT &&
        (bs[h].prev != NO_HASH ==> depth(bs[h].prev) + 1 == depth(h))
    }

    /** A manager starts with checkpoints and saved blocks; saved blocks that are not linked wait as orphans. */
    constructor (wallet: Wallet, blocks: map<Hash, Block>, lastBlock: Hash, orphans: map<Hash, Orphan>,
                 earliestKeyTime: nat, checkpoints: map<nat, Hash>, lastCheckpoint: nat, ghost depth: Hash -> nat)
      requires wallet.Valid() && NO_HASH !in blocks && NoneAbove(blocks, lastBlock)
      requires forall h | h in blocks ::
        blocks[h].height == depth(h) < BLOCK_UNKNOWN_HEIGHT &&
        (blocks[h].prev != NO_HASH ==> depth(blocks[h].prev) + 1 == depth(h))
      ensures Valid() && this.wallet == wallet && this.blocks == blocks && this.lastBlock == lastBlock
      ensures this.orphans == orphans
    {
      this.wallet, this.blocks, this.lastBlock, this.orphans := wallet, blocks, lastBlock, orphans;
      this.earliestKeyTime, this.checkpoints, this.lastCheckpoint := earliestKeyTime, checkpoints, lastCheckpoint;
      this.depth := depth;
      lastOrphan, estimatedHeight := NO_HASH, 0;
    }

    lemma StoredIsLinked(bs: map<Hash, Block>)
      requires Stored(bs)
      ensures Linked(bs)
    {
    }

    ghost predicate Valid()
      reads this, wallet
    {
      Stored(blocks) && NoneAbove(blocks, lastBlock) && wallet.Valid()
    }

    /** What BRSetGet finds in the stored blocks. */
    function Get(h: Hash): Option<Hash>
      reads this
    {
      if h in blocks then Some(h) else None
    }

    /** The walk of two pointers from a new block and from the last one to where their chains join. Where they do not,
        one of the pointers runs out first: the second exactly if the new block's chain is stored further down. */
    method FindJoin(h: Hash) returns (b: Option<Hash>, b2: Option<Hash>)
      requires Stored(blocks) && h in blocks && lastBlock in blocks && blocks[h].height >= blocks[lastBlock].height
      ensures Linked(blocks)
      ensures b.Some? <==> Turns(blocks, h, lastBlock)
      ensures b.Some? ==> b.value in blocks && TurnsAt(blocks, h, lastBlock, b.value)
      ensures b.Some? ==> b2 == if Joined(blocks, h, lastBlock) then b else None
    {
      hide Linked, Walking, Ancestors, IsJoin, Joined, Underruns, TurnsAt;
      StoredIsLinked(blocks);
      b, b2 := Some(h), Some(lastBlock);
      WalkStarts(blocks, h, lastBlock);
      while b.Some? && b2.Some? && b != b2
        invariant b.Some? ==> b.value in blocks
        invariant b2.Some? ==> b2.value in blocks
        invariant b.Some? && b2.Some? ==> Walking(blocks, h, lastBlock, b.value, b2.value)
        invariant b.None? ==> !Joined(blocks, h, lastBlock) && !Underruns(blocks, h, lastBlock)
        invariant b2.None? ==> b.Some? && !Joined(blocks, h, lastBlock) && Underruns(blocks, h, lastBlock)
        invariant b2.None? ==> TurnsAt(blocks, h, lastBlock, b.value)
        decreases if b.Some? then blocks[b.value].height + 1 else 0
      {
        var x, y := b.value, b2.value;
        b := Get(blocks[x].prev);
        if b.None? {
          FirstRunsOut(blocks, h, lastBlock, x, y);
        } else if blocks[b.value].height < blocks[b2.value].height {
          b2 := Get(blocks[y].prev);
          if b2.None? {
            SecondRunsOut(blocks, h, lastBlock, x, y);
          } else {
            WalkStep(blocks, h, lastBlock, x, y);
          }
        } else {
          WalkStep(blocks, h, lastBlock, x, y);
        }
      }
      if b.Some? && b2.Some? {
        WalkEnds(blocks, h, lastBlock, b.value);
      }
    }

    /** Whether a stored block is on the main chain: the walk down from the last block to its height ends at it. The
        walk runs out exactly if no block of the main chain is stored at the height or below. */
    method OnMainChain(h: Hash, height: nat) returns (b: Option<Hash>)
      requires Stored(blocks) && h in blocks && blocks[h].height == height && lastBlock in blocks
      ensures Linked(blocks) && (b.Some? <==> Reaches(blocks, lastBlock, height))
      ensures b == Some(h) <==> h in Ancestors(blocks, lastBlock)
    {
      hide Linked, Ancestors, Reaches;
      StoredIsLinked(blocks);
      b := Some(lastBlock);
      while b.Some? && blocks[b.value].height > height
        invariant b.Some? ==> b.value in blocks
        invariant b.Some? ==> (h in Ancestors(blocks, lastBlock) <==> h in Ancestors(blocks, b.value))
        invariant b.Some? ==> (Reaches(blocks, lastBlock, height) <==> Reaches(blocks, b.value, height))
        invariant b.None? ==> h !in Ancestors(blocks, lastBlock) && !Reaches(blocks, lastBlock, height)
        decreases if b.Some? then blocks[b.value].height + 1 else 0
      {
        DownOne(blocks, b.value, h);
        b := Get(blocks[b.value].prev);
      }
      if b.Some? {
        AtHeight(blocks, b.value, h);
      }
    }

    /** One block of the new branch. */
    method Visit(b: Hash, now: nat, ghost low: nat, ghost done: seq<Hash>, ghost hs: seq<Hash>, ghost was: map<Hash,
                 Tx>)
      requires b in blocks && wallet.Valid() && (forall g :: g in wallet.transactions <==> g in hs)
      requires Rebased(blocks, done, low, hs, was, wallet.allTx)
      modifies wallet
      ensures wallet.Valid() && (forall g :: g in wallet.transactions <==> g in hs)
      ensures Rebased(blocks, done + [b], low, hs, was, wallet.allTx)
    {
      hide Linked, Rebased, Ancestors, Related, Sorted, Acyclic, Distinct, Sum, Updated, Fold, Halfway;
      var block := blocks[b];
      var timestamp := block.timestamp;
      if block.prev in blocks {
        timestamp := timestamp / 2 + blocks[block.prev].timestamp / 2;
      }
      ghost var before := wallet.allTx;
      assert timestamp == Halfway(blocks, b) by { HalfwayIs(blocks, b); }
      assert forall g :: g in hs ==> g in before && Related(before, wallet.allAddrs, before[g]);
      if |block.txs| > 0 {
        ghost var updated := wallet.UpdateTransactions(block.txs, block.height, timestamp, now);
        RebasedStep(blocks, done, low, hs, was, before, wallet.allTx, wallet.allAddrs, b);
      } else {
        RebasedSkip(blocks, done, low, hs, was, before, b);
      }
    }

    /** The wallet follows the chain of a block that overtakes the last one: everything above the join loses its
        height, and the new branch, visited from the top, gives its own transactions theirs. If the walk to the join
        ran out on the main chain the new branch is not visited. */
    method Reorganise(h: Hash, now: nat) returns (j: Hash)
      requires Stored(blocks) && NoneAbove(blocks, h) && lastBlock in blocks && wallet.Valid()
      requires Turns(blocks, h, lastBlock) && blocks[h].height > blocks[lastBlock].height
      modifies this`lastBlock, wallet
      ensures Valid() && Linked(blocks) && j in blocks && TurnsAt(blocks, h, old(lastBlock), j) && lastBlock == h
      ensures forall g :: g in wallet.transactions <==> g in old(wallet.transactions)
      ensures Rebased(blocks, Visited(blocks, h, old(lastBlock), j), blocks[j].height,
                      old(wallet.transactions), old(wallet.allTx), wallet.allTx)
    {
      hide Linked, TurnsAt, Turns, Visited, Rebased, Ancestors, Branch, Joined, Related, Sorted;
      hide Acyclic, Distinct, Sum, Updated, Fold, Known, NoneAbove, MarkerFits;
      LastStored(blocks, h);
      var b, b2 := FindJoin(h);
      j := b.value;
      ghost var hs, was := wallet.transactions, wallet.allTx;
      var low := blocks[j].height;
      LowMarkerFits(wallet.allTx, wallet.transactions, low);
      wallet.SetTxUnconfirmedAfter(low, now);
      RebasedStarts(blocks, low, hs, was, wallet.allTx);
      b := Some(h);
      ghost var done: seq<Hash> := [];
      ghost var all := Visited(blocks, h, lastBlock, j);
      VisitedIs(blocks, h, lastBlock, j);
      assert [] + Branch(blocks, h, low) == Branch(blocks, h, low);
      while b.Some? && b2.Some? && blocks[b.value].height > blocks[b2.value].height
        invariant b.Some? ==> b.value in blocks
        invariant wallet.Valid() && blocks == old(blocks) && lastBlock == old(lastBlock)
        invariant forall g :: g in wallet.transactions <==> g in hs
        invariant b2.Some? ==> done + (if b.Some? then Branch(blocks, b.value, low) else []) == all
        invariant b2.None? ==> done == []
        invariant Rebased(blocks, done, low, hs, was, wallet.allTx)
        decreases if b.Some? then blocks[b.value].height + 1 else 0
      {
        var cur := b.value;
        Visit(cur, now, low, done, hs, was);
        BranchStep(blocks, cur, low);
        assert done + ([cur] + Branch(blocks, blocks[cur].prev, low))
            == (done + [cur]) + Branch(blocks, blocks[cur].prev, low);
        done := done + [cur];
        b := Get(blocks[cur].prev);
      }
      if b.Some? && b2.Some? {
        BranchEnds(blocks, b.value, low);
      }
      assert done + [] == done;
      lastBlock := h;
    }

    // ----- A relayed block -----

    /** The height and place that a block's hash gives it. */
    ghost predicate Fits(h: Hash, block: Block) {
      h != NO_HASH && depth(h) < BLOCK_UNKNOWN_HEIGHT && (block.prev != NO_HASH ==> depth(block.prev) + 1 == depth(h))
    }

    function Placed(block: Block): Block
      reads this
    {
      if block.prev in blocks then block.(height := blocks[block.prev].height + 1) else block
    }

    /** The time given to the transactions of a block: halfway between it and its predecessor. */
    function TxTime(block: Block): nat
      reads this
    {
      if block.prev in blocks then block.timestamp / 2 + blocks[block.prev].timestamp / 2 else 0
    }

    /** The midpoint, one less when both times are odd. */
    lemma TxTimeIs(block: Block)
      requires block.prev in blocks
      ensures var t, u := block.timestamp, blocks[block.prev].timestamp;
        TxTime(block) == (t + u) / 2 - if t % 2 == u % 2 == 1 then 1 else 0
    {
    }

    /** The stored blocks once checking the block has freed old ones. */
    ghost function Left(block: Block): map<Hash, Block>
      requires Linked(blocks)
      reads this
    {
      Minus(blocks, Freed(blocks, block))
    }

    /** Whether a block passes: at a transition the one before must still be stored, the target must be right, and
        a checkpoint of its height must be the block itself. */
    predicate Passes(h: Hash, block: Block, targetOk: bool)
      reads this
    {
      (block.height % INTERVAL == 0 ==> Back(blocks, block.prev, INTERVAL).Some?) && targetOk &&
      (block.height in checkpoints ==> checkpoints[block.height] == h)
    }

    /** What becomes of a block that passed. */
    function Sort(bs: map<Hash, Block>, h: Hash, block: Block, peerLast: nat): Verdict
      requires lastBlock in bs
      reads this
    {
      if block.prev == lastBlock then Extended
      else if h in bs then Existing
      else if bs[lastBlock].height < peerLast && block.height > bs[lastBlock].height + 1 then Postponed
      else if block.height <= lastCheckpoint then OldFork
      else if block.height > bs[lastBlock].height then Reorganised
      else SideBranch
    }

    /** Header times and filter updates come first, then unknown predecessors, then the checks. */
    ghost function Judge(h: Hash, block: Block, s: Setting): Verdict
      requires Linked(blocks) && NoneAbove(blocks, lastBlock)
      reads this
    {
      if block.totalTx == 0 && block.timestamp + WEEK > earliestKeyTime + 2 * 60 * 60 then Ignored
      else if s.filterPending then Ignored
      else if block.prev !in blocks then (if block.timestamp + WEEK < s.now then Ignored else Orphaned)
      else if !Passes(h, Placed(block), s.targetOk) then Rejected
      else
        LastIsKept(blocks, lastBlock, Placed(block));
        Sort(Left(Placed(block)), h, Placed(block), s.peerLast)
    }

    /** Headers of the week before the wallet's first key and later, whatever comes while a filter update is pending,
        and orphans that are a week old. */
    lemma IgnoredIff(h: Hash, block: Block, s: Setting)
      requires Linked(blocks) && NoneAbove(blocks, lastBlock)
      ensures Judge(h, block, s) == Ignored <==>
        (block.totalTx == 0 && block.timestamp + 604_800 > earliestKeyTime + 7_200) || s.filterPending ||
        (block.prev !in blocks && block.timestamp + 604_800 < s.now)
      ensures Judge(h, block, s) == Orphaned <==> Judge(h, block, s) != Ignored && block.prev !in blocks
    {
    }

    /** Of the others, with height the one above their predecessor's: rejected are those that complete an interval whose
        blocks are not all stored, have the wrong target, or are not the checkpoint of their height. */
    lemma RejectedIff(h: Hash, block: Block, s: Setting)
      requires Linked(blocks) && NoneAbove(blocks, lastBlock)
      requires Judge(h, block, s) != Ignored && block.prev in blocks
      ensures var height := blocks[block.prev].height + 1;
        Judge(h, block, s) == Rejected <==>
          (height % 2016 == 0 && Back(blocks, block.prev, 2016).None?) || !s.targetOk ||
          (height in checkpoints && checkpoints[height] != h)
    {
    }

    /** Of blocks that pass, those whose predecessor is the last block extend the chain; others are known already;
        others wait, when the peer has more blocks and they are more than one ahead; others are dropped up to the last
        checkpoint; of the rest those that are higher than the last block overtake it, and those that are not stay
        aside. */
    lemma PassedIff(h: Hash, block: Block, s: Setting)
      requires Linked(blocks) && NoneAbove(blocks, lastBlock) && lastBlock in blocks
      requires Judge(h, block, s) != Ignored && Judge(h, block, s) != Rejected && block.prev in blocks
      ensures var v, height, last := Judge(h, block, s), blocks[block.prev].height + 1, blocks[lastBlock].height;
        var known := h in blocks && h !in Freed(blocks, block.(height := height));
        var early := last < s.peerLast && height > last + 1;
        (v == Extended <==> block.prev == lastBlock) &&
        (v == Existing <==> block.prev != lastBlock && known) &&
        (v == Postponed <==> block.prev != lastBlock && !known && early) &&
        var fork := block.prev != lastBlock && !known && !early;
        (v == OldFork <==> fork && height <= lastCheckpoint) &&
        (v == Reorganised <==> fork && height > lastCheckpoint && height > last) &&
        (v == SideBranch <==> fork && height > lastCheckpoint && height <= last)
    {
      hide Freed, Back;
      LastIsKept(blocks, lastBlock, block.(height := blocks[block.prev].height + 1));
    }

    /** A new block that passes the checks. */
    lemma PassedNew(h: Hash, block: Block, s: Setting)
      requires Linked(blocks) && NoneAbove(blocks, lastBlock) && lastBlock in blocks && h !in blocks
      requires !(block.totalTx == 0 && block.timestamp + 604_800 > earliestKeyTime + 7_200) && !s.filterPending
      requires block.prev in blocks && s.targetOk
      requires var height := blocks[block.prev].height + 1;
        (height % 2016 == 0 ==> Back(blocks, block.prev, 2016).Some?) &&
        (height in checkpoints ==> checkpoints[height] == h)
      ensures var v, height, last := Judge(h, block, s), blocks[block.prev].height + 1, blocks[lastBlock].height;
        var waits := block.prev != lastBlock && last < s.peerLast && height > last + 1;
        v in [Extended, Postponed, OldFork, Reorganised, SideBranch] && (v == Postponed <==> waits) &&
        (v in [Extended, Reorganised, SideBranch] <==>
          block.prev == lastBlock || (!waits && height > lastCheckpoint)) &&
        (v in [Extended, Reorganised] <==>
          block.prev == lastBlock || (!waits && height > lastCheckpoint && height > last))
    {
      hide Freed, Back, NoneAbove, Linked;
      LastStored(blocks, lastBlock);
      IgnoredIff(h, block, s);
      RejectedIff(h, block, s);
      PassedIff(h, block, s);
    }

    lemma NotExisting(h: Hash, block: Block, s: Setting)
      requires Linked(blocks) && NoneAbove(blocks, lastBlock) && h !in blocks
      ensures Judge(h, block, s) != Existing
    {
      hide Freed, Back;
    }

    /** Checks a block, freeing old blocks at a transition on the way. */
    method VerifyBlock(h: Hash, block: Block, targetOk: bool) returns (r: bool)
      requires Stored(blocks) && Linked(blocks) && block.prev in blocks && block.height == blocks[block.prev].height + 1
      modifies this`blocks
      ensures blocks == old(Left(block)) && r == old(Passes(h, block, targetOk))
    {
      hide Linked, Ancestors, Between;
      r := true;
      if block.height % INTERVAL == 0 {
        var found, b, p, i := true, h, block.prev, 0;
        while found && i < INTERVAL
          invariant 0 <= i <= INTERVAL && (found && i > 0 ==> b in blocks && p == blocks[b].prev)
          invariant Back(blocks, block.prev, INTERVAL) ==
            if !found then None else if i < INTERVAL then Back(blocks, p, INTERVAL - i) else Some(b)
        {
          if p in blocks {
            b, p := p, blocks[p].prev;
          } else {
            found := false;
          }
          i := i + 1;
        }
        if found {
          Free(p);
        } else {
          r := false;
          MinusNone(blocks);
        }
      } else {
        MinusNone(blocks);
      }
      if r && !targetOk {
        r := false;
      }
      if r && block.height in checkpoints && checkpoints[block.height] != h {
        r := false;
      }
    }

    /** The freeing walk: everything from p back goes, except transitions. */
    method Free(p: Hash)
      requires Linked(blocks)
      modifies this`blocks
      ensures blocks == Minus(old(blocks), Between(old(blocks), p))
    {
      hide Linked, Ancestors, Between, Minus;
      ghost var bs := blocks;
      var prevBlock, more := p, true;
      ghost var gone: set<Hash> := {};
      MinusNone(bs);
      while more
        invariant blocks == Minus(bs, gone) && gone + Between(bs, prevBlock) == Between(bs, p)
        invariant gone !! Ancestors(bs, prevBlock)
        invariant !more ==> prevBlock !in bs
        decreases HeightOf(bs, prevBlock), more
      {
        AncestorsStep(bs, gone, prevBlock);
        if prevBlock in blocks {
          var b, cur := blocks[prevBlock], prevBlock;
          BetweenStep(bs, cur);
          prevBlock := b.prev;
          if b.height % INTERVAL != 0 {
            MinusMore(bs, gone, cur);
            blocks := blocks - {cur};
            gone := gone + {cur};
          }
        } else {
          more := false;
        }
      }
      BetweenEnds(bs, prevBlock);
    }

    lemma OnTop(h: Hash, block: Block)
      requires Stored(blocks) && NoneAbove(blocks, lastBlock) && Fits(h, block)
      requires block.prev == lastBlock && block.height == depth(h)
      ensures Stored(blocks[h := block]) && NoneAbove(blocks[h := block], h)
    {
    }

    /** A block that extends the main chain confirms its transactions. */
    method Extend(h: Hash, block: Block, timestamp: nat, now: nat)
      requires Valid() && Fits(h, block) && block.prev == lastBlock && block.height == depth(h)
      modifies this`blocks, this`lastBlock, wallet
      ensures Valid() && blocks == old(blocks)[h := block] && lastBlock == h
      ensures Updated(old(wallet.allTx), old(wallet.allAddrs), block.txs, block.height, timestamp, wallet.allTx)
      ensures forall g :: g in wallet.transactions <==> g in old(wallet.transactions)
    {
      hide Updated, Related, Sorted, Acyclic, Distinct, Sum, Stored, NoneAbove, Fits;
      OnTop(h, block);
      blocks := blocks[h := block];
      lastBlock := h;
      NothingUpdated(wallet.allTx, wallet.allAddrs, block.height, timestamp);
      if |block.txs| > 0 {
        ghost var updated := wallet.UpdateTransactions(block.txs, block.height, timestamp, now);
      } else {
        assert block.txs == [];
      }
    }

    /** A block known already confirms its transactions when it is on the main chain. */
    method Refresh(h: Hash, block: Block, timestamp: nat, now: nat)
      requires Valid() && Fits(h, block) && h in blocks && block.height == depth(h) && block.prev in blocks
      requires Reaches(blocks, lastBlock, block.height)
      modifies this`blocks, wallet
      ensures Valid() && blocks == old(blocks)[h := block]
      ensures Linked(old(blocks)) &&
        if h in Ancestors(old(blocks), lastBlock)
        then Updated(old(wallet.allTx), old(wallet.allAddrs), block.txs, block.height, timestamp, wallet.allTx)
        else wallet.allTx == old(wallet.allTx)
      ensures forall g :: g in wallet.transactions <==> g in old(wallet.transactions)
    {
      hide Updated, Related, Sorted, Acyclic, Distinct, Sum, Linked, Ancestors;
      StoredIsLinked(blocks);
      var b := OnMainChain(h, block.height);
      NothingUpdated(wallet.allTx, wallet.allAddrs, block.height, timestamp);
      if b == Some(h) {
        if |block.txs| > 0 {
          ghost var updated := wallet.UpdateTransactions(block.txs, block.height, timestamp, now);
        } else {
          assert block.txs == [];
        }
      }
      blocks := blocks[h := block];
    }

    lemma StoredMore(bs: map<Hash, Block>, h: Hash, block: Block)
      requires Stored(bs) && h !in bs && Fits(h, block) && block.height == depth(h)
      ensures Stored(bs[h := block])
    {
    }

    /** A new block that overtakes the last one. */
    method Overtake(h: Hash, block: Block, now: nat) returns (j: Hash)
      requires Valid() && Fits(h, block) && h !in blocks && block.height == depth(h)
      requires Turns(blocks[h := block], h, lastBlock) && block.height > blocks[lastBlock].height
      modifies this`blocks, this`lastBlock, wallet
      ensures Valid() && blocks == old(blocks)[h := block] && lastBlock == h
      ensures Linked(blocks) && j in blocks && TurnsAt(blocks, h, old(lastBlock), j)
      ensures forall g :: g in wallet.transactions <==> g in old(wallet.transactions)
      ensures Rebased(blocks, Visited(blocks, h, old(lastBlock), j), blocks[j].height,
                      old(wallet.transactions), old(wallet.allTx), wallet.allTx)
    {
      hide Related, Sorted, Acyclic, Distinct, Sum, Linked;
      hide Ancestors, TurnsAt, Turns, Visited, Rebased, Stored, NoneAbove;
      LastStored(blocks, lastBlock);
      NewLast(blocks, lastBlock, h, block);
      StoredMore(blocks, h, block);
      blocks := blocks[h := block];
      j := Reorganise(h, now);
    }

    /** One relayed block, as one step. The last block's height never goes down; next is an orphan that waited for
        this block, to be relayed after it. */
    method RelayedBlock(h: Hash, block0: Block, s: Setting) returns (v: Verdict, next: Option<Orphan>)
      requires Valid() && Fits(h, block0)
      requires Judge(h, block0, s).Existing? ==> Reaches(Left(Placed(block0)), lastBlock, Placed(block0).height)
      requires Judge(h, block0, s).Reorganised? ==> Turns(Left(Placed(block0))[h := Placed(block0)], h, lastBlock)
      modifies this, wallet
      ensures Valid() && blocks[lastBlock].height >= old(blocks[lastBlock].height)
      ensures v == old(Judge(h, block0, s))
      ensures Relays(old(Tip(blocks, lastBlock)), Move(h, old(Placed(block0)), old(Freed(blocks, Placed(block0))), v),
                     Tip(blocks, lastBlock))
      ensures forall g :: g in wallet.transactions <==> g in old(wallet.transactions)
      ensures Follows(v, old(Left(Placed(block0))), old(lastBlock), blocks, h, old(Placed(block0)), old(TxTime(block0)),
                      old(wallet.transactions), old(wallet.allAddrs), old(wallet.allTx), wallet.allTx)
      ensures Settled(v, h, old(Placed(block0)), old(orphans), orphans, next)
      ensures lastOrphan == if v.Orphaned? || v.Postponed? then h else old(lastOrphan)
      ensures estimatedHeight ==
        if v.Ignored? || v.Rejected? || v.OldFork? then old(estimatedHeight)
        else Raised(old(Placed(block0)), old(estimatedHeight))
    {
      hide Updated, Related, Sorted, Acyclic, Distinct, Sum;
      hide Linked, Ancestors, TurnsAt, Turns, Visited, Rebased, Reaches;
      hide Taken, Freed, Back, NoneAbove, Follows;
      StoredIsLinked(blocks);
      LastStored(blocks, lastBlock);
      next := None;
      var block := Placed(block0);
      var timestamp := TxTime(block0);
      v := Decide(h, block0, s);
      LastStored(blocks, lastBlock);
      Act(v, h, block, timestamp, s.now);
      if v.Ignored? || v.Orphaned? {
        NothingFollows(v, old(Left(block)), lastBlock, blocks, h, block, timestamp,
                       old(wallet.transactions), old(wallet.allAddrs), wallet.allTx);
      }
      if !v.Ignored? && !v.Rejected? && !v.OldFork? {
        next := TakeOrphan(h, block);
      }
    }

    /** A relayed block that is new and passes the checks: it is stored unless it has to wait for others or does not
        get above the last checkpoint, and becomes the last block exactly if it is then on top of the last one or
        higher. */
    method RelayedNew(h: Hash, block0: Block, s: Setting) returns (next: Option<Orphan>)
      requires Valid() && Fits(h, block0) && h !in blocks && block0.prev in blocks && lastBlock in blocks
      requires !(block0.totalTx == 0 && block0.timestamp + 604_800 > earliestKeyTime + 7_200) && !s.filterPending
      requires var height := blocks[block0.prev].height + 1;
        (height % 2016 == 0 ==> Back(blocks, block0.prev, 2016).Some?) && s.targetOk &&
        (height in checkpoints ==> checkpoints[height] == h)
      requires Judge(h, block0, s).Reorganised? ==> Turns(Left(Placed(block0))[h := Placed(block0)], h, lastBlock)
      modifies this, wallet
      ensures var height, top := old(blocks[block0.prev].height) + 1, old(blocks[lastBlock].height);
        var onTop := block0.prev == old(lastBlock);
        var waits := !onTop && top < s.peerLast && height > top + 1;
        var block := block0.(height := height);
        (h in blocks <==> onTop || (!waits && height > lastCheckpoint)) && (h in blocks ==> blocks[h] == block) &&
        (lastBlock == if onTop || (!waits && height > lastCheckpoint && height > top) then h else old(lastBlock)) &&
        (waits && block0.prev != h ==> block0.prev in orphans && orphans[block0.prev] == Orphan(h, block))
    {
      hide Related, Sorted, Acyclic, Distinct, Sum, Linked, Freed, Back, NoneAbove, Judge, Follows, Turns;
      StoredIsLinked(blocks);
      PassedNew(h, block0, s);
      NotExisting(h, block0, s);
      var v;
      v, next := RelayedBlock(h, block0, s);
    }

    /** The verdict on a block, and the old blocks freed on the way to it. */
    method Decide(h: Hash, block0: Block, s: Setting) returns (v: Verdict)
      requires Valid() && Fits(h, block0)
      modifies this`blocks
      ensures Valid() && v == old(Judge(h, block0, s)) && old(lastBlock !in Freed(blocks, Placed(block0)))
      ensures blocks == if v.Ignored? || v.Orphaned? then old(blocks) else old(Left(Placed(block0)))
      ensures !v.Ignored? && !v.Orphaned? ==>
        old(block0.prev in blocks && block0.prev !in Freed(blocks, Placed(block0)))
    {
      hide Related, Sorted, Acyclic, Distinct, Sum, Linked, Ancestors, Freed, Back, NoneAbove;
      StoredIsLinked(blocks);
      LastStored(blocks, lastBlock);
      var block := Placed(block0);
      if block.prev in blocks {
        LastIsKept(blocks, lastBlock, block);
        StoredMinus(blocks, Freed(blocks, block));
      } else {
        NothingFreed(blocks, block);
      }
      if block.totalTx == 0 && block.timestamp + WEEK > earliestKeyTime + 2 * 60 * 60 {
        v := Ignored;
      } else if s.filterPending {
        v := Ignored;
      } else if block.prev !in blocks {
        v := if block.timestamp + WEEK < s.now then Ignored else Orphaned;
      } else {
        var ok := VerifyBlock(h, block, s.targetOk);
        LastStored(blocks, lastBlock);
        v := if ok then Sort(blocks, h, block, s.peerLast) else Rejected;
      }
    }

    lemma StoredMinus(bs: map<Hash, Block>, drop: set<Hash>)
      requires Stored(bs)
      ensures Stored(Minus(bs, drop)) && Linked(Minus(bs, drop))
    {
    }

    /** What the verdict does to the chain and the wallet, once old blocks are freed. */
    method Act(v: Verdict, h: Hash, block: Block, timestamp: nat, now: nat)
      requires Valid() && Fits(h, block)
      requires Keeps(v) ==> block.height == depth(h)
      requires v.Extended? ==> block.prev == lastBlock
      requires v.Existing? ==> h in blocks && block.prev in blocks && Reaches(blocks, lastBlock, block.height)
      requires v.Reorganised? ==>
        h !in blocks && block.height > blocks[lastBlock].height && Turns(blocks[h := block], h, lastBlock)
      requires v.SideBranch? ==> h !in blocks && block.height <= blocks[lastBlock].height
      modifies this`blocks, this`lastBlock, this`orphans, this`lastOrphan, wallet
      ensures Valid() && blocks == (if Keeps(v) then old(blocks)[h := block] else old(blocks))
      ensures lastBlock == if v.Extended? || v.Reorganised? then h else old(lastBlock)
      ensures orphans == Waiting(v, h, block, old(orphans))
      ensures lastOrphan == if v.Orphaned? || v.Postponed? then h else old(lastOrphan)
      ensures forall g :: g in wallet.transactions <==> g in old(wallet.transactions)
      ensures Follows(v, old(blocks), old(lastBlock), blocks, h, block, timestamp,
                      old(wallet.transactions), old(wallet.allAddrs), old(wallet.allTx), wallet.allTx)
      ensures v.Ignored? || v.Orphaned? ==> wallet.allTx == old(wallet.allTx)
    {
      hide Updated, Related, Sorted, Acyclic, Distinct, Sum, Linked, Ancestors, TurnsAt, Turns, Visited, Rebased;
      hide Stored, NoneAbove, Reaches, Matches, ConfirmedIn;
      StoredIsLinked(blocks);
      LastStored(blocks, lastBlock);
      match v {
        case Orphaned =>
          orphans := orphans[block.prev := Orphan(h, block)];
          lastOrphan := h;
        case Extended => Extend(h, block, timestamp, now);
        case Existing => Refresh(h, block, timestamp, now);
        case Postponed =>
          orphans := orphans[block.prev := Orphan(h, block)];
          lastOrphan := h;
        case SideBranch =>
          StoredMore(blocks, h, block);
          LowerKept(blocks, lastBlock, h, block);
          blocks := blocks[h := block];
        case Reorganised =>
          ghost var j := Overtake(h, block, now);
        case Rejected =>
        case OldFork =>
        case Ignored =>
      }
    }

    /** The orphan that waited for a block, if any. */
    method TakeOrphan(h: Hash, block: Block) returns (next: Option<Orphan>)
      modifies this`orphans, this`estimatedHeight
      ensures Taken(block, h, old(orphans), orphans, next)
      ensures estimatedHeight == Raised(block, old(estimatedHeight))
    {
      next := None;
      if block.height != BLOCK_UNKNOWN_HEIGHT {
        if block.height > estimatedHeight {
          estimatedHeight := block.height;
        }
        if h in orphans {
          next := Some(orphans[h]);
          orphans := orphans - {h};
        }
      }
    }
  }

  /** The orphan that waited for a placed block is taken out. */
  predicate Taken(block: Block, h: Hash, was: map<Hash, Orphan>, now: map<Hash, Orphan>, next: Option<Orphan>) {
    if block.height != BLOCK_UNKNOWN_HEIGHT && h in was
    then now == was - {h} && next == Some(was[h])
    else now == was && next == None
  }

  /** The estimated height follows a placed block that is higher. */
  function Raised(block: Block, estimated: nat): nat {
    if block.height != BLOCK_UNKNOWN_HEIGHT && block.height > estimated then block.height else estimated
  }

  predicate Settled(v: Verdict, h: Hash, block: Block, was: map<Hash, Orphan>, now: map<Hash, Orphan>,
                    next: Option<Orphan>) {
    if v.Ignored? || v.Rejected? || v.OldFork? then now == was && next == None
    else Taken(block, h, Waiting(v, h, block, was), now, next)
  }

  /** The orphans once the block itself may have become one. */
  function Waiting(v: Verdict, h: Hash, block: Block, orphans: map<Hash, Orphan>): map<Hash, Orphan> {
    if v.Orphaned? || v.Postponed? then orphans[block.prev := Orphan(h, block)] else orphans
  }

  // ----- Runs -----

  datatype Tip = Tip(blocks: map<Hash, Block>, last: Hash)
  datatype Move = Move(hash: Hash, block: Block, drop: set<Hash>, verdict: Verdict)

  /** How a relayed block may change the stored blocks and the last one. */
  predicate Relays(t: Tip, m: Move, t': Tip) {
    t.last in t.blocks && t.last !in m.drop &&
    match m.verdict
    case Ignored => t' == t
    case Orphaned => t' == t
    case Rejected => t' == Tip(Minus(t.blocks, m.drop), t.last)
    case Postponed => t' == Tip(Minus(t.blocks, m.drop), t.last)
    case OldFork => t' == Tip(Minus(t.blocks, m.drop), t.last)
    case Existing =>
      t' == Tip(Minus(t.blocks, m.drop)[m.hash := m.block], t.last) &&
      m.hash in t.blocks && m.block.height == t.blocks[m.hash].height
    case SideBranch =>
      t' == Tip(Minus(t.blocks, m.drop)[m.hash := m.block], t.last) && m.hash != t.last
    case Extended =>
      t' == Tip(Minus(t.blocks, m.drop)[m.hash := m.block], m.hash) &&
      m.block.prev == t.last && m.block.height == t.blocks[t.last].height + 1
    case Reorganised =>
      t' == Tip(Minus(t.blocks, m.drop)[m.hash := m.block], m.hash) &&
      m.block.prev != t.last && m.block.height > t.blocks[t.last].height
  }

  predicate IsRun(tips: seq<Tip>, moves: seq<Move>) {
    |tips| == |moves| + 1 && forall i :: 0 <= i < |moves| ==> Relays(tips[i], moves[i], tips[i + 1])
  }

  /** Over any run of relayed blocks the last block stays stored and its height never goes down. */
  lemma {:induction false} HeightNeverFalls(tips: seq<Tip>, moves: seq<Move>, i: nat, j: nat)
    requires IsRun(tips, moves) && i <= j < |tips|
    requires tips[i].last in tips[i].blocks
    ensures tips[j].last in tips[j].blocks && tips[i].blocks[tips[i].last].height <= tips[j].blocks[tips[j].last].height
    decreases j - i
  {
    if i < j {
      HeightNeverFalls(tips, moves, i, j - 1);
      assert Relays(tips[j - 1], moves[j - 1], tips[j - 1 + 1]);
    }
  }

  /** Confirmed above the place where the walk ended is exactly what the visited branch matches. */
  lemma ConfirmedIffMatched(blocks: map<Hash, Block>, h: Hash, last: Hash, j: Hash, hs: seq<Hash>, was: map<Hash, Tx>,
                            now: map<Hash, Tx>, g: Hash)
    requires Linked(blocks) && j in blocks && g in hs
    requires Rebased(blocks, Visited(blocks, h, last, j), blocks[j].height, hs, was, now)
    requires forall x :: x in blocks ==> blocks[x].height < TX_UNCONFIRMED
    ensures g in now && g in was && now[g] == was[g].(height := now[g].height, timestamp := now[g].timestamp)
    ensures blocks[j].height < now[g].height < TX_UNCONFIRMED <==> Matches(blocks, Visited(blocks, h, last, j), g)
    ensures blocks[j].height < now[g].height < TX_UNCONFIRMED ==>
      exists b | b in Visited(blocks, h, last, j) && b in blocks && g in blocks[b].txs ::
        now[g].height == blocks[b].height &&
        now[g].timestamp ==
          if blocks[b].prev in blocks then blocks[b].timestamp / 2 + blocks[blocks[b].prev].timestamp / 2
          else blocks[b].timestamp
  {
    hide Joined;
    var branch := Visited(blocks, h, last, j);
    BranchIsAbove(blocks, h, blocks[j].height);
    if Matches(blocks, branch, g) {
      var i :| 0 <= i < |branch| && branch[i] in blocks && g in blocks[branch[i]].txs &&
        now[g] == was[g].(height := blocks[branch[i]].height, timestamp := Halfway(blocks, branch[i]));
      assert branch[i] in branch;
    }
  }

  lemma {:induction false} BranchIsAbove(blocks: map<Hash, Block>, h: Hash, low: nat)
    requires Linked(blocks)
    ensures forall x :: x in Branch(blocks, h, low) ==> x in blocks && blocks[x].height > low
    decreases HeightOf(blocks, h)
  {
    if h in blocks && blocks[h].height > low {
      BranchIsAbove(blocks, blocks[h].prev, low);
    }
  }

  lemma VisitedIs(blocks: map<Hash, Block>, a: Hash, b: Hash, j: Hash)
    requires Linked(blocks) && j in blocks
    ensures Visited(blocks, a, b, j) == if Joined(blocks, a, b) then Branch(blocks, a, blocks[j].height) else []
  {
  }

  lemma BranchStep(blocks: map<Hash, Block>, b: Hash, low: nat)
    requires Linked(blocks) && b in blocks && blocks[b].height > low
    ensures Branch(blocks, b, low) == [b] + Branch(blocks, blocks[b].prev, low)
    ensures if blocks[b].prev in blocks then blocks[blocks[b].prev].height < blocks[b].height
            else Branch(blocks, blocks[b].prev, low) == []
  {
  }

  lemma BranchEnds(blocks: map<Hash, Block>, b: Hash, low: nat)
    requires Linked(blocks) && (b !in blocks || blocks[b].height <= low)
    ensures Branch(blocks, b, low) == []
  {
  }

  lemma RebasedStarts(blocks: map<Hash, Block>, low: nat, hs: seq<Hash>, was: map<Hash, Tx>, now: map<Hash, Tx>)
    requires forall g :: g in hs ==> g in was && g in now
    requires forall g | g in now ::
      g in was && now[g] == if g in hs && was[g].height > low then was[g].(height := TX_UNCONFIRMED) else was[g]
    ensures Rebased(blocks, [], low, hs, was, now)
  {
  }

  lemma RebasedStep(blocks: map<Hash, Block>, done: seq<Hash>, low: nat, hs: seq<Hash>, was: map<Hash, Tx>,
                    now: map<Hash, Tx>, now': map<Hash, Tx>, addrs: set<Address>, b: Hash)
    requires Rebased(blocks, done, low, hs, was, now) && b in blocks
    requires forall g :: g in hs ==> g in now && Related(now, addrs, now[g])
    requires Updated(now, addrs, blocks[b].txs, blocks[b].height, Halfway(blocks, b), now')
    ensures Rebased(blocks, done + [b], low, hs, was, now')
  {
    hide Related, Matches, ConfirmedIn, Halfway;
    forall g | g in hs
      ensures g in was && g in now' &&
        if Matches(blocks, done + [b], g) then ConfirmedIn(blocks, done + [b], g, was[g], now'[g])
        else now'[g] == if was[g].height > low then was[g].(height := TX_UNCONFIRMED) else was[g]
    {
      MatchesMore(blocks, done, b, g);
      if g in blocks[b].txs {
        assert was[g].(height := now[g].height, timestamp := now[g].timestamp) == now[g] by {
          OnlyHeightAndTime(blocks, done, low, hs, was, now, g);
        }
        ConfirmedNow(blocks, done, b, g, was[g], now'[g]);
      } else if Matches(blocks, done, g) {
        ConfirmedMore(blocks, done, b, g, was[g], now[g]);
      }
    }
  }

  lemma OnlyHeightAndTime(blocks: map<Hash, Block>, branch: seq<Hash>, low: nat, hs: seq<Hash>, was: map<Hash, Tx>,
                          now: map<Hash, Tx>, g: Hash)
    requires Rebased(blocks, branch, low, hs, was, now) && g in hs
    ensures g in was && g in now && was[g].(height := now[g].height, timestamp := now[g].timestamp) == now[g]
  {
  }

  lemma MatchesMore(blocks: map<Hash, Block>, done: seq<Hash>, b: Hash, g: Hash)
    requires b in blocks
    ensures Matches(blocks, done + [b], g) <==> Matches(blocks, done, g) || g in blocks[b].txs
  {
    var more := done + [b];
    assert more[|done|] == b;
    if Matches(blocks, done, g) {
      var i :| 0 <= i < |done| && done[i] in blocks && g in blocks[done[i]].txs;
      assert more[i] == done[i];
    }
  }

  lemma ConfirmedNow(blocks: map<Hash, Block>, done: seq<Hash>, b: Hash, g: Hash, was: Tx, now: Tx)
    requires b in blocks && g in blocks[b].txs
    requires now == was.(height := blocks[b].height, timestamp := Halfway(blocks, b))
    ensures ConfirmedIn(blocks, done + [b], g, was, now)
  {
    hide Halfway;
    var more := done + [b];
    assert more[|done|] == b;
  }

  lemma ConfirmedMore(blocks: map<Hash, Block>, done: seq<Hash>, b: Hash, g: Hash, was: Tx, now: Tx)
    requires ConfirmedIn(blocks, done, g, was, now) && b in blocks && g !in blocks[b].txs
    ensures ConfirmedIn(blocks, done + [b], g, was, now)
  {
    hide Halfway;
    var more := done + [b];
    var i :| 0 <= i < |done| && done[i] in blocks && g in blocks[done[i]].txs &&
      now == was.(height := blocks[done[i]].height, timestamp := Halfway(blocks, done[i])) &&
      forall k :: i < k < |done| ==> done[k] in blocks && g !in blocks[done[k]].txs;
    assert more[i] == done[i] && more[|done|] == b;
    assert forall k :: i < k < |done| ==> more[k] == done[k];
  }

  lemma RebasedSkip(blocks: map<Hash, Block>, done: seq<Hash>, low: nat, hs: seq<Hash>, was: map<Hash, Tx>,
                    now: map<Hash, Tx>, b: Hash)
    requires Rebased(blocks, done, low, hs, was, now) && b in blocks && |blocks[b].txs| == 0
    ensures Rebased(blocks, done + [b], low, hs, was, now)
  {
    hide ConfirmedIn, Matches;
    forall g | g in hs
      ensures Matches(blocks, done + [b], g) <==> Matches(blocks, done, g)
      ensures Matches(blocks, done, g) ==> ConfirmedIn(blocks, done + [b], g, was[g], now[g])
    {
      MatchesMore(blocks, done, b, g);
      if Matches(blocks, done, g) {
        ConfirmedMore(blocks, done, b, g, was[g], now[g]);
      }
    }
  }

  /** A block that overtakes the main chain: its branch, from the join up, decides what is confirmed above the join. */
  lemma ConfirmedByChange(left: map<Hash, Block>, last: Hash, blocks: map<Hash, Block>, h: Hash, block: Block,
                          timestamp: nat, hs: seq<Hash>, addrs: set<Address>, was: map<Hash, Tx>, now: map<Hash, Tx>,
                          g: Hash)
    requires Follows(Reorganised, left, last, blocks, h, block, timestamp, hs, addrs, was, now) && g in hs
    requires Joined(blocks, h, last) && forall x :: x in blocks ==> blocks[x].height < 0x7fff_ffff
    ensures g in was && g in now && exists j | IsJoin(blocks, h, last, j) ::
      (blocks[j].height < now[g].height < 0x7fff_ffff <==>
        exists b :: b in Ancestors(blocks, h) && b !in Ancestors(blocks, j) && b in blocks && g in blocks[b].txs) &&
      (!(blocks[j].height < now[g].height < 0x7fff_ffff) ==>
        now[g] == if was[g].height > blocks[j].height then was[g].(height := 0x7fff_ffff) else was[g])
  {
    hide Ancestors, Rebased, Branch, Joined;
    var j :| j in blocks && TurnsAt(blocks, h, last, j) &&
      Rebased(blocks, Visited(blocks, h, last, j), blocks[j].height, hs, was, now);
    VisitedIs(blocks, h, last, j);
    ConfirmedIffMatched(blocks, h, last, j, hs, was, now, g);
    BranchIs(blocks, h, j);
    MatchedInBranch(blocks, Branch(blocks, h, blocks[j].height), g);
    Unmatched(blocks, Branch(blocks, h, blocks[j].height), blocks[j].height, hs, was, now, g);
  }

  lemma MatchedInBranch(blocks: map<Hash, Block>, branch: seq<Hash>, g: Hash)
    ensures Matches(blocks, branch, g) <==> exists b :: b in branch && b in blocks && g in blocks[b].txs
  {
    if Matches(blocks, branch, g) {
      var i :| 0 <= i < |branch| && branch[i] in blocks && g in blocks[branch[i]].txs;
      assert branch[i] in branch;
    }
  }

  lemma Unmatched(blocks: map<Hash, Block>, branch: seq<Hash>, low: nat, hs: seq<Hash>, was: map<Hash, Tx>,
                  now: map<Hash, Tx>, g: Hash)
    requires Rebased(blocks, branch, low, hs, was, now) && g in hs
    ensures g in was && g in now &&
      (!Matches(blocks, branch, g) ==>
        now[g] == if was[g].height > low then was[g].(height := 0x7fff_ffff) else was[g])
  {
    hide Matches;
  }

  /** Whatever does not reach the main chain changes nothing in the wallet. */
  lemma NothingConfirmed(v: Verdict, left: map<Hash, Block>, last: Hash, blocks: map<Hash, Block>, h: Hash,
                         block: Block, timestamp: nat, hs: seq<Hash>, addrs: set<Address>, was: map<Hash, Tx>,
                         now: map<Hash, Tx>)
    requires Follows(v, left, last, blocks, h, block, timestamp, hs, addrs, was, now)
    ensures v in {Ignored, Orphaned, Rejected, Postponed, OldFork, SideBranch} ==> now == was
  {
  }

  /** Which blocks are stored after a relayed one, and which is the last. */
  lemma RelaysIs(t: Tip, m: Move, t': Tip, x: Hash)
    requires Relays(t, m, t')
    ensures t'.last == if m.verdict in {Extended, Reorganised} then m.hash else t.last
    ensures var kept := m.verdict in {Extended, Existing, SideBranch, Reorganised};
      var freed := m.verdict !in {Ignored, Orphaned} && x in m.drop;
      (x in t'.blocks <==> (x in t.blocks && !freed) || (kept && x == m.hash)) &&
      (x in t'.blocks ==> t'.blocks[x] == if kept && x == m.hash then m.block else t.blocks[x])
  {
  }

  /** Which orphans wait after a relayed block, and which one is relayed next. */
  lemma SettledIs(v: Verdict, h: Hash, block: Block, was: map<Hash, Orphan>, now: map<Hash, Orphan>,
                  next: Option<Orphan>, p: Hash)
    requires Settled(v, h, block, was, now, next) && h != block.prev
    ensures var waits := v in {Orphaned, Postponed};
      var taken := v !in {Ignored, Rejected, OldFork} && block.height != 0x7fff_ffff && h in was;
      next == (if taken then Some(was[h]) else None) &&
      (p in now <==> (waits && p == block.prev) || (p in was && !(taken && p == h))) &&
      (p in now ==> now[p] == if waits && p == block.prev then Orphan(h, block) else was[p])
  {
  }

  /** The estimated height is the highest one seen. */
  lemma RaisedIs(block: Block, estimated: nat)
    ensures var e := Raised(block, estimated);
      e >= estimated && (block.height != 0x7fff_ffff ==> e >= block.height) && (e == estimated || e == block.height) &&
      (block.height == 0x7fff_ffff ==> e == estimated)
  {
  }

  /** A block on top of the main chain confirms its transactions at its own height, halfway between its time and that
      of the block before. */
  lemma ConfirmedOnTop(left: map<Hash, Block>, last: Hash, blocks: map<Hash, Block>, h: Hash, block: Block,
                       timestamp: nat, hs: seq<Hash>, addrs: set<Address>, was: map<Hash, Tx>, now: map<Hash, Tx>,
                       g: Hash)
    requires Follows(Extended, left, last, blocks, h, block, timestamp, hs, addrs, was, now) && g in was && g in now
    ensures now[g] == if g in block.txs then was[g].(height := block.height, timestamp := timestamp) else was[g]
  {
  }

  /** A known block does the same when it is on the main chain, and nothing when it is not. */
  lemma ConfirmedAgain(left: map<Hash, Block>, last: Hash, blocks: map<Hash, Block>, h: Hash, block: Block,
                       timestamp: nat, hs: seq<Hash>, addrs: set<Address>, was: map<Hash, Tx>, now: map<Hash, Tx>,
                       g: Hash)
    requires Follows(Existing, left, last, blocks, h, block, timestamp, hs, addrs, was, now) && g in was && g in now
    ensures Linked(left) &&
      now[g] == if g in block.txs && h in Ancestors(left, last)
                then was[g].(height := block.height, timestamp := timestamp) else was[g]
  {
    hide Ancestors;
  }

  lemma DownOne(blocks: map<Hash, Block>, b: Hash, h: Hash)
    requires Linked(blocks) && b in blocks && h in blocks && blocks[h].height < blocks[b].height
    ensures var p := blocks[b].prev;
      if p in blocks then
        blocks[p].height < blocks[b].height && (h in Ancestors(blocks, b) <==> h in Ancestors(blocks, p)) &&
        (Reaches(blocks, b, blocks[h].height) <==> Reaches(blocks, p, blocks[h].height))
      else h !in Ancestors(blocks, b) && !Reaches(blocks, b, blocks[h].height)
  {
  }

  lemma AtHeight(blocks: map<Hash, Block>, b: Hash, h: Hash)
    requires Linked(blocks) && b in blocks && h in blocks && blocks[b].height <= blocks[h].height
    ensures (h in Ancestors(blocks, b) <==> h == b) && Reaches(blocks, b, blocks[h].height)
  {
    if h in Ancestors(blocks, b) {
      AncestorsBelow(blocks, b, h);
    }
    assert b in Ancestors(blocks, b);
  }
}
