/** Stored blocks as a forest of chains: ancestors, and the place where two chains join. */
module Chains {
  import opened Options
  import opened Ledger

  const NO_HASH: Hash := 0
  const BLOCK_UNKNOWN_HEIGHT: nat := 0x7fff_ffff

  /** A block and the hashes of its transactions that matched the filter. */
  datatype Block = Block(prev: Hash, height: nat, timestamp: nat, totalTx: nat, txs: seq<Hash>)

  /** Heights go up by one from a block to the next. */
  ghost predicate Linked(blocks: map<Hash, Block>) {
    forall h :: h in blocks && blocks[h].prev in blocks ==> blocks[blocks[h].prev].height + 1 == blocks[h].height
  }

  ghost function HeightOf(blocks: map<Hash, Block>, h: Hash): nat {
    if h in blocks then blocks[h].height + 1 else 0
  }

  /** The stored chain from h back, h included. */
  ghost function Ancestors(blocks: map<Hash, Block>, h: Hash): set<Hash>
    requires Linked(blocks)
    decreases HeightOf(blocks, h)
  {
    if h !in blocks then {} else {h} + Ancestors(blocks, blocks[h].prev)
  }

  /** The part of that chain above a height, from the top down. */
  ghost function Branch(blocks: map<Hash, Block>, h: Hash, low: nat): seq<Hash>
    requires Linked(blocks)
    decreases HeightOf(blocks, h)
  {
    if h !in blocks || blocks[h].height <= low then [] else [h] + Branch(blocks, blocks[h].prev, low)
  }

  lemma {:induction false} AncestorsBelow(blocks: map<Hash, Block>, h: Hash, a: Hash)
    requires Linked(blocks) && a in Ancestors(blocks, h)
    ensures h in blocks && a in blocks && blocks[a].height <= blocks[h].height
    ensures blocks[a].height == blocks[h].height ==> a == h
    decreases HeightOf(blocks, h)
  {
    if a != h {
      AncestorsBelow(blocks, blocks[h].prev, a);
    }
  }

  lemma {:induction false} AncestorsTransitive(blocks: map<Hash, Block>, h: Hash, a: Hash, b: Hash)
    requires Linked(blocks) && a in Ancestors(blocks, h) && b in Ancestors(blocks, a)
    ensures b in Ancestors(blocks, h)
    decreases HeightOf(blocks, h)
  {
    if a != h {
      AncestorsTransitive(blocks, blocks[h].prev, a, b);
    }
  }

  /** The stored chains of two blocks have something in common. */
  ghost predicate Joined(blocks: map<Hash, Block>, a: Hash, b: Hash) {
    Linked(blocks) && exists c :: c in Ancestors(blocks, a) && c in Ancestors(blocks, b)
  }

  /** The stored chain of a goes on below where that of b ends. */
  ghost predicate Underruns(blocks: map<Hash, Block>, a: Hash, b: Hash) {
    Linked(blocks) && exists c | c in Ancestors(blocks, a) :: IsUnder(blocks, c, b)
  }

  ghost predicate IsUnder(blocks: map<Hash, Block>, c: Hash, b: Hash)
    requires Linked(blocks)
  {
    c in blocks && forall d | d in Ancestors(blocks, b) :: d in blocks && blocks[c].height < blocks[d].height
  }

  /** The walk of two pointers, from a and from b, ends before the one from a runs out. */
  ghost predicate Turns(blocks: map<Hash, Block>, a: Hash, b: Hash) {
    Joined(blocks, a, b) || Underruns(blocks, a, b)
  }

  /** The highest block on both chains. */
  ghost predicate IsJoin(blocks: map<Hash, Block>, a: Hash, b: Hash, j: Hash)
    requires Linked(blocks)
  {
    j in Ancestors(blocks, a) && j in Ancestors(blocks, b) && j in blocks &&
    forall c | c in Ancestors(blocks, a) && c in Ancestors(blocks, b) ::
      c in blocks && blocks[c].height <= blocks[j].height
  }

  /** There is only one such block. */
  lemma JoinIsUnique(blocks: map<Hash, Block>, a: Hash, b: Hash, j: Hash, k: Hash)
    requires Linked(blocks) && IsJoin(blocks, a, b, j) && IsJoin(blocks, a, b, k)
    ensures j == k
  {
    SameHeightSame(blocks, a, j, k);
  }

  lemma {:induction false} SameHeightSame(blocks: map<Hash, Block>, h: Hash, a: Hash, b: Hash)
    requires Linked(blocks) && a in Ancestors(blocks, h) && b in Ancestors(blocks, h)
    requires a in blocks && b in blocks && blocks[a].height == blocks[b].height
    ensures a == b
    decreases HeightOf(blocks, h)
  {
    AncestorsBelow(blocks, h, a);
    AncestorsBelow(blocks, h, b);
    if a != h && b != h {
      SameHeightSame(blocks, blocks[h].prev, a, b);
    }
  }

  /** The branch above a block of the chain is exactly the chain without that block's own chain. */
  lemma {:induction false} BranchIs(blocks: map<Hash, Block>, h: Hash, j: Hash)
    requires Linked(blocks) && j in Ancestors(blocks, h) && j in blocks
    ensures forall x :: x in Branch(blocks, h, blocks[j].height) <==>
      x in Ancestors(blocks, h) && x !in Ancestors(blocks, j)
    decreases HeightOf(blocks, h)
  {
    AncestorsBelow(blocks, h, j);
    if h == j {
      assert Branch(blocks, h, blocks[j].height) == [];
    } else {
      BranchIs(blocks, blocks[h].prev, j);
      AncestorsBelow(blocks, blocks[h].prev, j);
      assert h !in Ancestors(blocks, j) by {
        if h in Ancestors(blocks, j) {
          AncestorsBelow(blocks, j, h);
          assert false;
        }
      }
    }
  }

  /** Both walkers leave no common ancestor behind. */
  ghost predicate Walking(blocks: map<Hash, Block>, a: Hash, b: Hash, x: Hash, y: Hash)
    requires Linked(blocks)
  {
    x in Ancestors(blocks, a) && y in Ancestors(blocks, b) && x in blocks && y in blocks &&
    blocks[x].height >= blocks[y].height &&
    forall c | c in Ancestors(blocks, a) && c in Ancestors(blocks, b) ::
      c in Ancestors(blocks, x) && c in Ancestors(blocks, y)
  }

  lemma WalkStarts(blocks: map<Hash, Block>, a: Hash, b: Hash)
    requires Linked(blocks) && a in blocks && b in blocks && blocks[a].height >= blocks[b].height
    ensures Walking(blocks, a, b, a, b)
  {
  }

  lemma WalkStep(blocks: map<Hash, Block>, a: Hash, b: Hash, x: Hash, y: Hash)
    requires Linked(blocks) && Walking(blocks, a, b, x, y) && x != y && blocks[x].prev in blocks
    requires blocks[blocks[x].prev].height < blocks[y].height ==> blocks[y].prev in blocks
    ensures var x' := blocks[x].prev;
      x' in blocks && blocks[x'].height + 1 == blocks[x].height &&
      if blocks[x'].height < blocks[y].height
      then blocks[y].prev in blocks && Walking(blocks, a, b, x', blocks[y].prev)
      else Walking(blocks, a, b, x', y)
  {
    forall d | d in Ancestors(blocks, a) && d in Ancestors(blocks, b)
      ensures d in Ancestors(blocks, blocks[x].prev)
      ensures blocks[x].height == blocks[y].height ==> d in Ancestors(blocks, blocks[y].prev)
    {
      LeftBehind(blocks, x, y, d);
    }
    AncestorsTransitive(blocks, a, x, blocks[x].prev);
    if blocks[x].height == blocks[y].height {
      AncestorsTransitive(blocks, b, y, blocks[y].prev);
    }
  }

  /** A chain ends with its lowest block. */
  lemma {:induction false} BottomIsLowest(blocks: map<Hash, Block>, h: Hash, x: Hash, c: Hash)
    requires Linked(blocks) && x in Ancestors(blocks, h) && x in blocks && blocks[x].prev !in blocks
    requires c in Ancestors(blocks, h)
    ensures c in blocks && blocks[x].height <= blocks[c].height
    decreases HeightOf(blocks, h)
  {
    AncestorsBelow(blocks, h, x);
    AncestorsBelow(blocks, h, c);
    if x != h && c != h {
      BottomIsLowest(blocks, blocks[h].prev, x, c);
    }
  }

  /** The walker from a runs out: no block is on both chains, and that of b goes down as far. */
  lemma FirstRunsOut(blocks: map<Hash, Block>, a: Hash, b: Hash, x: Hash, y: Hash)
    requires Linked(blocks) && Walking(blocks, a, b, x, y) && x != y && blocks[x].prev !in blocks
    ensures !Joined(blocks, a, b) && !Underruns(blocks, a, b)
  {
    forall d | d in Ancestors(blocks, a) && d in Ancestors(blocks, b)
      ensures false
    {
      LeftBehind(blocks, x, y, d);
    }
    forall c | c in Ancestors(blocks, a)
      ensures !IsUnder(blocks, c, b)
    {
      BottomIsLowest(blocks, a, x, c);
      assert y in Ancestors(blocks, b);
    }
  }

  /** The walker from b runs out: no block is on both chains, and that of a goes on below. */
  lemma SecondRunsOut(blocks: map<Hash, Block>, a: Hash, b: Hash, x: Hash, y: Hash)
    requires Linked(blocks) && Walking(blocks, a, b, x, y) && x != y && blocks[x].prev in blocks
    requires blocks[blocks[x].prev].height < blocks[y].height && blocks[y].prev !in blocks
    ensures !Joined(blocks, a, b) && Underruns(blocks, a, b) && TurnsAt(blocks, a, b, blocks[x].prev)
  {
    var c := blocks[x].prev;
    assert blocks[x].height == blocks[y].height == blocks[c].height + 1;
    forall d | d in Ancestors(blocks, a) && d in Ancestors(blocks, b)
      ensures false
    {
      LeftBehind(blocks, x, y, d);
    }
    AncestorsTransitive(blocks, a, x, c);
    forall d | d in Ancestors(blocks, b)
      ensures d in blocks && blocks[c].height < blocks[d].height
    {
      BottomIsLowest(blocks, b, y, d);
    }
    assert IsUnder(blocks, c, b);
    assert y in Ancestors(blocks, b) && blocks[y].height == blocks[c].height + 1;
  }

  /** Where the walk of two pointers ends: at the join, or if there is none just below the lowest block of b's chain. */
  ghost predicate TurnsAt(blocks: map<Hash, Block>, a: Hash, b: Hash, j: Hash)
    requires Linked(blocks)
  {
    if Joined(blocks, a, b) then IsJoin(blocks, a, b, j)
    else
      j in Ancestors(blocks, a) && IsUnder(blocks, j, b) &&
      exists d | d in Ancestors(blocks, b) :: d in blocks && blocks[d].height == blocks[j].height + 1
  }

  /** The blocks that the change to a longer fork visits: none when the walk found no join. */
  ghost function Visited(blocks: map<Hash, Block>, a: Hash, b: Hash, j: Hash): seq<Hash>
    requires Linked(blocks)
  {
    if Joined(blocks, a, b) && j in blocks then Branch(blocks, a, blocks[j].height) else []
  }

  /** A common ancestor is neither walker while they differ. */
  lemma LeftBehind(blocks: map<Hash, Block>, x: Hash, y: Hash, d: Hash)
    requires Linked(blocks) && x in blocks && y in blocks && x != y && blocks[x].height >= blocks[y].height
    requires d in Ancestors(blocks, x) && d in Ancestors(blocks, y)
    ensures d in Ancestors(blocks, blocks[x].prev)
    ensures blocks[x].height == blocks[y].height ==> d in Ancestors(blocks, blocks[y].prev)
  {
    AncestorsBelow(blocks, x, d);
    AncestorsBelow(blocks, y, d);
  }

  lemma WalkEnds(blocks: map<Hash, Block>, a: Hash, b: Hash, x: Hash)
    requires Linked(blocks) && Walking(blocks, a, b, x, x)
    ensures IsJoin(blocks, a, b, x) && Joined(blocks, a, b) && TurnsAt(blocks, a, b, x)
  {
    forall c | c in Ancestors(blocks, a) && c in Ancestors(blocks, b)
      ensures c in blocks && blocks[c].height <= blocks[x].height
    {
      AncestorsBelow(blocks, x, c);
    }
  }

  // ----- Freeing old blocks -----

  const INTERVAL: nat := 2016

  function Minus(blocks: map<Hash, Block>, drop: set<Hash>): map<Hash, Block> {
    map x | x in blocks && x !in drop :: blocks[x]
  }

  /** The n-th stored block back from one whose predecessor is p, counting p as the first. */
  function Back(blocks: map<Hash, Block>, p: Hash, n: nat): Option<Hash>
    decreases n
  {
    if p !in blocks then None else if n <= 1 then Some(p) else Back(blocks, blocks[p].prev, n - 1)
  }

  /** The blocks of the stored chain from p back that are no difficulty transitions. */
  ghost function Between(blocks: map<Hash, Block>, p: Hash): set<Hash>
    requires Linked(blocks)
  {
    set x | x in Ancestors(blocks, p) && x in blocks && blocks[x].height % INTERVAL != 0
  }

  /** What checking a block frees: at a transition, everything between the transitions before the last one. */
  ghost function Freed(blocks: map<Hash, Block>, block: Block): set<Hash>
    requires Linked(blocks)
  {
    if block.height % INTERVAL != 0 || Back(blocks, block.prev, INTERVAL).None? then {}
    else
      var a := Back(blocks, block.prev, INTERVAL).value;
      BackStored(blocks, block.prev, INTERVAL);
      Between(blocks, blocks[a].prev)
  }

  lemma {:induction false} BackStored(blocks: map<Hash, Block>, p: Hash, n: nat)
    requires Linked(blocks) && Back(blocks, p, n).Some?
    ensures p in blocks && Back(blocks, p, n).value in blocks
    ensures n >= 1 ==> blocks[Back(blocks, p, n).value].height + n == blocks[p].height + 1
    decreases n
  {
    if n > 1 {
      BackStored(blocks, blocks[p].prev, n - 1);
    }
  }

  lemma {:induction false} BackIff(blocks: map<Hash, Block>, p: Hash, n: nat)
    requires Linked(blocks) && n >= 1
    ensures Back(blocks, p, n).Some? <==>
      p in blocks &&
      exists a :: a in Ancestors(blocks, p) && a in blocks && blocks[a].height + n == blocks[p].height + 1
    ensures Back(blocks, p, n).Some? ==> Back(blocks, p, n).value in Ancestors(blocks, p)
    decreases n
  {
    if p in blocks {
      if n == 1 {
        assert p in Ancestors(blocks, p);
      } else {
        BackIff(blocks, blocks[p].prev, n - 1);
        if a :| a in Ancestors(blocks, p) && a in blocks && blocks[a].height + n == blocks[p].height + 1 {
          assert a in Ancestors(blocks, blocks[p].prev);
        }
      }
    }
  }

  /** Of a chain, the chain below one of its blocks is what is lower. */
  lemma {:induction false} BelowIs(blocks: map<Hash, Block>, h: Hash, a: Hash, x: Hash)
    requires Linked(blocks) && a in Ancestors(blocks, h) && a in blocks
    ensures x in Ancestors(blocks, blocks[a].prev) <==>
      x in Ancestors(blocks, h) && x in blocks && blocks[x].height < blocks[a].height
    decreases HeightOf(blocks, h)
  {
    AncestorsBelow(blocks, h, a);
    if a == h {
      if x in Ancestors(blocks, blocks[h].prev) {
        AncestorsBelow(blocks, blocks[h].prev, x);
      }
    } else {
      BelowIs(blocks, blocks[h].prev, a, x);
    }
  }

  /** Exactly these are freed: at a transition that has its whole interval stored, the blocks of the chain that lie more
      than an interval below and are no transitions. */
  lemma FreedIff(blocks: map<Hash, Block>, block: Block, x: Hash)
    requires Linked(blocks) && block.prev in blocks && block.height == blocks[block.prev].height + 1
    ensures x in Freed(blocks, block) <==>
      block.height % 2016 == 0 &&
      (exists a :: a in Ancestors(blocks, block.prev) && a in blocks && blocks[a].height + 2016 == block.height) &&
      x in Ancestors(blocks, block.prev) && x in blocks && blocks[x].height + 2016 < block.height &&
      blocks[x].height % 2016 != 0
  {
    hide Ancestors, Back;
    BackIff(blocks, block.prev, INTERVAL);
    if block.height % INTERVAL == 0 && Back(blocks, block.prev, INTERVAL).Some? {
      var a := Back(blocks, block.prev, INTERVAL).value;
      BackStored(blocks, block.prev, INTERVAL);
      BelowIs(blocks, block.prev, a, x);
    }
  }

  /** Only transitions are stored above the last block; the others there are checkpoints of the future. */
  predicate NoneAbove(blocks: map<Hash, Block>, last: Hash) {
    last in blocks &&
    forall h :: h in blocks && blocks[h].height > blocks[last].height ==> blocks[h].height % INTERVAL == 0
  }

  lemma LastStored(blocks: map<Hash, Block>, last: Hash)
    requires NoneAbove(blocks, last)
    ensures last in blocks
  {
  }

  lemma NewLast(blocks: map<Hash, Block>, last: Hash, h: Hash, block: Block)
    requires NoneAbove(blocks, last) && h !in blocks && block.height > blocks[last].height
    ensures NoneAbove(blocks[h := block], h) && last in blocks[h := block] && blocks[h := block][last] == blocks[last]
  {
  }

  lemma LowerKept(blocks: map<Hash, Block>, last: Hash, h: Hash, block: Block)
    requires NoneAbove(blocks, last) && h !in blocks && block.height <= blocks[last].height
    ensures NoneAbove(blocks[h := block], last)
  {
  }

  lemma NothingFreed(blocks: map<Hash, Block>, block: Block)
    requires Linked(blocks) && block.prev !in blocks
    ensures Freed(blocks, block) == {}
  {
  }

  /** Freed blocks lie more than an interval below the checked block. */
  lemma FreedAreOld(blocks: map<Hash, Block>, block: Block)
    requires Linked(blocks) && block.prev in blocks && block.height == blocks[block.prev].height + 1
    ensures forall x :: x in Freed(blocks, block) ==> x in blocks && blocks[x].height + INTERVAL < block.height
  {
    hide Ancestors, Back;
    if block.height % INTERVAL == 0 && Back(blocks, block.prev, INTERVAL).Some? {
      var a := Back(blocks, block.prev, INTERVAL).value;
      BackStored(blocks, block.prev, INTERVAL);
      forall x | x in Freed(blocks, block)
        ensures x in blocks && blocks[x].height + INTERVAL < block.height
      {
        AncestorsBelow(blocks, blocks[a].prev, x);
      }
    }
  }

  /** So neither the last block nor the predecessor is freed. */
  lemma LastIsKept(blocks: map<Hash, Block>, last: Hash, block: Block)
    requires Linked(blocks) && NoneAbove(blocks, last)
    requires block.prev in blocks && block.height == blocks[block.prev].height + 1
    ensures last !in Freed(blocks, block) && block.prev !in Freed(blocks, block)
    ensures NoneAbove(Minus(blocks, Freed(blocks, block)), last)
  {
    FreedAreOld(blocks, block);
    if block.height % INTERVAL == 0 {
      assert blocks[block.prev].height % INTERVAL != 0;
    }
  }

  /** One step of the freeing walk. */
  lemma BetweenStep(blocks: map<Hash, Block>, p: Hash)
    requires Linked(blocks) && p in blocks
    ensures p !in Between(blocks, blocks[p].prev)
    ensures Between(blocks, p) == Between(blocks, blocks[p].prev) + if blocks[p].height % INTERVAL != 0 then {p} else {}
  {
    if p in Ancestors(blocks, blocks[p].prev) {
      AncestorsBelow(blocks, blocks[p].prev, p);
      assert false;
    }
  }

  lemma AncestorsStep(blocks: map<Hash, Block>, gone: set<Hash>, p: Hash)
    requires Linked(blocks) && gone !! Ancestors(blocks, p)
    ensures p in Minus(blocks, gone) <==> p in blocks
    ensures p in blocks ==>
      Minus(blocks, gone)[p] == blocks[p] && p !in Ancestors(blocks, blocks[p].prev) &&
      HeightOf(blocks, blocks[p].prev) < HeightOf(blocks, p) &&
      Ancestors(blocks, p) == {p} + Ancestors(blocks, blocks[p].prev)
  {
    if p in blocks && p in Ancestors(blocks, blocks[p].prev) {
      AncestorsBelow(blocks, blocks[p].prev, p);
      assert false;
    }
  }

  lemma BetweenEnds(blocks: map<Hash, Block>, p: Hash)
    requires Linked(blocks) && p !in blocks
    ensures Between(blocks, p) == {}
  {
  }

  lemma MinusMore(blocks: map<Hash, Block>, drop: set<Hash>, p: Hash)
    ensures Minus(blocks, drop) - {p} == Minus(blocks, drop + {p})
  {
  }

  lemma MinusNone(blocks: map<Hash, Block>)
    ensures Minus(blocks, {}) == blocks
  {
  }

  /** The walk down from the last block meets the height. */
  ghost predicate Reaches(blocks: map<Hash, Block>, last: Hash, height: nat) {
    Linked(blocks) && exists c :: c in Ancestors(blocks, last) && c in blocks && blocks[c].height <= height
  }

  // ----- Walks that run out -----

  /** Two stored blocks below a freed region: the walk down from the last block never reaches them. */
  lemma WalkDownRunsOut()
    ensures var blocks := map[1 := Block(9, 10, 0, 1, []), 2 := Block(1, 11, 0, 1, []), 3 := Block(8, 5000, 0, 1, [])];
            Linked(blocks) && NoneAbove(blocks, 3) && blocks[2].prev in blocks && !Reaches(blocks, 3, blocks[2].height)
  {
    var blocks := map[1 := Block(9, 10, 0, 1, []), 2 := Block(1, 11, 0, 1, []), 3 := Block(8, 5000, 0, 1, [])];
    assert Ancestors(blocks, 3) == {3};
  }

  /** A fork that is stored down to the same height as the main chain: the walk to the join runs out on it. */
  lemma JoinRunsOut()
    ensures var blocks := map[1 := Block(9, 11, 0, 1, []), 2 := Block(8, 11, 0, 1, []), 3 := Block(2, 12, 0, 1, [])];
            Linked(blocks) && NoneAbove(blocks - {3}, 1) && blocks[3].height > blocks[1].height &&
            !Turns(blocks, 3, 1)
  {
    var blocks := map[1 := Block(9, 11, 0, 1, []), 2 := Block(8, 11, 0, 1, []), 3 := Block(2, 12, 0, 1, [])];
    assert Ancestors(blocks, 2) == {2};
    assert Ancestors(blocks, 3) == {3, 2};
    assert Ancestors(blocks, 1) == {1};
  }

  /** A fork that is stored further down than the main chain: the walk runs out on the main chain, and no block of
      the fork is visited. */
  lemma ForkNotVisited()
    ensures var blocks := map[1 := Block(9, 11, 0, 1, []), 2 := Block(8, 10, 0, 1, []), 3 := Block(2, 11, 0, 1, [7]),
                              4 := Block(3, 12, 0, 1, [5])];
            Linked(blocks) && NoneAbove(blocks - {4}, 1) && blocks[4].height > blocks[1].height &&
            !Joined(blocks, 4, 1) && TurnsAt(blocks, 4, 1, 2) && Visited(blocks, 4, 1, 2) == []
  {
    var blocks := map[1 := Block(9, 11, 0, 1, []), 2 := Block(8, 10, 0, 1, []), 3 := Block(2, 11, 0, 1, [7]),
                      4 := Block(3, 12, 0, 1, [5])];
    assert Ancestors(blocks, 2) == {2};
    assert Ancestors(blocks, 3) == {3, 2};
    assert Ancestors(blocks, 4) == {4, 3, 2};
    assert Ancestors(blocks, 1) == {1};
    assert 1 in Ancestors(blocks, 1);
  }
}
