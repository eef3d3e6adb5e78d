/** Fork choice does not depend on the order in which blocks arrive. */
module ForkOrder {
  import opened Prelude
  import opened Domain
  import opened Digests
  import opened Validation
  import opened Binding
  import opened ForkTree
  import opened Chain

  /** Insert one block after another, whatever each insertion returns. */
  function InsertAll(r: Rules, t: Tree, blocks: seq<Block>): Tree
    decreases |blocks|
  {
    if blocks == [] then t else InsertAll(r, Insert(r, t, blocks[0]).0, blocks[1..])
  }

  /** Every reachable tree is well formed. */
  lemma {:induction false} InsertAllKeepsWellFormed(r: Rules, t: Tree, blocks: seq<Block>)
    requires WellFormed(r, t)
    ensures WellFormed(r, InsertAll(r, t, blocks))
    ensures Grows(t, InsertAll(r, t, blocks))
    decreases |blocks|
  {
    if blocks == [] {
    } else {
      InsertKeepsWellFormed(r, t, blocks[0]);
      InsertGrows(r, t, blocks[0]);
      InsertAllKeepsWellFormed(r, Insert(r, t, blocks[0]).0, blocks[1..]);
    }
  }

  lemma {:induction false} InsertAllAppend(r: Rules, t: Tree, blocks: seq<Block>, b: Block)
    ensures InsertAll(r, t, blocks + [b]) == Insert(r, InsertAll(r, t, blocks), b).0
    decreases |blocks|
  {
    if blocks == [] {
      assert [] + [b] == [b];
    } else {
      InsertAllAppend(r, Insert(r, t, blocks[0]).0, blocks[1..], b);
      assert (blocks + [b])[1..] == blocks[1..] + [b];
    }
  }

  // ---------------------------------------------------------------- scores

  /** The score the code computes for a chain of `n` blocks, wrapping where `u128` does. */
  function ScoreOf(r: Rules, n: nat): u128 {
    if n == 0 then 0 else AddWork(ScoreOf(r, n - 1), BlockWork(r))
  }

  /** The work of `n` blocks, without a bound on integers. */
  ghost function TotalWork(r: Rules, n: nat): nat {
    if n == 0 then 0 else TotalWork(r, n - 1) + BlockWork(r) as nat
  }

  lemma {:induction false} TotalWorkIsProduct(r: Rules, n: nat)
    ensures TotalWork(r, n) == n * BlockWork(r) as nat
  {
    hide BlockWork;
    if n > 0 {
      TotalWorkIsProduct(r, n - 1);
      var w: nat := BlockWork(r) as nat;
      assert n * w == (n - 1) * w + w;
    }
  }

  lemma {:induction false} TotalWorkIncreases(r: Rules, m: nat, n: nat)
    requires m < n
    ensures TotalWork(r, m) < TotalWork(r, n)
  {
    if m < n - 1 {
      TotalWorkIncreases(r, m, n - 1);
    }
  }

  /** As long as the total fits in `u128`, the score of a chain is its total work. */
  lemma {:induction false} ScoreIsTotalWork(r: Rules, n: nat)
    requires TotalWork(r, n) < TWO128
    ensures ScoreOf(r, n) as nat == TotalWork(r, n)
  {
    if n > 0 {
      ScoreIsTotalWork(r, n - 1);
    }
  }

  /** A node's score depends on its height alone. */
  lemma {:induction false} ScoreFollowsHeight(r: Rules, t: Tree, h: Digest)
    requires NodesOk(r, t) && h in t.nodes
    ensures t.nodes[h].workScore == ScoreOf(r, t.nodes[h].nextHeight)
    decreases t.nodes[h].nextHeight
  {
    hide Validate;
    assert NodeOk(r, t, h);
    ParentBelow(r, t, h);
    if t.nodes[h].parent == ZERO {
      assert ScoreOf(r, 1) == AddWork(ScoreOf(r, 0), BlockWork(r));
    } else {
      ScoreFollowsHeight(r, t, t.nodes[h].parent);
    }
  }

  /** The scores of the known blocks fit in `u128`: no addition on the way to them has wrapped. */
  ghost predicate ScoresFit(r: Rules, t: Tree) {
    forall h :: h in t.nodes ==> TotalWork(r, t.nodes[h].nextHeight) < TWO128
  }

  /** When scores fit, the higher of two known blocks is the better tip. */
  lemma HigherIsBetter(r: Rules, t: Tree, g: Digest, h: Digest)
    requires NodesOk(r, t) && ScoresFit(r, t)
    requires g in t.nodes && h in t.nodes
    requires t.nodes[g].nextHeight > t.nodes[h].nextHeight
    ensures IsBetterTip(t.nodes[g], t.nodes[h])
  {
    ScoreFollowsHeight(r, t, g);
    ScoreFollowsHeight(r, t, h);
    ScoreIsTotalWork(r, t.nodes[g].nextHeight);
    ScoreIsTotalWork(r, t.nodes[h].nextHeight);
    TotalWorkIncreases(r, t.nodes[h].nextHeight, t.nodes[g].nextHeight);
  }

  /**
   * A block that extends the best tip becomes the best tip exactly when its score does not wrap. At difficulty 120 and
   * above this fails for the child of a best tip at height 255, which scores zero.
   */
  lemma ChildOfBestWins(r: Rules, t: Tree, b: Block)
    requires WellFormed(r, t)
    requires BlockHash(r, b) !in t.nodes
    requires b.header.previousBlock == BestHash(t)
    requires t.bestTip.Some? ==> t.bestTip.value != ZERO
    requires Insert(r, t, b).1.Ok?
    ensures Insert(r, t, b).0.bestTip == Some(BlockHash(r, b)) <==> ParentScore(t, b) as nat + BlockWork(r) as nat < TWO128
  {
    hide Validate, LexLess;
    if t.bestTip == None {
      assert ParentScore(t, b) == 0;
    } else {
      var best := t.nodes[t.bestTip.value];
      assert NodeOk(r, t, t.bestTip.value);
      assert ParentScore(t, b) == best.workScore;
      var child := NewNode(r, t, b);
      var sum: nat := best.workScore as nat + BlockWork(r) as nat;
      if sum < TWO128 {
        assert child.workScore as nat == sum && sum > best.workScore as nat;
      } else {
        assert child.workScore as nat == sum - TWO128 && sum - TWO128 < best.workScore as nat;
      }
    }
  }

  /** At difficulty 120 and above the score of a chain of 256 blocks wraps to zero. */
  lemma ScoreWrapsAt256(r: Rules)
    requires r.config.difficultyZeroBits >= 120
    ensures ScoreOf(r, 255) as nat + BlockWork(r) as nat == TWO128
    ensures ScoreOf(r, 256) == 0
  {
    hide Pow2;
    var w: nat := BlockWork(r) as nat;
    Pow2Adds(120, 8);
    Pow8();
    Pow2Adds(64, 64);
    Pow64();
    assert w == Pow2(120) && 256 * w == TWO128;
    TotalWorkIsProduct(r, 255);
    ScoreIsTotalWork(r, 255);
    assert ScoreOf(r, 256) == AddWork(ScoreOf(r, 255), BlockWork(r));
  }

  // ---------------------------------------------------------------- order independence

  lemma BestTipUnique(t: Tree, u: Tree)
    requires t.nodes == u.nodes
    requires forall h :: h in t.nodes ==> t.nodes[h].hash == h
    requires BestIsMaximal(t) && BestIsMaximal(u)
    ensures t == u
  {
    if t.bestTip != u.bestTip {
      BetterTotal(t.nodes[t.bestTip.value], t.nodes[u.bestTip.value]);
    }
  }

  /** Some hash is known to both trees with bodies that exhibit a hash collision. */
  ghost predicate TreesCollide(r: Rules, t: Tree, u: Tree) {
    exists h :: h in t.nodes && h in u.nodes && Collide(r, t.nodes[h].block, u.nodes[h].block)
  }

  /** A block known to two well-formed trees has the same node in both. */
  lemma SameHashSameNode(r: Rules, t: Tree, u: Tree, h: Digest)
    requires NodesOk(r, t) && NodesOk(r, u)
    requires h in t.nodes && h in u.nodes
    requires !TreesCollide(r, t, u)
    ensures t.nodes[h] == u.nodes[h]
  {
    assert NodeOk(r, t, h) && NodeOk(r, u, h);
    var a, b := t.nodes[h].block, u.nodes[h].block;
    BlockHashBindsBlock(r, ContextFor(t, a).value, a, ContextFor(u, b).value, b);
    ScoreFollowsHeight(r, t, h);
    ScoreFollowsHeight(r, u, h);
  }

  lemma SameHashesSameNodes(r: Rules, t: Tree, u: Tree)
    requires NodesOk(r, t) && NodesOk(r, u)
    requires t.nodes.Keys == u.nodes.Keys
    requires !TreesCollide(r, t, u)
    ensures t.nodes == u.nodes
  {
    forall h | h in t.nodes.Keys
      ensures t.nodes[h] == u.nodes[h]
    {
      SameHashSameNode(r, t, u, h);
    }
  }

  /**
   * Two well-formed trees that know the same hashes are the same tree: same blocks, scores and best tip. The only way
   * out is a hash collision between two of their blocks.
   */
  lemma SameHashesSameTree(r: Rules, t: Tree, u: Tree)
    requires WellFormed(r, t) && WellFormed(r, u)
    requires t.nodes.Keys == u.nodes.Keys
    ensures t == u || TreesCollide(r, t, u)
  {
    if !TreesCollide(r, t, u) {
      SameHashesSameNodes(r, t, u);
      KeysAreHashes(r, t);
      BestTipUnique(t, u);
    }
  }

  lemma KeysAreHashes(r: Rules, t: Tree)
    requires NodesOk(r, t)
    ensures forall h :: h in t.nodes ==> t.nodes[h].hash == h
  {
    forall h | h in t.nodes
      ensures t.nodes[h].hash == h
    {
      assert NodeOk(r, t, h);
    }
  }

  /** Any two runs of insertions that end up knowing the same hashes end in the same state. */
  lemma ArrivalOrderIsIrrelevant(r: Rules, blocks: seq<Block>, others: seq<Block>)
    requires InsertAll(r, EMPTY, blocks).nodes.Keys == InsertAll(r, EMPTY, others).nodes.Keys
    ensures || InsertAll(r, EMPTY, blocks) == InsertAll(r, EMPTY, others)
            || TreesCollide(r, InsertAll(r, EMPTY, blocks), InsertAll(r, EMPTY, others))
  {
    InsertAllKeepsWellFormed(r, EMPTY, blocks);
    InsertAllKeepsWellFormed(r, EMPTY, others);
    SameHashesSameTree(r, InsertAll(r, EMPTY, blocks), InsertAll(r, EMPTY, others));
  }

  /** Every one of `blocks` is a block of the tree. */
  ghost predicate AllFrom(r: Rules, t: Tree, blocks: seq<Block>) {
    forall i :: 0 <= i < |blocks| ==>
      BlockHash(r, blocks[i]) in t.nodes && t.nodes[BlockHash(r, blocks[i])].block == blocks[i]
  }

  /** `blocks` lists exactly the blocks of the tree. */
  ghost predicate Lists(r: Rules, t: Tree, blocks: seq<Block>) {
    && AllFrom(r, t, blocks)
    && (forall h :: h in t.nodes ==> t.nodes[h].block in blocks)
  }

  /** Every block comes after its parent. */
  ghost predicate ParentsFirst(r: Rules, blocks: seq<Block>) {
    forall i :: 0 <= i < |blocks| ==> ParentEarlier(r, blocks, i)
  }

  ghost predicate ParentEarlier(r: Rules, blocks: seq<Block>, i: nat)
    requires i < |blocks|
  {
    || blocks[i].header.previousBlock == ZERO
    || exists j :: 0 <= j < i && BlockHash(r, blocks[j]) == blocks[i].header.previousBlock
  }

  /** Nothing in `blocks` is refused when inserted in order. */
  ghost predicate AllAccepted(r: Rules, t: Tree, blocks: seq<Block>)
    decreases |blocks|
  {
    blocks == [] || (Insert(r, t, blocks[0]).1.Ok? && AllAccepted(r, Insert(r, t, blocks[0]).0, blocks[1..]))
  }

  lemma {:induction false} AllAcceptedAppend(r: Rules, t: Tree, blocks: seq<Block>, b: Block)
    requires AllAccepted(r, t, blocks)
    ensures AllAccepted(r, t, blocks + [b]) <==> Insert(r, InsertAll(r, t, blocks), b).1.Ok?
    decreases |blocks|
  {
    if blocks == [] {
      assert [] + [b] == [b];
    } else {
      AllAcceptedAppend(r, Insert(r, t, blocks[0]).0, blocks[1..], b);
      assert (blocks + [b])[1..] == blocks[1..] + [b];
    }
  }

  /** A list whose first part is refused is refused as a whole. */
  lemma {:induction false} AllAcceptedPrefix(r: Rules, t: Tree, blocks: seq<Block>, n: nat)
    requires n <= |blocks| && AllAccepted(r, t, blocks)
    ensures AllAccepted(r, t, blocks[..n])
    decreases n
  {
    hide Validate, Insert;
    if n > 0 {
      AllAcceptedPrefix(r, Insert(r, t, blocks[0]).0, blocks[1..], n - 1);
      assert blocks[..n][1..] == blocks[1..][..n - 1];
    }
  }

  /** Inserting a block of `t` into a part of `t` that knows its parent stores the node `t` has. */
  lemma RebuildStep(r: Rules, t: Tree, u: Tree, b: Block)
    requires Grows(u, t)
    requires BlockHash(r, b) in t.nodes && NodeOk(r, t, BlockHash(r, b)) && t.nodes[BlockHash(r, b)].block == b
    requires ContextFor(u, b).Some?
    ensures Insert(r, u, b).1.Ok?
    ensures Grows(Insert(r, u, b).0, t)
  {
    hide Validate;
    ContextStable(u, t, b);
    InsertGrows(r, u, b);
    if BlockHash(r, b) !in u.nodes {
      assert NewNode(r, u, b) == t.nodes[BlockHash(r, b)];
    }
  }

  lemma {:induction false} RebuildPrefix(r: Rules, t: Tree, blocks: seq<Block>, n: nat)
    requires NodesOk(r, t)
    requires AllFrom(r, t, blocks) && ParentsFirst(r, blocks)
    requires n <= |blocks|
    ensures AllAccepted(r, EMPTY, blocks[..n])
    ensures Grows(InsertAll(r, EMPTY, blocks[..n]), t)
    ensures forall i :: 0 <= i < n ==> BlockHash(r, blocks[i]) in InsertAll(r, EMPTY, blocks[..n]).nodes
  {
    hide Validate, Insert, NodeOk;
    if n > 0 {
      RebuildPrefix(r, t, blocks, n - 1);
      var prefix, b := blocks[..n - 1], blocks[n - 1];
      var u := InsertAll(r, EMPTY, prefix);
      assert blocks[..n] == prefix + [b];
      assert ContextFor(u, b).Some? by {
        assert ParentEarlier(r, blocks, n - 1);
      }
      assert NodeOk(r, t, BlockHash(r, b));
      RebuildStep(r, t, u, b);
      InsertAllAppend(r, EMPTY, prefix, b);
      AllAcceptedAppend(r, EMPTY, prefix, b);
      InsertGrows(r, u, b);
    }
  }

  /**
   * Inserting the blocks of a well-formed tree into an empty one, in any order that puts parents first, accepts them all
   * and rebuilds the tree: nodes, scores and best tip. No assumption on the hash is needed.
   */
  lemma AnyParentFirstOrderRebuilds(r: Rules, t: Tree, blocks: seq<Block>)
    requires WellFormed(r, t)
    requires Lists(r, t, blocks) && ParentsFirst(r, blocks)
    ensures AllAccepted(r, EMPTY, blocks)
    ensures InsertAll(r, EMPTY, blocks) == t
  {
    hide Validate, Insert;
    RebuildPrefix(r, t, blocks, |blocks|);
    assert blocks[..|blocks|] == blocks;
    var u := InsertAll(r, EMPTY, blocks);
    InsertAllKeepsWellFormed(r, EMPTY, blocks);
    forall h | h in t.nodes
      ensures h in u.nodes && t.nodes[h].hash == h
    {
      assert NodeOk(r, t, h);
      var i :| 0 <= i < |blocks| && blocks[i] == t.nodes[h].block;
      assert BlockHash(r, blocks[i]) in u.nodes;
    }
    assert u.nodes == t.nodes;
    BestTipUnique(t, u);
  }

  // ---------------------------------------------------------------- which lists are accepted

  /** Insertions only make listed blocks known. */
  lemma {:induction false} KnownIsListed(r: Rules, blocks: seq<Block>, h: Digest)
    requires h in InsertAll(r, EMPTY, blocks).nodes
    ensures exists j :: 0 <= j < |blocks| && BlockHash(r, blocks[j]) == h
    decreases |blocks|
  {
    hide Validate, Insert;
    if blocks != [] {
      var n := |blocks| - 1;
      assert blocks == blocks[..n] + [blocks[n]];
      InsertAllAppend(r, EMPTY, blocks[..n], blocks[n]);
      InsertGrows(r, InsertAll(r, EMPTY, blocks[..n]), blocks[n]);
      if BlockHash(r, blocks[n]) != h {
        KnownIsListed(r, blocks[..n], h);
        var j :| 0 <= j < n && BlockHash(r, blocks[..n][j]) == h;
        assert BlockHash(r, blocks[j]) == h;
      }
    }
  }

  lemma OkMeansContext(r: Rules, t: Tree, b: Block)
    requires Insert(r, t, b).1.Ok?
    ensures BlockHash(r, b) in t.nodes || b.header.previousBlock == ZERO || b.header.previousBlock in t.nodes
  {
    hide Validate, IsBetterTip;
  }

  /** In an accepted list of known blocks every block comes after its parent. */
  lemma {:induction false} AcceptedNamesParent(r: Rules, t: Tree, blocks: seq<Block>, i: nat)
    requires AllFrom(r, t, blocks) && AllAccepted(r, EMPTY, blocks) && i < |blocks|
    ensures ParentEarlier(r, blocks, i)
    decreases i
  {
    hide Validate, Insert;
    var u, b := InsertAll(r, EMPTY, blocks[..i]), blocks[i];
    AllAcceptedPrefix(r, EMPTY, blocks, i + 1);
    AllAcceptedPrefix(r, EMPTY, blocks, i);
    assert blocks[..i + 1] == blocks[..i] + [b];
    AllAcceptedAppend(r, EMPTY, blocks[..i], b);
    OkMeansContext(r, u, b);
    if BlockHash(r, b) in u.nodes {
      KnownIsListed(r, blocks[..i], BlockHash(r, b));
      var j :| 0 <= j < i && BlockHash(r, blocks[..i][j]) == BlockHash(r, b);
      assert blocks[j] == b;
      AcceptedNamesParent(r, t, blocks, j);
    } else if b.header.previousBlock != ZERO {
      KnownIsListed(r, blocks[..i], b.header.previousBlock);
      var j :| 0 <= j < i && BlockHash(r, blocks[..i][j]) == b.header.previousBlock;
      assert BlockHash(r, blocks[j]) == b.header.previousBlock;
    }
  }

  /** A list of blocks of a well-formed tree is accepted from scratch exactly if every block comes after its parent. */
  lemma KnownBlocksAcceptedExactly(r: Rules, t: Tree, blocks: seq<Block>)
    requires NodesOk(r, t) && AllFrom(r, t, blocks)
    ensures AllAccepted(r, EMPTY, blocks) <==> ParentsFirst(r, blocks)
  {
    hide Validate, Insert, NodeOk, AllFrom, ParentEarlier;
    if AllAccepted(r, EMPTY, blocks) {
      forall i: nat | i < |blocks|
        ensures ParentEarlier(r, blocks, i)
      {
        AcceptedNamesParent(r, t, blocks, i);
      }
    }
    if ParentsFirst(r, blocks) {
      RebuildPrefix(r, t, blocks, |blocks|);
      assert blocks[..|blocks|] == blocks;
    }
  }
}
