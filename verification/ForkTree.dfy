/** The fork-choice block tree as a value, what inserting a block does to it, and what every insertion keeps. */
module ForkTree {
  import opened Prelude
  import opened Domain
  import opened Digests
  import opened Validation

  datatype ForkNode = ForkNode(hash: Digest, parent: Digest, block: Block, nextHeight: nat, workScore: u128)

  datatype Tree = Tree(nodes: map<Digest, ForkNode>, bestTip: Option<Digest>)

  const EMPTY: Tree := Tree(map[], None)

  datatype ForkChoiceError = UnknownParent(previousBlock: Digest) | InvalidBlock(cause: BlockError)

  lemma PowersBelow(n: nat)
    requires n <= 120
    ensures 1 <= Pow2(n) < TWO128
  {
    Pow2Monotone(n, 120);
    Pow2Monotone(120, 127);
    Pow64();
    Pow2Adds(64, 63);
    assert Pow2(64) == 2 * Pow2(63);
  }

  /** The work one block adds. */
  function BlockWork(r: Rules): (w: u128)
    ensures w >= 1
  {
    PowersBelow(Min(r.config.difficultyZeroBits, 120));
    Pow2(Min(r.config.difficultyZeroBits, 120))
  }

  /** Addition on `u128`, which wraps. */
  function AddWork(a: u128, b: u128): u128 {
    if a as nat + b as nat < TWO128 then a as nat + b as nat else a as nat + b as nat - TWO128
  }

  predicate IsBetterTip(candidate: ForkNode, best: ForkNode) {
    || candidate.workScore > best.workScore
    || (candidate.workScore == best.workScore
        && (|| candidate.nextHeight > best.nextHeight
            || (candidate.nextHeight == best.nextHeight && LexLess(best.hash.bytes, candidate.hash.bytes))))
  }

  /** What the parent named by `b` says about the block expected next; nothing if that parent is unknown. */
  function ContextFor(t: Tree, b: Block): Option<ParentContext> {
    var previous := b.header.previousBlock;
    if previous == ZERO then Some(GENESIS)
    else if previous !in t.nodes then None
    else
      var parent := t.nodes[previous];
      Some(ParentContext(parent.nextHeight, parent.hash, parent.block.header.modelAfter))
  }

  function ParentScore(t: Tree, b: Block): u128 {
    var previous := b.header.previousBlock;
    if previous != ZERO && previous in t.nodes then t.nodes[previous].workScore else 0
  }

  function NewNode(r: Rules, t: Tree, b: Block): ForkNode {
    ForkNode(BlockHash(r, b), b.header.previousBlock, b, b.header.height + 1,
             AddWork(ParentScore(t, b), BlockWork(r)))
  }

  /** `maybe_update_best`. */
  function WithCandidate(t: Tree, candidate: Digest): Tree {
    if candidate !in t.nodes then t
    else if t.bestTip.Some? && t.bestTip.value in t.nodes
            && !IsBetterTip(t.nodes[candidate], t.nodes[t.bestTip.value]) then t
    else t.(bestTip := Some(candidate))
  }

  /** The tree after `b` has been accepted. */
  function Extended(r: Rules, t: Tree, b: Block): Tree {
    WithCandidate(t.(nodes := t.nodes[BlockHash(r, b) := NewNode(r, t, b)]), BlockHash(r, b))
  }

  /** `insert_block`: the new tree and the value returned. */
  function Insert(r: Rules, t: Tree, b: Block): (Tree, Result<Digest, ForkChoiceError>) {
    var hash := BlockHash(r, b);
    if hash in t.nodes then (t, Ok(hash))
    else
      match ContextFor(t, b)
      case None => (t, Err(UnknownParent(b.header.previousBlock)))
      case Some(parent) =>
        match Validate(r, parent, b)
        case Fail(cause) => (t, Err(InvalidBlock(cause)))
        case Pass => (Extended(r, t, b), Ok(hash))
  }

  // ---------------------------------------------------------------- the tree invariant

  /** A node stored at `h` is what inserting its block, on its parent, would have stored. */
  ghost predicate NodeOk(r: Rules, t: Tree, h: Digest)
    requires h in t.nodes
  {
    var n := t.nodes[h];
    && n.hash == h == BlockHash(r, n.block)
    && n.parent == n.block.header.previousBlock
    && n.nextHeight == n.block.header.height + 1
    && ContextFor(t, n.block).Some?
    && Validate(r, ContextFor(t, n.block).value, n.block).Pass?
    && n.workScore == AddWork(ParentScore(t, n.block), BlockWork(r))
  }

  ghost predicate NodesOk(r: Rules, t: Tree) {
    forall h {:trigger NodeOk(r, t, h)} :: h in t.nodes ==> NodeOk(r, t, h)
  }

  /** No known block is better than the best tip. */
  ghost predicate BestIsMaximal(t: Tree) {
    && (t.bestTip == None <==> t.nodes == map[])
    && (t.bestTip.Some? ==>
          && t.bestTip.value in t.nodes
          && forall h :: h in t.nodes ==> !IsBetterTip(t.nodes[h], t.nodes[t.bestTip.value]))
  }

  ghost predicate WellFormed(r: Rules, t: Tree) {
    NodesOk(r, t) && BestIsMaximal(t)
  }

  lemma BetterTotal(a: ForkNode, b: ForkNode)
    requires a.hash != b.hash
    ensures IsBetterTip(a, b) <==> !IsBetterTip(b, a)
  {
    LexTotal(a.hash.bytes, b.hash.bytes);
  }

  lemma NotBetterThanSelf(a: ForkNode)
    ensures !IsBetterTip(a, a)
  {
    LexTotal(a.hash.bytes, a.hash.bytes);
  }

  lemma BetterTransitive(a: ForkNode, b: ForkNode, c: ForkNode)
    requires IsBetterTip(a, b)
    requires a.hash != c.hash && b.hash != c.hash ==> !IsBetterTip(c, b)
    requires b.hash == c.hash ==> b == c
    requires a.hash == c.hash ==> a == c
    ensures a == c || IsBetterTip(a, c)
  {
    if a.hash != c.hash && b.hash != c.hash {
      BetterTotal(b, c);
      if LexLess(b.hash.bytes, a.hash.bytes) && LexLess(c.hash.bytes, b.hash.bytes) {
        LexTransitive(c.hash.bytes, b.hash.bytes, a.hash.bytes);
      }
    }
  }

  /** Nodes that are known stay as they are when others are added. */
  ghost predicate Grows(t: Tree, u: Tree) {
    forall h :: h in t.nodes ==> h in u.nodes && u.nodes[h] == t.nodes[h]
  }

  lemma ContextStable(t: Tree, u: Tree, b: Block)
    requires Grows(t, u)
    requires ContextFor(t, b).Some?
    ensures ContextFor(u, b) == ContextFor(t, b)
    ensures ParentScore(u, b) == ParentScore(t, b)
  {
  }

  lemma NodeOkStable(r: Rules, t: Tree, u: Tree, h: Digest)
    requires Grows(t, u)
    requires h in t.nodes && NodeOk(r, t, h)
    ensures NodeOk(r, u, h)
  {
    ContextStable(t, u, t.nodes[h].block);
  }

  /** A known block names a known parent one height below, or none. */
  lemma ParentBelow(r: Rules, t: Tree, h: Digest)
    requires NodesOk(r, t) && h in t.nodes
    ensures t.nodes[h].parent == ZERO ==> t.nodes[h].nextHeight == 1
    ensures t.nodes[h].parent != ZERO ==>
              && t.nodes[h].parent in t.nodes
              && t.nodes[t.nodes[h].parent].nextHeight + 1 == t.nodes[h].nextHeight
  {
    assert NodeOk(r, t, h);
  }

  /** Accepting a block adds one node and overwrites none; every other outcome leaves the tree as it was. */
  lemma InsertGrows(r: Rules, t: Tree, b: Block)
    ensures Grows(t, Insert(r, t, b).0)
    ensures Insert(r, t, b).1.Ok? <==> BlockHash(r, b) in Insert(r, t, b).0.nodes
    ensures Insert(r, t, b).0.nodes.Keys ==
              t.nodes.Keys + if Insert(r, t, b).1.Ok? then {BlockHash(r, b)} else {}
    ensures Insert(r, t, b).1.Err? || BlockHash(r, b) in t.nodes ==> Insert(r, t, b).0 == t
  {
  }

  /** What an insertion returns, case by case. */
  lemma InsertOutcome(r: Rules, t: Tree, b: Block)
    ensures var result, previous := Insert(r, t, b).1, b.header.previousBlock;
            && (result.Ok? ==> result.value == BlockHash(r, b))
            && (result.Err? ==> BlockHash(r, b) !in t.nodes)
            && (result.Err? && result.error.UnknownParent? <==>
                  BlockHash(r, b) !in t.nodes && previous != ZERO && previous !in t.nodes)
            && (result.Err? && result.error.UnknownParent? ==> result.error.previousBlock == previous)
            && (result.Err? && result.error.InvalidBlock? ==>
                  Fail(result.error.cause) ==
                    Validate(r, if previous == ZERO || previous !in t.nodes then GENESIS
                                else ParentContext(t.nodes[previous].nextHeight, t.nodes[previous].hash,
                                                   t.nodes[previous].block.header.modelAfter), b))
  {
    hide Validate, IsBetterTip;
  }

  lemma CandidateKeepsMaximal(t: Tree, h: Digest)
    requires h in t.nodes
    requires forall k :: k in t.nodes ==> t.nodes[k].hash == k
    requires t.bestTip.Some? ==>
               && t.bestTip.value in t.nodes
               && forall k :: k in t.nodes && k != h ==> !IsBetterTip(t.nodes[k], t.nodes[t.bestTip.value])
    requires t.bestTip == None ==> t.nodes.Keys == {h}
    ensures BestIsMaximal(WithCandidate(t, h))
  {
    NotBetterThanSelf(t.nodes[h]);
    if t.bestTip.Some? && IsBetterTip(t.nodes[h], t.nodes[t.bestTip.value]) {
      var best := t.nodes[t.bestTip.value];
      forall k | k in t.nodes
        ensures !IsBetterTip(t.nodes[k], t.nodes[h])
      {
        if k != h {
          BetterTransitive(t.nodes[h], best, t.nodes[k]);
          BetterTotal(t.nodes[h], t.nodes[k]);
        }
      }
    }
  }

  /** Every insertion, whatever its outcome, keeps the tree well formed and its best tip maximal. */
  lemma InsertKeepsWellFormed(r: Rules, t: Tree, b: Block)
    requires WellFormed(r, t)
    ensures WellFormed(r, Insert(r, t, b).0)
  {
    hide Validate, IsBetterTip;
    var u := Insert(r, t, b).0;
    var hash := BlockHash(r, b);
    InsertGrows(r, t, b);
    if u != t {
      ContextStable(t, u, b);
      forall h | h in u.nodes
        ensures NodeOk(r, u, h)
      {
        if h in t.nodes {
          NodeOkStable(r, t, u, h);
        }
      }
      var v := t.(nodes := t.nodes[hash := NewNode(r, t, b)]);
      assert u == WithCandidate(v, hash);
      if t.bestTip == None {
        assert v.nodes.Keys == {hash};
      }
      forall k | k in v.nodes && k != hash
        ensures v.nodes[k] == t.nodes[k]
      {
      }
      CandidateKeepsMaximal(v, hash);
    }
  }

  lemma EmptyIsWellFormed(r: Rules)
    ensures WellFormed(r, EMPTY)
  {
  }
}
