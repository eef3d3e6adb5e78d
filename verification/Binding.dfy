/** What a block hash commits to: the whole block, up to a collision between byte strings the two blocks hash. */
module Binding {
  import opened Prelude
  import opened Domain
  import opened Validation

  function EntryInput(r: Rules, e: TraceEntry): seq<byte> {
    r.encode.commit(e.previousCommitment, e.step)
  }

  /** The byte strings that are hashed to check a block: its header, and every trace entry with the commitment before it. */
  ghost predicate HashedBy(r: Rules, b: Block, bytes: seq<byte>) {
    || bytes == r.encode.header(b.header)
    || exists i :: 0 <= i < |b.trace.entries| && bytes == EntryInput(r, b.trace.entries[i])
  }

  /** Two different byte strings, one hashed by each block, with the same digest. */
  ghost predicate Collide(r: Rules, a: Block, b: Block) {
    exists x, y :: HashedBy(r, a, x) && HashedBy(r, b, y) && x != y && r.hash(x) == r.hash(y)
  }

  lemma HeaderLayoutInjective(r: Rules, g: BlockHeader, h: BlockHeader)
    requires r.encode.header(g) == r.encode.header(h)
    ensures g == h
  {
    assert r.encode.header(g) == HeaderInput(g) && r.encode.header(h) == HeaderInput(h);
    HeaderInputInjective(g, h);
  }

  lemma EntryLayoutInjective(r: Rules, d: TraceEntry, e: TraceEntry)
    requires EntryInput(r, d) == EntryInput(r, e)
    ensures d.previousCommitment == e.previousCommitment && d.step == e.step
  {
    assert EntryInput(r, d) == CommitInput(d.previousCommitment, d.step);
    assert EntryInput(r, e) == CommitInput(e.previousCommitment, e.step);
    CommitInputInjective(d.previousCommitment, d.step, e.previousCommitment, e.step);
  }

  /** Blocks with one hash have one header, or their headers collide. */
  lemma HashBindsHeader(r: Rules, a: Block, b: Block)
    requires BlockHash(r, a) == BlockHash(r, b)
    ensures a.header == b.header || Collide(r, a, b)
  {
    var x, y := r.encode.header(a.header), r.encode.header(b.header);
    if x == y {
      HeaderLayoutInjective(r, a.header, b.header);
    } else {
      assert HashedBy(r, a, x) && HashedBy(r, b, y);
    }
  }

  /** Going back along the commitment chain from a common commitment, all entries agree. */
  lemma {:induction false} RootBindsEntries(r: Rules, a: Block, b: Block, i: nat)
    requires |a.trace.entries| == |b.trace.entries|
    requires CommitmentsChain(r, a.trace) && CommitmentsChain(r, b.trace)
    requires i <= |a.trace.entries|
    requires CommitmentBefore(a.trace.entries, i) == CommitmentBefore(b.trace.entries, i)
    requires !Collide(r, a, b)
    ensures a.trace.entries[..i] == b.trace.entries[..i]
  {
    if i > 0 {
      var d, e := a.trace.entries[i - 1], b.trace.entries[i - 1];
      assert EntryLinked(r, a.trace.entries, i - 1) && EntryLinked(r, b.trace.entries, i - 1);
      assert HashedBy(r, a, EntryInput(r, d)) && HashedBy(r, b, EntryInput(r, e));
      assert EntryInput(r, d) == EntryInput(r, e);
      EntryLayoutInjective(r, d, e);
      RootBindsEntries(r, a, b, i - 1);
      assert a.trace.entries[..i] == a.trace.entries[..i - 1] + [d];
      assert b.trace.entries[..i] == b.trace.entries[..i - 1] + [e];
    }
  }

  /**
   * Two valid blocks with the same hash are the same block, trace and all, or they exhibit a hash collision. Only the
   * header is hashed directly; the trace is bound through its commitment chain.
   */
  lemma BlockHashBindsBlock(r: Rules, p: ParentContext, a: Block, q: ParentContext, b: Block)
    requires Validate(r, p, a).Pass? && Validate(r, q, b).Pass?
    requires BlockHash(r, a) == BlockHash(r, b)
    ensures a == b || Collide(r, a, b)
  {
    if !Collide(r, a, b) {
      HashBindsHeader(r, a, b);
      RootBindsEntries(r, a, b, |a.trace.entries|);
      assert a.trace.entries[..|a.trace.entries|] == a.trace.entries;
      assert b.trace.entries[..|b.trace.entries|] == b.trace.entries;
    }
  }

  /**
   * The trace is not bound for blocks that have not been validated: dropping the entries of a non-empty trace leaves
   * the hash unchanged. So "already known by hash" says nothing about the body that was offered.
   */
  lemma HashIgnoresUnvalidatedTrace(r: Rules, b: Block)
    requires b.trace.entries != []
    ensures exists c: Block :: c != b && BlockHash(r, c) == BlockHash(r, b)
  {
    var c := b.(trace := b.trace.(entries := []));
    assert c != b && BlockHash(r, c) == BlockHash(r, b);
  }

  /** Two different trace entries of which the second hashes to what the first commits to. */
  ghost predicate OpeningCollides(r: Rules, committed: TraceEntry, opening: TraceEntry) {
    EntryInput(r, committed) != EntryInput(r, opening) && r.hash(EntryInput(r, committed)) == r.hash(EntryInput(r, opening))
  }

  /**
   * What the verifier of a sample learns. The commitment check passes exactly if the opened entry is the committed one, up
   * to a collision, and the transition check exactly if the opened step is the training step of that index and seed.
   */
  lemma VerifiedSampleMeaning(r: Rules, seed: u64, index: u64, committed: TraceEntry, opening: TraceEntry)
    requires committed.commitment == Commit(r, committed.previousCommitment, committed.step)
    requires !OpeningCollides(r, committed, opening)
    ensures var sample := VerifySample(r, seed, index, committed, opening);
            && sample.index == index
            && (sample.commitmentOk <==> opening == committed)
            && (sample.transitionOk <==> opening.step == r.train(seed, index, opening.step.stateBefore))
  {
    var sample := VerifySample(r, seed, index, committed, opening);
    assert r.train(seed, index, opening.step.stateBefore) == Deterministic(r.mixer, seed, index, opening.step.stateBefore);
    if sample.commitmentOk {
      EntryLayoutInjective(r, committed, opening);
    }
  }
}
