/**
 * Which of two known blocks is the better tip, exactly and for all heights. Scores wrap, so they repeat after a fixed
 * number of blocks; nothing here assumes that they fit.
 */
module TipOrder {
  import opened Prelude
  import opened Domain
  import opened Digests
  import opened Validation
  import opened ForkTree
  import opened Chain
  import opened ForkOrder

  // ---------------------------------------------------------------- scores repeat

  /** The number of blocks after which scores repeat: 2^128 divided by the work of one block. */
  function Period(r: Rules): (p: nat)
    ensures p >= 256
  {
    Pow8();
    Pow2Monotone(8, 128 - Min(r.config.difficultyZeroBits, 120));
    Pow2(128 - Min(r.config.difficultyZeroBits, 120))
  }

  lemma PeriodTimesWork(r: Rules)
    ensures Period(r) * BlockWork(r) as nat == TWO128
  {
    hide Pow2;
    var n := Min(r.config.difficultyZeroBits, 120);
    Pow2Adds(128 - n, n);
    Pow2Adds(64, 64);
    Pow64();
  }

  lemma HighDifficultyPeriod(r: Rules)
    requires r.config.difficultyZeroBits >= 120
    ensures Period(r) == 256
  {
    Pow8();
  }

  lemma ModNext(n: nat, p: nat)
    requires p >= 1
    ensures (n + 1) % p == if n % p + 1 == p then 0 else n % p + 1
  {
    var q, m := n / p, n % p;
    assert n == q * p + m;
    if m + 1 == p {
      assert n + 1 == (q + 1) * p by { assert (q + 1) * p == q * p + p; }
      ModOf(q + 1, 0, p);
    } else {
      ModOf(q, m + 1, p);
    }
  }

  lemma WrapStep(m: nat, p: nat, w: nat)
    requires m < p && p * w == TWO128 && w >= 1
    ensures m * w + w == (m + 1) * w
    ensures m * w < TWO128
    ensures m * w + w < TWO128 <==> m + 1 < p
    ensures m + 1 == p ==> m * w + w == TWO128
  {
    assert (m + 1) * w == m * w + w;
    ProductOrder(m, p, w);
    ProductOrder(m + 1, p, w);
  }

  lemma ProductOrder(a: nat, b: nat, w: nat)
    requires w >= 1
    ensures a < b ==> a * w < b * w
  {
    if a < b {
      assert b * w == a * w + (b - a) * w;
      Scale(1, b - a, w);
    }
  }

  lemma NextScore(score: u128, m: nat, p: nat, w: u128)
    requires m < p && p * w as nat == TWO128 && w >= 1 && score as nat == m * w as nat
    ensures AddWork(score, w) as nat == (if m + 1 == p then 0 else m + 1) * w as nat
  {
    WrapStep(m, p, w);
  }

  lemma ScoreStep(r: Rules, n: nat)
    ensures ScoreOf(r, 0) == 0 && ScoreOf(r, n + 1) == AddWork(ScoreOf(r, n), BlockWork(r))
  {
  }

  /** The score of a chain of `n` blocks counts the blocks since the last wrap. */
  lemma {:induction false} ScoreIsModular(r: Rules, n: nat)
    ensures ScoreOf(r, n) as nat == (n % Period(r)) * BlockWork(r) as nat
  {
    hide Period, BlockWork, ScoreOf, AddWork;
    if n > 0 {
      ScoreIsModular(r, n - 1);
      PeriodTimesWork(r);
      ModNext(n - 1, Period(r));
      ScoreStep(r, n - 1);
      NextScore(ScoreOf(r, n - 1), (n - 1) % Period(r), Period(r), BlockWork(r));
    } else {
      ScoreStep(r, 0);
      SmallMod(0, Period(r));
    }
  }

  // ---------------------------------------------------------------- the exact order

  /**
   * A block at height `m` with hash `g` beats one at height `n` with hash `h`: by blocks since the last wrap, then by
   * height, then by the number the hash spells.
   */
  predicate RanksAbove(r: Rules, m: nat, g: Digest, n: nat, h: Digest) {
    var p := Period(r);
    || n % p < m % p
    || (n % p == m % p && (n < m || (n == m && Number(h) < Number(g))))
  }

  /** The order of tips, exactly. */
  lemma RankDecides(r: Rules, t: Tree, g: Digest, h: Digest)
    requires NodesOk(r, t) && g in t.nodes && h in t.nodes
    ensures IsBetterTip(t.nodes[g], t.nodes[h]) <==> RanksAbove(r, t.nodes[g].nextHeight, g, t.nodes[h].nextHeight, h)
  {
    hide Validate, NodeOk, LexLess, BigEndian, Period, BlockWork;
    LexIsNumeric(h.bytes, g.bytes);
    KeysAreHashes(r, t);
    ScoreFollowsHeight(r, t, g);
    ScoreFollowsHeight(r, t, h);
    var m, n, p, w: nat := t.nodes[g].nextHeight, t.nodes[h].nextHeight, Period(r), BlockWork(r) as nat;
    ScoreIsModular(r, m);
    ScoreIsModular(r, n);
    ProductOrder(m % p, n % p, w);
    ProductOrder(n % p, m % p, w);
  }

  /** Of two different known blocks with one score and one height, the one whose hash is the greater number is better. */
  lemma GreaterHashWins(r: Rules, t: Tree, g: Digest, h: Digest)
    requires NodesOk(r, t) && g in t.nodes && h in t.nodes && g != h
    requires t.nodes[g].workScore == t.nodes[h].workScore && t.nodes[g].nextHeight == t.nodes[h].nextHeight
    ensures IsBetterTip(t.nodes[g], t.nodes[h]) <==> Number(g) > Number(h)
    ensures IsBetterTip(t.nodes[h], t.nodes[g]) <==> Number(g) < Number(h)
  {
    hide Validate, NodeOk, Period, BlockWork;
    RankDecides(r, t, g, h);
    RankDecides(r, t, h, g);
  }

  /** What an accepted new block does to the best tip, with no assumption on scores. */
  lemma TipAfterInsert(r: Rules, t: Tree, b: Block)
    requires WellFormed(r, t) && t.bestTip.Some?
    requires BlockHash(r, b) !in t.nodes && Insert(r, t, b).1.Ok?
    ensures Insert(r, t, b).0.bestTip ==
              if RanksAbove(r, b.header.height + 1, BlockHash(r, b), BestHeight(t), t.bestTip.value)
              then Some(BlockHash(r, b)) else t.bestTip
  {
    hide Validate, IsBetterTip, RanksAbove, NodeOk;
    var u := Insert(r, t, b).0;
    InsertKeepsWellFormed(r, t, b);
    InsertGrows(r, t, b);
    RankDecides(r, u, BlockHash(r, b), t.bestTip.value);
  }

  /**
   * At difficulty 120 and above, a best tip at height 255 gives way to an accepted block exactly if that block's height
   * leaves the remainder 255 by 256 and is greater, or is 255 as well with the greater hash. So its children up to
   * height 510 are accepted without becoming the best tip, and its descendant at height 511 takes over.
   */
  lemma TipAt255IsReplacedExactly(r: Rules, t: Tree, b: Block)
    requires WellFormed(r, t) && r.config.difficultyZeroBits >= 120
    requires t.bestTip.Some? && BestHeight(t) == 255
    requires BlockHash(r, b) !in t.nodes && Insert(r, t, b).1.Ok?
    ensures var m, u := b.header.height + 1, Insert(r, t, b).0;
            && (u.bestTip == Some(BlockHash(r, b)) <==>
                  m % 256 == 255 && (m > 255 || Number(t.bestTip.value) < Number(BlockHash(r, b))))
            && (u.bestTip != Some(BlockHash(r, b)) ==> u.bestTip == t.bestTip)
            && (255 < m < 511 ==> u.bestTip == t.bestTip)
  {
    hide Validate, IsBetterTip, Period, Number, Insert;
    HighDifficultyPeriod(r);
    BestTipKnown(r, t);
    TipAfterInsert(r, t, b);
  }

  lemma BestTipKnown(r: Rules, t: Tree)
    requires WellFormed(r, t)
    ensures t.bestTip.Some? ==> t.bestTip.value in t.nodes
  {
  }

  /** Of the heights above `n` up to `m`, the one whose block ranks highest: the last one before a wrap, if any, or `m`. */
  function Peak(r: Rules, n: nat, m: nat): (k: nat)
    requires n < m
    ensures n < k <= m
  {
    var q := m as int - (m + 1) % Period(r);
    if q > n then q else m
  }

  /** Counting from just behind a wrap. */
  lemma SinceWrap(m: nat, p: nat, k: nat)
    requires p >= 1
    requires m as int - (m + 1) % p < k <= m
    ensures k % p == k as int - (m as int - (m + 1) % p) - 1
  {
    var s, j := (m + 1) / p, (m + 1) % p;
    assert m + 1 == s * p + j;
    ModOf(s, k - s * p, p);
  }

  lemma LastBeforeWrap(m: nat, p: nat)
    requires p >= 1 && m as int - (m + 1) % p >= 0
    ensures (m - (m + 1) % p) % p == p - 1
  {
    var s, j := (m + 1) / p, (m + 1) % p;
    assert m + 1 == s * p + j;
    assert s * p == (s - 1) * p + p;
    if s > 0 {
      ModOf(s - 1, p - 1, p);
    }
  }

  /** The block at the peak beats every other in the range, whatever their hashes are. */
  lemma PeakRanks(r: Rules, n: nat, m: nat, k: nat, g: Digest, h: Digest)
    requires n < k <= m && k != Peak(r, n, m)
    ensures RanksAbove(r, Peak(r, n, m), g, k, h)
  {
    hide Period, Number;
    var p := Period(r);
    var q := m as int - (m + 1) % p;
    if k > q {
      SinceWrap(m, p, k);
      SinceWrap(m, p, m);
    }
    if q > n {
      LastBeforeWrap(m, p);
    }
  }

  /** Below the first wrap the peak is the end. */
  lemma PeakBelowWrap(r: Rules, n: nat, m: nat)
    requires n < m < Period(r)
    ensures Peak(r, n, m) == m
  {
    hide Period;
    if m + 1 < Period(r) {
      SmallMod(m + 1, Period(r));
    }
  }

  // ---------------------------------------------------------------- the height of the best tip

  lemma PathBlock(r: Rules, t: Tree, h: Digest, k: nat)
    requires NodesOk(r, t) && Linked(t) && h in t.nodes
    requires 0 < k <= t.nodes[h].nextHeight
    ensures k <= |PathTo(t, h)|
    ensures var g := BlockHash(r, PathTo(t, h)[k - 1]); g in t.nodes && t.nodes[g].nextHeight == k
  {
    hide Validate, NodeOk, ValidChain;
    PathIsValidChain(r, t, h);
    PathPrefix(r, t, h, k - 1);
    PathIsValidChain(r, t, BlockHash(r, PathTo(t, h)[k - 1]));
  }

  lemma LastOfPeriod(r: Rules, g: Digest, n: nat, h: Digest)
    requires !RanksAbove(r, Period(r) - 1, g, n, h)
    ensures n % Period(r) == Period(r) - 1
  {
    hide Period, Number;
    SmallMod(Period(r) - 1, Period(r));
  }

  lemma BestIsUnbeaten(r: Rules, t: Tree, h: Digest)
    requires WellFormed(r, t) && h in t.nodes
    ensures t.bestTip.Some? && t.bestTip.value in t.nodes && !IsBetterTip(t.nodes[h], t.nodes[t.bestTip.value])
    ensures NodesOk(r, t) && Linked(t)
  {
    hide IsBetterTip, NodeOk;
    NodesAreLinked(r, t);
  }

  /** A best tip is in the first period, or the last block of a later one. */
  lemma BestHeightShape(r: Rules, t: Tree)
    requires WellFormed(r, t)
    ensures BestHeight(t) < Period(r) || BestHeight(t) % Period(r) == Period(r) - 1
  {
    hide Validate, IsBetterTip, NodeOk, Period, WellFormed, NodesOk, Linked, PathTo, RanksAbove;
    var p := Period(r);
    if BestHeight(t) >= p {
      var best := t.bestTip.value;
      BestIsUnbeaten(r, t, best);
      PathBlock(r, t, best, p - 1);
      var g := BlockHash(r, PathTo(t, best)[p - 2]);
      BestIsUnbeaten(r, t, g);
      RankDecides(r, t, g, best);
      LastOfPeriod(r, g, BestHeight(t), best);
    }
  }

  /** Whatever is inserted, the best tip never gets lower: not even when scores wrap. */
  lemma InsertOnlyRaises(r: Rules, t: Tree, b: Block)
    requires WellFormed(r, t)
    ensures BestHeight(Insert(r, t, b).0) >= BestHeight(t)
  {
    hide Validate, IsBetterTip, NodeOk, Period, Number, Insert;
    var u := Insert(r, t, b).0;
    BestTipKnown(r, t);
    InsertGrows(r, t, b);
    if u != t && t.bestTip.Some? {
      NewTipHeight(r, t, b);
      TipAfterInsert(r, t, b);
      BestHeightShape(r, t);
      SmallMod(BestHeight(t), Period(r));
    }
  }

  lemma NewTipHeight(r: Rules, t: Tree, b: Block)
    requires Insert(r, t, b).0 != t
    ensures Insert(r, t, b).1.Ok? && BlockHash(r, b) !in t.nodes
    ensures BlockHash(r, b) in Insert(r, t, b).0.nodes
    ensures Insert(r, t, b).0.nodes[BlockHash(r, b)].nextHeight == b.header.height + 1
  {
    hide Validate, IsBetterTip;
  }

  lemma SmallMod(n: nat, p: nat)
    requires p >= 1
    ensures n % p <= n
    ensures n < p ==> n % p == n
  {
  }
}
