/**
 * Work distribution in EPS_BAB::Worker::find and EPS_DFS::Worker::find.
 *
 * In the parallel decomposition mode the master's groups are handed out
 * one per worker by a shared decomposition cursor; every worker then
 * appends its own groups and tables as a new batch of the resolution list,
 * and the shared resolution cursor hands out one group per call until the
 * list is used up.  Each call runs under the engine's mutex, so a call is
 * one sequential step here.
 */
module Cursors {
  import opened Wrappers
  import opened Decompose

  // ---------------------------------------------------------------------
  // Engine set-up
  // ---------------------------------------------------------------------

  /** The decomposition mode and the number of sub-problems the master asks for. */
  datatype Setup = Setup(parallel: bool, masterProblems: nat)

  /**
   * Parallel decomposition only for DBDFSwP with more than one thread; the
   * master then produces one group per thread, otherwise the requested
   * number of sub-problems.
   */
  function ChooseSetup(dbdfswp: bool, threads: nat, nbProblems: nat): (s: Setup)
    ensures s.parallel <==> dbdfswp && threads > 1
    ensures s.parallel ==> s.masterProblems == threads
    ensures !s.parallel ==> s.masterProblems == nbProblems
  {
    var parallel := dbdfswp && threads > 1;
    Setup(parallel, if parallel then threads else nbProblems)
  }

  /** No worker thread is started when neither the master nor the workers left a group. */
  function StartsWorkers(masterGroups: seq<nat>, problems: nat): (b: bool)
    ensures !b <==> masterGroups == [] && problems == 0
  {
    masterGroups != [] || problems != 0
  }

  // ---------------------------------------------------------------------
  // Decomposition cursor
  // ---------------------------------------------------------------------

  /** Tuples [lo, hi) of one table. */
  datatype Slice = Slice(lo: nat, hi: nat)

  /**
   * The master's groups handed out to the decomposing workers: the k-th
   * claim copies master tuples [t, t + g_k) and moves t to its end.
   */
  class DecompositionCursor {
    const groups: seq<nat>
    /** _current_index_tuple_decomposition */
    var tuple: nat
    /** _current_problem_decomposition */
    var problem: nat

    ghost predicate Valid()
      reads this
    {
      problem <= |groups| && tuple == Sum(groups[..problem])
    }

    constructor (groups: seq<nat>)
      ensures Valid() && this.groups == groups && problem == 0 && tuple == 0
    {
      this.groups := groups;
      tuple, problem := 0, 0;
    }

    /**
     * One worker's claim.  The group is read without a bound check, so the
     * master must have produced a group for every claim.
     */
    method Claim() returns (s: Slice)
      requires Valid() && problem < |groups|
      modifies this
      ensures Valid() && problem == old(problem) + 1
      ensures s == Slice(old(tuple), old(tuple) + groups[old(problem)]) && tuple == s.hi
      ensures s.lo == Sum(groups[..problem - 1]) && s.hi == Sum(groups[..problem])
    {
      PrefixSumStep(groups, problem);
      var last := tuple + groups[problem];
      s := Slice(tuple, last);
      tuple := last;
      problem := problem + 1;
    }
  }

  lemma PrefixSumStep(g: seq<nat>, k: nat)
    requires k < |g|
    ensures Sum(g[..k + 1]) == Sum(g[..k]) + g[k]
  {
    assert g[..k + 1] == g[..k] + [g[k]];
    SumAppend(g[..k], [g[k]]);
  }

  /**
   * The slices of workers j < k are back to back: worker j gets
   * [Sum(g[..j]), Sum(g[..j+1])), so two workers never share a tuple and
   * together they cover [0, Sum(g[..k])).
   */
  lemma {:induction false} SlicesDisjoint(g: seq<nat>, j: nat, k: nat)
    requires j < k <= |g|
    ensures Sum(g[..j + 1]) <= Sum(g[..k])
  {
    if j + 1 < k {
      SlicesDisjoint(g, j, k - 1);
      PrefixSumStep(g, k - 1);
    }
  }

  // ---------------------------------------------------------------------
  // Resolution cursor
  // ---------------------------------------------------------------------

  /** Group `batch`'s tuples [lo, hi). */
  datatype Claimed = Claimed(batch: nat, lo: nat, hi: nat)

  /** The three counters of the resolution cursor. */
  datatype Pos = Pos(problem: nat, tuple: nat, batch: nat)

  /** The tuple count of a batch: max of its int and bool table sizes (0 past the end). */
  function CountAt(counts: seq<nat>, b: nat): nat
  {
    if b < |counts| then counts[b] else 0
  }

  /**
   * One claim: group `problem` of the list takes [tuple, tuple + g) of the
   * current batch; the batch is finished once its end is reached.
   */
  function Advance(p: Pos, groups: seq<nat>, counts: seq<nat>): (r: (Claimed, Pos))
    requires p.problem < |groups|
    ensures r.0 == Claimed(p.batch, p.tuple, p.tuple + groups[p.problem])
    ensures r.1.problem == p.problem + 1
    ensures r.0.hi >= CountAt(counts, p.batch) ==> r.1.tuple == 0 && r.1.batch == p.batch + 1
    ensures r.0.hi < CountAt(counts, p.batch) ==> r.1.tuple == r.0.hi && r.1.batch == p.batch
  {
    var last := p.tuple + groups[p.problem];
    if last + 1 > CountAt(counts, p.batch) then
      (Claimed(p.batch, p.tuple, last), Pos(p.problem + 1, 0, p.batch + 1))
    else
      (Claimed(p.batch, p.tuple, last), Pos(p.problem + 1, last, p.batch))
  }

  /** Every claim made from p until the list is used up, in order. */
  function Trace(p: Pos, groups: seq<nat>, counts: seq<nat>): seq<Claimed>
    decreases |groups| - p.problem
  {
    if p.problem >= |groups| then []
    else
      var (c, q) := Advance(p, groups, counts);
      [c] + Trace(q, groups, counts)
  }

  /** The shared resolution list and its cursor. */
  class ResolutionCursor {
    /** _groups_tuples_resolution: every batch's group sizes, one after the other */
    var groups: seq<nat>
    /** per batch, max(#bool tuples, #int tuples) */
    var counts: seq<nat>
    var pos: Pos

    constructor ()
      ensures groups == [] && counts == [] && pos == Pos(0, 0, 0)
    {
      groups, counts, pos := [], [], Pos(0, 0, 0);
    }

    /** A worker (or the sequential master) publishes its groups as a new batch, if it has any. */
    method AddBatch(g: seq<nat>, count: nat)
      modifies this
      ensures g != [] ==> groups == old(groups) + g && counts == old(counts) + [count]
      ensures g == [] ==> groups == old(groups) && counts == old(counts)
      ensures pos == old(pos)
    {
      if g != [] {
        groups := groups + g;
        counts := counts + [count];
      }
    }

    /** find(): the next group if one is left. */
    method Claim() returns (c: Option<Claimed>)
      modifies this`pos
      ensures c.Some? <==> old(pos).problem < |groups|
      ensures c.Some? ==> (c.value, pos) == Advance(old(pos), groups, counts)
      ensures c.None? ==> pos == old(pos)
    {
      if pos.problem < |groups| {
        var last := pos.tuple + groups[pos.problem];
        c := Some(Claimed(pos.batch, pos.tuple, last));
        if last + 1 > CountAt(counts, pos.batch) {
          pos := Pos(pos.problem + 1, 0, pos.batch + 1);
        } else {
          pos := Pos(pos.problem + 1, last, pos.batch);
        }
      } else {
        c := None;
      }
    }
  }

  // ---------------------------------------------------------------------
  // The claims are exactly the intended ones
  // ---------------------------------------------------------------------

  /** The batches one after the other. */
  function Flatten(ls: seq<seq<nat>>): seq<nat>
  {
    if ls == [] then [] else Flatten(ls[..|ls| - 1]) + ls[|ls| - 1]
  }

  /** The claims batch b is meant to give: its groups back to back from lo. */
  function BatchClaims(b: nat, l: seq<nat>, lo: nat): (r: seq<Claimed>)
    ensures |r| == |l|
    decreases |l|
  {
    if l == [] then [] else [Claimed(b, lo, lo + l[0])] + BatchClaims(b, l[1..], lo + l[0])
  }

  /** Every batch from b on, each started at tuple 0. */
  function BatchesFrom(ls: seq<seq<nat>>, b: nat): seq<Claimed>
    decreases |ls| - b
  {
    if b >= |ls| then [] else BatchClaims(b, ls[b], 0) + BatchesFrom(ls, b + 1)
  }

  /** Each batch has groups, all of them non-empty, summing to its count. */
  ghost predicate WellBatched(ls: seq<seq<nat>>, counts: seq<nat>)
  {
    |counts| == |ls| &&
    (forall b :: 0 <= b < |ls| ==> ls[b] != [] && Sum(ls[b]) == counts[b]) &&
    (forall b, i :: 0 <= b < |ls| && 0 <= i < |ls[b]| ==> ls[b][i] >= 1)
  }

  lemma {:induction false} FlattenPrefix(ls: seq<seq<nat>>, b: nat)
    requires b <= |ls|
    ensures |Flatten(ls[..b])| <= |Flatten(ls)|
    ensures Flatten(ls)[..|Flatten(ls[..b])|] == Flatten(ls[..b])
    decreases |ls| - b
  {
    if b < |ls| {
      FlattenPrefix(ls, b + 1);
      assert ls[..b + 1][..b] == ls[..b];
      assert Flatten(ls[..b + 1]) == Flatten(ls[..b]) + ls[b];
    } else {
      assert ls[..b] == ls;
    }
  }

  /** Group k of batch b sits right after the earlier batches in the flat list. */
  lemma FlattenIndex(ls: seq<seq<nat>>, b: nat, k: nat)
    requires b < |ls| && k < |ls[b]|
    ensures |Flatten(ls[..b])| + k < |Flatten(ls)|
    ensures Flatten(ls)[|Flatten(ls[..b])| + k] == ls[b][k]
  {
    FlattenPrefix(ls, b + 1);
    assert ls[..b + 1][..b] == ls[..b];
    var f := Flatten(ls[..b + 1]);
    assert f == Flatten(ls[..b]) + ls[b];
    assert f[|Flatten(ls[..b])| + k] == ls[b][k];
  }

  lemma FlattenLength(ls: seq<seq<nat>>, b: nat)
    requires b < |ls|
    ensures |Flatten(ls[..b + 1])| == |Flatten(ls[..b])| + |ls[b]|
  {
    assert ls[..b + 1][..b] == ls[..b];
  }

  /** A strict prefix of positive sizes sums to less than the whole. */
  lemma PositivePrefix(l: seq<nat>, k: nat)
    requires k < |l| && forall i :: 0 <= i < |l| ==> l[i] >= 1
    ensures Sum(l[..k]) < Sum(l)
  {
    assert l == l[..k] + l[k..];
    SumAppend(l[..k], l[k..]);
  }

  /** The cursor at group k of batch b. */
  function At(ls: seq<seq<nat>>, b: nat, k: nat): Pos
    requires b < |ls| && k <= |ls[b]|
  {
    Pos(|Flatten(ls[..b])| + k, Sum(ls[b][..k]), b)
  }

  /** One claim at group k of batch b: that group, then the next group or the next batch. */
  lemma AdvanceAt(ls: seq<seq<nat>>, counts: seq<nat>, b: nat, k: nat)
    requires WellBatched(ls, counts)
    requires b < |ls| && k < |ls[b]|
    ensures At(ls, b, k).problem < |Flatten(ls)|
    ensures Advance(At(ls, b, k), Flatten(ls), counts).0 == Claimed(b, Sum(ls[b][..k]), Sum(ls[b][..k + 1]))
    ensures k + 1 < |ls[b]| ==> Advance(At(ls, b, k), Flatten(ls), counts).1 == At(ls, b, k + 1)
    ensures k + 1 == |ls[b]| ==> Advance(At(ls, b, k), Flatten(ls), counts).1 == Pos(|Flatten(ls[..b + 1])|, 0, b + 1)
  {
    var l := ls[b];
    FlattenIndex(ls, b, k);
    PrefixSumStep(l, k);
    if k + 1 < |l| {
      PositivePrefix(l, k + 1);
    } else {
      assert l[..k + 1] == l;
      FlattenLength(ls, b);
    }
  }

  lemma BatchClaimsUnfold(b: nat, l: seq<nat>, k: nat)
    requires k < |l|
    ensures BatchClaims(b, l[k..], Sum(l[..k])) ==
            [Claimed(b, Sum(l[..k]), Sum(l[..k]) + l[k])] + BatchClaims(b, l[k + 1..], Sum(l[..k]) + l[k])
  {
    assert l[k..][1..] == l[k + 1..];
  }

  /** From group k of batch b, the cursor produces the rest of that batch and every later batch. */
  lemma {:induction false} TraceFrom(ls: seq<seq<nat>>, counts: seq<nat>, b: nat, k: nat)
    requires WellBatched(ls, counts)
    requires b < |ls| && k < |ls[b]|
    ensures Trace(At(ls, b, k), Flatten(ls), counts)
         == BatchClaims(b, ls[b][k..], Sum(ls[b][..k])) + BatchesFrom(ls, b + 1)
    decreases |ls| - b, |ls[b]| - k
  {
    var groups := Flatten(ls);
    var l := ls[b];
    var p := At(ls, b, k);
    AdvanceAt(ls, counts, b, k);
    PrefixSumStep(l, k);
    BatchClaimsUnfold(b, l, k);
    var q := Advance(p, groups, counts).1;
    assert Trace(p, groups, counts) == [Advance(p, groups, counts).0] + Trace(q, groups, counts);
    if k + 1 < |l| {
      TraceFrom(ls, counts, b, k + 1);
    } else {
      assert l[k + 1..] == [];
      if b + 1 < |ls| {
        assert ls[b + 1][..0] == [] && ls[b + 1][0..] == ls[b + 1];
        assert q == At(ls, b + 1, 0);
        TraceFrom(ls, counts, b + 1, 0);
      } else {
        assert ls[..b + 1] == ls;
        assert Trace(q, groups, counts) == [];
      }
    }
  }

  /**
   * Started at (0, 0, 0) over well-formed batches, the cursor hands out
   * exactly each batch's groups, back to back from tuple 0, batch after
   * batch.
   */
  lemma ClaimsAreBatches(ls: seq<seq<nat>>, counts: seq<nat>)
    requires WellBatched(ls, counts)
    ensures Trace(Pos(0, 0, 0), Flatten(ls), counts) == BatchesFrom(ls, 0)
  {
    if ls == [] {
    } else {
      assert ls[..0] == [];
      assert ls[0][..0] == [] && ls[0][0..] == ls[0];
      assert At(ls, 0, 0) == Pos(0, 0, 0);
      TraceFrom(ls, counts, 0, 0);
    }
  }

  /** Claim k of a batch covers [lo + Sum(l[..k]), lo + Sum(l[..k+1])). */
  lemma {:induction false} ClaimAt(b: nat, l: seq<nat>, lo: nat, k: nat)
    requires k < |l|
    ensures BatchClaims(b, l, lo)[k] == Claimed(b, lo + Sum(l[..k]), lo + Sum(l[..k + 1]))
    decreases |l|
  {
    PrefixSumStep(l, k);
    if k > 0 {
      ClaimAt(b, l[1..], lo + l[0], k - 1);
      assert BatchClaims(b, l, lo)[k] == BatchClaims(b, l[1..], lo + l[0])[k - 1];
      assert l[..k][1..] == l[1..][..k - 1];
      assert l[..k] != [] && l[..k][0] == l[0];
      PrefixSumStep(l[1..], k - 1);
    }
  }

  /** Some prefix-sum range [Sum(l[..j]), Sum(l[..j+1])) holds t. */
  lemma {:induction false} FindClaim(l: seq<nat>, t: nat) returns (j: nat)
    requires t < Sum(l)
    ensures j < |l| && Sum(l[..j]) <= t < Sum(l[..j + 1])
    decreases |l|
  {
    var n := |l|;
    assert l[..n] == l;
    PrefixSumStep(l, n - 1);
    if t >= Sum(l[..n - 1]) {
      j := n - 1;
    } else {
      var l' := l[..n - 1];
      j := FindClaim(l', t);
      assert l'[..j] == l[..j] && l'[..j + 1] == l[..j + 1];
    }
  }

  /**
   * The claims of one batch partition its tuples: every t in
   * [lo, lo + Sum(l)) lies in exactly one of them.
   */
  lemma BatchClaimsPartition(b: nat, l: seq<nat>, lo: nat, t: nat)
    requires lo <= t < lo + Sum(l)
    ensures exists k :: 0 <= k < |l| && BatchClaims(b, l, lo)[k].lo <= t < BatchClaims(b, l, lo)[k].hi
    ensures forall k1, k2 ::
              (0 <= k1 < |l| && 0 <= k2 < |l| &&
               BatchClaims(b, l, lo)[k1].lo <= t < BatchClaims(b, l, lo)[k1].hi &&
               BatchClaims(b, l, lo)[k2].lo <= t < BatchClaims(b, l, lo)[k2].hi) ==> k1 == k2
  {
    var all := BatchClaims(b, l, lo);
    forall k | 0 <= k < |l|
      ensures all[k] == Claimed(b, lo + Sum(l[..k]), lo + Sum(l[..k + 1]))
    {
      ClaimAt(b, l, lo, k);
    }
    var j := FindClaim(l, t - lo);
    assert all[j].lo <= t < all[j].hi;
    forall k1, k2 | 0 <= k1 < |l| && 0 <= k2 < |l| &&
                    all[k1].lo <= t < all[k1].hi && all[k2].lo <= t < all[k2].hi
      ensures k1 == k2
    {
      ClaimAt(b, l, lo, k1);
      ClaimAt(b, l, lo, k2);
      if k1 < k2 {
        SlicesDisjoint(l, k1, k2);
      } else if k2 < k1 {
        SlicesDisjoint(l, k2, k1);
      }
    }
  }
}
