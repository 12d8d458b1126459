/**
 * Integer and sequence bookkeeping of the EPS decomposition
 * (EPS_BAB::Worker::decomposeProblems, EPS_DFS::Worker::decomposeProblems,
 * EPS_DFS::Worker::RDFS and the per-worker quota of both constructors).
 *
 * Decision variables are numbered flat: the bool variables first, then the
 * int variables.  A pass fixes a prefix of that numbering, records one tuple
 * per open leaf and either stops or starts a wider pass.
 */
module Decompose {
  import opened Wrappers

  /** 2^32: the source does its products in `unsigned int`. */
  const U32: int := 0x1_0000_0000

  function Min(a: int, b: int): int { if a <= b then a else b }
  function Max(a: int, b: int): int { if a >= b then a else b }

  // ---------------------------------------------------------------------
  // Flat numbering
  // ---------------------------------------------------------------------

  /** A flat position names either `bv[b]` or `iv[k]`. */
  datatype VarRef = BoolAt(b: nat) | IntAt(k: nat)

  function FlatIndex(r: VarRef, nbBool: nat): nat
  {
    match r
    case BoolAt(b) => b
    case IntAt(k) => k + nbBool
  }

  /** Position i names bv[i] when i < nbBool and iv[i - nbBool] otherwise. */
  function FlatVar(i: nat, nbBool: nat): (r: VarRef)
    ensures r.BoolAt? <==> i < nbBool
    ensures FlatIndex(r, nbBool) == i
  {
    if i < nbBool then BoolAt(i) else IntAt(i - nbBool)
  }

  /** FlatIndex and FlatVar are inverse on well-formed references. */
  lemma FlatVarOfIndex(r: VarRef, nbBool: nat)
    requires r.BoolAt? ==> r.b < nbBool
    ensures FlatVar(FlatIndex(r, nbBool), nbBool) == r
  {
  }

  /** A finite domain, listed in increasing order; assigned iff a singleton. */
  type Dom = seq<int>

  /** `val()` of an assigned variable. */
  function Val(d: Dom): int { if |d| > 0 then d[0] else 0 }

  /** The bool and int variables of a space, after propagation. */
  datatype Space = Space(bv: seq<Dom>, iv: seq<Dom>)

  function NbVars(s: Space): nat { |s.bv| + |s.iv| }

  function DomAt(s: Space, i: nat): Dom
    requires i < NbVars(s)
  {
    if i < |s.bv| then s.bv[i] else s.iv[i - |s.bv|]
  }

  /**
   * The tuple loop of a pass: positions below `level` go to the bool tuple
   * when they name a bool variable and to the int tuple otherwise.
   */
  method RecordPrefix(s: Space, level: nat) returns (tb: seq<int>, ti: seq<int>)
    requires level <= NbVars(s)
    ensures |tb| == Min(level, |s.bv|) && |tb| + |ti| == level
    ensures forall j :: 0 <= j < |tb| ==> tb[j] == Val(s.bv[j])
    ensures forall j :: 0 <= j < |ti| ==> ti[j] == Val(s.iv[j])
  {
    tb, ti := [], [];
    var i := 0;
    while i < level
      invariant i <= level
      invariant |tb| == Min(i, |s.bv|) && |tb| + |ti| == i
      invariant forall j :: 0 <= j < |tb| ==> tb[j] == Val(s.bv[j])
      invariant forall j :: 0 <= j < |ti| ==> ti[j] == Val(s.iv[j])
    {
      if FlatVar(i, |s.bv|).BoolAt? {
        tb := tb + [Val(s.bv[i])];
      } else {
        ti := ti + [Val(s.iv[i - |s.bv|])];
      }
      i := i + 1;
    }
  }

  // ---------------------------------------------------------------------
  // Level selection
  // ---------------------------------------------------------------------

  predicate U32Sizes(sizes: seq<nat>)
  {
    forall i :: 0 <= i < |sizes| ==> sizes[i] < U32
  }

  /**
   * The BAB level loop, as written: for each position i from `i` on, the
   * level is bumped, the product is multiplied (modulo 2^32) by the domain
   * size, and the loop stops once that product times the size once more
   * (again modulo 2^32) exceeds P.  The result is (level, product).
   */
  function LevelBab(i: nat, sizes: seq<nat>, product: nat, P: nat): (nat, nat)
    decreases |sizes| - i
  {
    if i >= |sizes| then (i, product)
    else
      var p := (product * sizes[i]) % U32;
      if (p * sizes[i]) % U32 > P then (i + 1, p)
      else LevelBab(i + 1, sizes, p, P)
  }

  /** The loop of eps_bab.cpp, proved equal to LevelBab. */
  method LevelSelectBab(start: nat, sizes: seq<nat>, product0: nat, P: nat)
    returns (level: nat, product: nat)
    requires start <= |sizes|
    ensures (level, product) == LevelBab(start, sizes, product0, P)
  {
    level, product := start, product0;
    var i := start;
    while i < |sizes|
      invariant start <= i <= |sizes| && level == i
      invariant LevelBab(i, sizes, product, P) == LevelBab(start, sizes, product0, P)
    {
      level := level + 1;
      product := (product * sizes[i]) % U32;
      if (product * sizes[i]) % U32 > P {
        break;
      }
      i := i + 1;
    }
  }

  /**
   * LevelBab never goes beyond the variable count, always adds at least one
   * variable when the prefix is not yet total, and stops early only at a
   * position whose estimate exceeded P; no earlier position did.
   */
  lemma {:induction false} LevelBabBounds(i: nat, sizes: seq<nat>, product: nat, P: nat)
    requires i <= |sizes|
    ensures var (level, p) := LevelBab(i, sizes, product, P);
      i <= level <= |sizes| &&
      (i < |sizes| ==> i < level) &&
      (level < |sizes| ==> (p * sizes[level - 1]) % U32 > P) &&
      (product < U32 || i < |sizes| ==> p < U32)
    decreases |sizes| - i
  {
    if i < |sizes| {
      var p := (product * sizes[i]) % U32;
      if (p * sizes[i]) % U32 <= P {
        LevelBabBounds(i + 1, sizes, p, P);
      }
    }
  }

  /**
   * The same loop over unbounded integers: what the 32-bit loop is evidently
   * meant to compute.
   */
  function LevelBabExact(i: nat, sizes: seq<nat>, product: nat, P: nat): (nat, nat)
    decreases |sizes| - i
  {
    if i >= |sizes| then (i, product)
    else
      var p := product * sizes[i];
      if p * sizes[i] > P then (i + 1, p)
      else LevelBabExact(i + 1, sizes, p, P)
  }

  /** The running product after multiplying in sizes[i..j]. */
  function Acc(product: nat, sizes: seq<nat>, i: nat, j: nat): nat
    requires i <= j <= |sizes|
    decreases j - i
  {
    if i == j then product else Acc(product * sizes[i], sizes, i + 1, j)
  }

  /**
   * With exact arithmetic the level stops at the first position j whose
   * estimate, the running product up to j times size(j-1), exceeds P; every
   * earlier position stayed within P.
   */
  lemma {:induction false} LevelBabExactFirstOver(i: nat, sizes: seq<nat>, product: nat, P: nat)
    requires i <= |sizes|
    ensures var (level, p) := LevelBabExact(i, sizes, product, P);
      i <= level <= |sizes| && (i < |sizes| ==> i < level) &&
      p == Acc(product, sizes, i, level) &&
      (level < |sizes| ==> p * sizes[level - 1] > P) &&
      (forall j :: i < j < level ==> Acc(product, sizes, i, j) * sizes[j - 1] <= P)
    decreases |sizes| - i
  {
    if i < |sizes| {
      var p := product * sizes[i];
      assert Acc(product, sizes, i, i + 1) == p;
      if p * sizes[i] <= P {
        LevelBabExactFirstOver(i + 1, sizes, p, P);
        var (level, q) := LevelBabExact(i + 1, sizes, p, P);
        assert Acc(product, sizes, i, level) == Acc(p, sizes, i + 1, level);
        forall j | i < j < level
          ensures Acc(product, sizes, i, j) * sizes[j - 1] <= P
        {
          assert Acc(product, sizes, i, j) == Acc(p, sizes, i + 1, j);
        }
      }
    }
  }

  /**
   * Two int variables with 65536 values each and P = 30: the exact estimate
   * stops after the first variable, but the 32-bit product wraps to 0 and
   * the loop runs to the end, so the pass branches on every variable.
   */
  lemma LevelBabWrapsAround()
    ensures LevelBab(0, [65536, 65536, 2], 1, 30) == (3, 0)
    ensures LevelBabExact(0, [65536, 65536, 2], 1, 30).0 == 1
  {
  }

  /**
   * The DFS level loop: at position i the product times the size is
   * compared (modulo 2^32) with P before it is taken; the level only grows
   * past variables whose factor keeps the estimate within P.
   */
  function LevelDfs(i: nat, sizes: seq<nat>, product: nat, P: nat): (nat, nat)
    decreases |sizes| - i
  {
    if i >= |sizes| then (i, product)
    else
      var p := (product * sizes[i]) % U32;
      if p > P then (i, product)
      else LevelDfs(i + 1, sizes, p, P)
  }

  /** The loop of eps_dfs.cpp, proved equal to LevelDfs. */
  method LevelSelectDfs(start: nat, sizes: seq<nat>, product0: nat, P: nat)
    returns (level: nat, product: nat)
    requires start <= |sizes|
    ensures (level, product) == LevelDfs(start, sizes, product0, P)
  {
    level, product := start, product0;
    var i := start;
    while i < |sizes|
      invariant start <= i <= |sizes| && level == i
      invariant LevelDfs(i, sizes, product, P) == LevelDfs(start, sizes, product0, P)
    {
      if (product * sizes[i]) % U32 > P {
        break;
      }
      product := (product * sizes[i]) % U32;
      level := level + 1;
      i := i + 1;
    }
  }

  /**
   * The DFS estimate never exceeds P once it starts within P; the level
   * stays within the variable count and, when it stops early, the next
   * variable would have pushed the estimate over P.  It may add nothing.
   */
  lemma {:induction false} LevelDfsBounds(i: nat, sizes: seq<nat>, product: nat, P: nat)
    requires i <= |sizes| && product <= P
    ensures var (level, p) := LevelDfs(i, sizes, product, P);
      i <= level <= |sizes| && p <= P &&
      (level < |sizes| ==> (p * sizes[level]) % U32 > P)
    decreases |sizes| - i
  {
    if i < |sizes| {
      var p := (product * sizes[i]) % U32;
      if p <= P {
        LevelDfsBounds(i + 1, sizes, p, P);
      }
    }
  }

  /** A first variable whose size alone exceeds P leaves DFS at its start. */
  lemma LevelDfsMayAddNothing()
    ensures LevelDfs(0, [5, 2], 1, 4) == (0, 1)
  {
  }

  // ---------------------------------------------------------------------
  // Group sizing
  // ---------------------------------------------------------------------

  function Sum(s: seq<nat>): nat
  {
    if s == [] then 0 else s[0] + Sum(s[1..])
  }

  /**
   * The intended split of N tuples into P contiguous groups: the first
   * N % P groups hold N / P + 1 tuples, the others N / P.
   */
  function NearEqual(N: nat, P: nat): seq<nat>
    requires P >= 1
  {
    seq(P, (i: int) => N / P + (if i < N % P then 1 else 0))
  }

  lemma {:induction false} SumAppend(a: seq<nat>, b: seq<nat>)
    ensures Sum(a + b) == Sum(a) + Sum(b)
  {
    if a != [] {
      assert (a + b)[1..] == a[1..] + b;
      SumAppend(a[1..], b);
    } else {
      assert a + b == b;
    }
  }

  /** A constant list sums to its length times the constant. */
  lemma {:induction false} SumConst(n: nat, c: nat)
    ensures Sum(seq(n, (_: int) => c)) == n * c
  {
    if n > 0 {
      assert seq(n, (_: int) => c) == [c] + seq(n - 1, (_: int) => c);
      SumConst(n - 1, c);
    }
  }

  /** NearEqual is N % P copies of N/P + 1 followed by copies of N/P. */
  lemma NearEqualSplit(N: nat, P: nat)
    requires P >= 1
    ensures NearEqual(N, P) ==
      seq(N % P, (_: int) => N / P + 1) + seq(P - N % P, (_: int) => N / P)
  {
  }

  lemma DivMod(N: nat, P: nat)
    requires P >= 1
    ensures N == P * (N / P) + N % P && N % P < P
  {
  }

  lemma SplitArith(N: nat, P: nat, q: nat, r: nat)
    requires N == P * q + r && r <= P
    ensures r * (q + 1) + (P - r) * q == N
  {
    assert r * (q + 1) == r * q + r;
    assert (P - r) * q == P * q - r * q;
  }

  /** NearEqual has P entries, each N/P or N/P+1, summing to N. */
  lemma NearEqualSum(N: nat, P: nat)
    requires P >= 1
    ensures |NearEqual(N, P)| == P
    ensures Sum(NearEqual(N, P)) == N
    ensures forall i :: 0 <= i < P ==> N / P <= NearEqual(N, P)[i] <= N / P + 1
  {
    var q, r := N / P, N % P;
    DivMod(N, P);
    var hi, lo := seq(r, (_: int) => q + 1), seq(P - r, (_: int) => q);
    NearEqualSplit(N, P);
    SumAppend(hi, lo);
    SumConst(r, q + 1);
    SumConst(P - r, q);
    SplitArith(N, P, q, r);
    assert Sum(NearEqual(N, P)) == Sum(hi) + Sum(lo);
  }

  /** With N == P every group holds one tuple. */
  lemma NearEqualEqualCount(P: nat)
    requires P >= 1
    ensures NearEqual(P, P) == seq(P, (_: int) => 1)
  {
  }

  /**
   * The grouping loop: every group starts at N/P + 1 and the groups are
   * decremented from index P-1 downward until the total is N.  The index is
   * a `size_t` whose test `i >= 0` never fails; the loop ends on the sum test
   * before the wrapped index is used.
   */
  method GroupSizes(N: nat, P: nat) returns (groups: seq<nat>)
    requires 1 <= P <= N
    ensures groups == NearEqual(N, P)
  {
    var q := N / P + 1;
    groups := seq(P, (_: int) => q);
    var sum := P * q;
    var i: int := P - 1;
    while sum != N
      invariant N <= sum <= P * q
      invariant i == P - 1 - (P * q - sum)
      invariant |groups| == P
      invariant forall j :: 0 <= j < P ==> groups[j] == if j > i then q - 1 else q
      decreases sum - N
    {
      assert sum - N <= P - N % P by {
        assert P * q == P * (N / P) + P;
        assert N == P * (N / P) + N % P;
      }
      groups := groups[i := groups[i] - 1];
      sum := sum - 1;
      i := i - 1;
    }
    assert P * q == P * (N / P) + P && N == P * (N / P) + N % P;
    assert i == N % P - 1;
  }

  // ---------------------------------------------------------------------
  // End of a pass
  // ---------------------------------------------------------------------

  /** What a pass decides after recording its tuples. */
  datatype PassOutcome =
    | Exhausted                  // no open leaf: both tuple sets are nulled
    | Grouped(groups: seq<nat>)  // P near-equal groups
    | AllLeaves(n: nat)          // every variable fixed: n groups of one tuple
    | Continue(n: nat)           // widen the prefix again

  /** N is the bool tuple count when the bool table has tuples, else the int count. */
  function TupleCount(nBoolRows: nat, nIntRows: nat): nat
  {
    if nBoolRows != 0 then nBoolRows else nIntRows
  }

  /** BAB: N >= P groups (so the `N == P` branch is never reached). */
  function ClassifyBab(N: nat, P: nat, level: nat, total: nat): (o: PassOutcome)
    requires P >= 1
    ensures o.Exhausted? <==> N == 0
    ensures o.Grouped? <==> N > 0 && N >= P
    ensures o.Grouped? ==> |o.groups| == P && Sum(o.groups) == N
    ensures o.AllLeaves? ==> o.n == N && 0 < N < P && level == total
    ensures o.Continue? ==> o.n == N && 0 < N < P && level != total
  {
    NearEqualSum(N, P);
    if N == 0 then Exhausted
    else if N >= P then Grouped(NearEqual(N, P))
    else if level == total then AllLeaves(N)
    else Continue(N)
  }

  /** DFS: strict N > P groups; N == P gives P groups of one tuple. */
  function ClassifyDfs(N: nat, P: nat, level: nat, total: nat): (o: PassOutcome)
    requires P >= 1
    ensures o.Exhausted? <==> N == 0
    ensures o.Grouped? <==> N > 0 && N >= P
    ensures o.Grouped? ==> |o.groups| == P && Sum(o.groups) == N
    ensures o.Grouped? && N == P ==> forall i :: 0 <= i < P ==> o.groups[i] == 1
    ensures o.AllLeaves? ==> o.n == N && 0 < N < P && level == total
    ensures o.Continue? ==> o.n == N && 0 < N < P && level != total
  {
    NearEqualSum(N, P);
    if N == 0 then Exhausted
    else if N > P then Grouped(NearEqual(N, P))
    else if N == P then SumConst(P, 1); Grouped(seq(P, (_: int) => 1))
    else if level == total then AllLeaves(N)
    else Continue(N)
  }

  /** The `>=` and `>` tests agree on every input. */
  lemma ClassifyAgree(N: nat, P: nat, level: nat, total: nat)
    requires P >= 1
    ensures ClassifyBab(N, P, level, total) == ClassifyDfs(N, P, level, total)
  {
    if N == P {
      NearEqualEqualCount(P);
    }
  }

  // ---------------------------------------------------------------------
  // Driver of the BAB decomposition
  // ---------------------------------------------------------------------

  /** How decomposeProblems ends. */
  datatype Decomposition =
    | NoVariables
    | RootFailed
    | NoSubproblems
    | Groups(groups: seq<nat>, n: nat)

  /**
   * The pass loop of EPS_BAB::Worker::decomposeProblems.  Propagation and
   * search are abstract: `sizesAt(k)` gives, for pass k, None when the root
   * space has failed and otherwise the domain size of every flat variable
   * once the previous pass's tables are posted; `tuplesAt(k, level)` is the
   * number N of tuples pass k records after branching to `level`.  The level
   * is chosen with exact arithmetic (LevelBabExact).
   */
  method DecomposeBab(total: nat, P: nat, sizesAt: nat -> Option<seq<nat>>,
                      tuplesAt: (nat, nat) -> nat)
    returns (d: Decomposition, passes: nat)
    requires P >= 1
    requires forall k :: sizesAt(k).Some? ==> |sizesAt(k).value| == total
    ensures total == 0 <==> d.NoVariables?
    ensures passes <= total
    ensures d.Groups? ==> Sum(d.groups) == d.n && 0 < d.n &&
                          ((d.n >= P && |d.groups| == P) ||
                           (d.n < P && |d.groups| == d.n)) &&
                          forall i :: 0 <= i < |d.groups| ==> d.groups[i] >= 1
  {
    passes := 0;
    if total == 0 {
      return NoVariables, 0;
    }
    var start, product := 0, 1;
    while true
      invariant start < total && passes <= start
      decreases total - start
    {
      passes := passes + 1;
      var probe := sizesAt(passes);
      if probe.None? {
        return RootFailed, passes;
      }
      var sizes := probe.value;
      LevelBabExactFirstOver(start, sizes, product, P);
      var (level, _) := LevelBabExact(start, sizes, product, P);
      var N := tuplesAt(passes, level);
      match ClassifyBab(N, P, level, total)
      case Exhausted =>
        return NoSubproblems, passes;
      case Grouped(g) =>
        NearEqualSum(N, P);
        return Groups(g, N), passes;
      case AllLeaves(n) =>
        SumConst(n, 1);
        return Groups(seq(n, (_: int) => 1), n), passes;
      case Continue(n) =>
        start, product := level, n;
    }
  }

  // ---------------------------------------------------------------------
  // RDFS
  // ---------------------------------------------------------------------

  /**
   * The level of RDFS pass `iteration` (1 or 2) over a prefix of `prior`
   * variables: levels[] = {first_level, total}; no widening is bumped to one
   * variable, and the level is clamped to the variable count.
   */
  function RdfsLevel(iteration: nat, prior: nat, firstLevel: nat, total: nat): (level: nat)
    requires 1 <= iteration <= 2
  {
    var widened := prior + (if iteration == 1 then firstLevel else total);
    var bumped := if widened == prior then widened + 1 else widened;
    Min(bumped, total)
  }

  /**
   * The first pass fixes first_level variables, or one if it is 0; the
   * second fixes all of them.
   */
  lemma RdfsSchedule(prior: nat, firstLevel: nat, total: nat)
    ensures RdfsLevel(1, 0, firstLevel, total) == Min(Max(firstLevel, 1), total)
    ensures RdfsLevel(2, prior, firstLevel, total) == total
  {
  }

  /**
   * The RDFS pass loop.  `leaves(level)` is the number of open leaves found
   * under a prefix of `level` variables; at level == total every leaf is a
   * solution and no tuple is recorded.  The loop stops when no tuple was
   * recorded or the prefix is total, so it runs at most two passes and
   * never reads past levels[1].  Without decision variables it returns
   * before the first pass.
   */
  method Rdfs(total: nat, firstLevel: nat, leaves: nat -> nat)
    returns (iterations: nat, level1: nat)
    ensures total == 0 ==> iterations == 0
    ensures total >= 1 ==> 1 <= iterations <= 2
    ensures level1 == Min(Max(firstLevel, 1), total)
    ensures iterations == 2 <==> leaves(level1) > 0 && level1 < total
  {
    iterations := 0;
    var prior := 0;
    level1 := 0;
    if total == 0 {
      return;
    }
    while true
      invariant iterations <= 1
      invariant iterations == 0 ==> prior == 0
      invariant iterations == 1 ==> prior == level1 && level1 == Min(Max(firstLevel, 1), total)
      invariant iterations == 1 ==> leaves(level1) > 0 && 0 < level1 < total
      decreases 2 - iterations
    {
      iterations := iterations + 1;
      var level := RdfsLevel(iterations, prior, firstLevel, total);
      if iterations == 1 {
        level1 := level;
      }
      var n := if level == total then 0 else leaves(level);
      var arity := if n == 0 then 0 else level;
      if n == 0 || arity == total {
        return;
      }
      prior := arity;
    }
  }

  // ---------------------------------------------------------------------
  // Per-worker quota
  // ---------------------------------------------------------------------

  /**
   * nb_problems / workers, plus one when the division is inexact or gives 0
   * (eps_bab.cpp and eps_dfs.cpp compute it the same way): the least
   * positive count whose share over all workers covers P, that is
   * max(1, ceil(P / W)).
   */
  function Quota(P: nat, W: nat): (q: nat)
    requires W >= 1
    ensures q >= 1 && q * W >= P
    ensures q == 1 || (q - 1) * W < P
  {
    var a, r := P / W, P % W;
    assert P == W * a + r;
    assert (a + 1) * W == a * W + W;
    assert a >= 1 ==> (a - 1) * W == a * W - W;
    a + (if r != 0 || a == 0 then 1 else 0)
  }
}
