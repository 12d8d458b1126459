/**
 * The leaf loop of a decomposition pass: which leaves are complete
 * solutions, how the queued open leaves are filtered when a complete leaf
 * tightens the bound (EPS_BAB), and which tuples each open leaf contributes
 * (EPS_BAB plain and EPS_DFS "collapse" variants).
 */
module Leaves {
  import opened Wrappers
  import opened Decompose

  predicate AllAssigned(ds: seq<Dom>)
  {
    forall i :: 0 <= i < |ds| ==> |ds[i]| == 1
  }

  /** A leaf whose every decision variable is assigned is a solution. */
  predicate Complete(s: Space)
  {
    AllAssigned(s.iv) && AllAssigned(s.bv)
  }

  /**
   * EPS_BAB's test: the objective `iv[optVar]` first, then every int and
   * every bool variable, each scan stopping at the first unassigned one.
   * The objective test is subsumed: the result is exactly Complete.
   */
  method IsSolutionBab(s: Space, optVar: nat) returns (r: bool)
    requires optVar < |s.iv|
    ensures r <==> Complete(s)
  {
    r := |s.iv[optVar]| == 1;
    if r {
      var i := 0;
      while i < |s.iv|
        invariant 0 <= i <= |s.iv|
        invariant forall j :: 0 <= j < i ==> |s.iv[j]| == 1
      {
        if |s.iv[i]| != 1 {
          r := false;
          break;
        }
        i := i + 1;
      }
      if r {
        i := 0;
        while i < |s.bv|
          invariant 0 <= i <= |s.bv|
          invariant forall j :: 0 <= j < i ==> |s.bv[j]| == 1
        {
          if |s.bv[i]| != 1 {
            r := false;
            break;
          }
          i := i + 1;
        }
      }
    }
  }

  /** EPS_DFS's test: every int, then every bool variable assigned. */
  method IsSolutionDfs(s: Space) returns (r: bool)
    ensures r <==> Complete(s)
  {
    r := true;
    var i := 0;
    while i < |s.iv|
      invariant 0 <= i <= |s.iv|
      invariant forall j :: 0 <= j < i ==> |s.iv[j]| == 1
    {
      if |s.iv[i]| != 1 {
        r := false;
        break;
      }
      i := i + 1;
    }
    if r {
      i := 0;
      while i < |s.bv|
        invariant 0 <= i <= |s.bv|
        invariant forall j :: 0 <= j < i ==> |s.bv[j]| == 1
      {
        if |s.bv[i]| != 1 {
          r := false;
          break;
        }
        i := i + 1;
      }
    }
  }

  // ---------------------------------------------------------------------
  // Filtering queued leaves by a new bound
  // ---------------------------------------------------------------------

  /**
   * The queued leaves that survive the bound of `best`, in order.
   * `survives(x, best)` abstracts "x->constrain(best) then status() is not
   * SS_FAILED", which Gecode's propagation decides.
   */
  function Filter(q: seq<Space>, survives: (Space, Space) -> bool, best: Space): (r: seq<Space>)
    ensures |r| <= |q|
    ensures forall x :: x in r <==> x in q && survives(x, best)
  {
    if q == [] then []
    else (if survives(q[0], best) then [q[0]] else []) + Filter(q[1..], survives, best)
  }

  lemma {:induction false} FilterConcat(a: seq<Space>, b: seq<Space>, survives: (Space, Space) -> bool, best: Space)
    ensures Filter(a + b, survives, best) == Filter(a, survives, best) + Filter(b, survives, best)
  {
    if a == [] {
      assert a + b == b;
    } else {
      assert (a + b)[1..] == a[1..] + b;
      FilterConcat(a[1..], b, survives, best);
    }
  }

  /** Reverse, built from the back as `push_back` of `back()` does. */
  function Reverse(s: seq<Space>): (r: seq<Space>)
    ensures |r| == |s|
  {
    if s == [] then [] else [s[|s| - 1]] + Reverse(s[..|s| - 1])
  }

  lemma ReverseSnoc(t: seq<Space>, x: Space)
    ensures Reverse(t + [x]) == [x] + Reverse(t)
  {
    assert (t + [x])[..|t|] == t;
  }

  /** Popping the back element x off sp splits the filter before x. */
  lemma PopBack(sp: seq<Space>, survives: (Space, Space) -> bool, best: Space)
    requires sp != []
    ensures Filter(sp, survives, best) ==
      Filter(sp[..|sp| - 1], survives, best) +
      (if survives(sp[|sp| - 1], best) then [sp[|sp| - 1]] else [])
  {
    var x := sp[|sp| - 1];
    assert sp == sp[..|sp| - 1] + [x];
    FilterConcat(sp[..|sp| - 1], [x], survives, best);
    assert Filter([x], survives, best) == (if survives(x, best) then [x] else []) + Filter([], survives, best);
  }

  /** One step of the first loop: the back element of sp moves to tmp if it survives. */
  lemma MoveBack(sp: seq<Space>, tmp: seq<Space>, survives: (Space, Space) -> bool, best: Space)
    requires sp != []
    ensures var x := sp[|sp| - 1];
            Filter(sp, survives, best) + Reverse(tmp) ==
            Filter(sp[..|sp| - 1], survives, best) + Reverse(if survives(x, best) then tmp + [x] else tmp)
  {
    var x, rest := sp[|sp| - 1], sp[..|sp| - 1];
    PopBack(sp, survives, best);
    if survives(x, best) {
      ReverseSnoc(tmp, x);
      assert Filter(sp, survives, best) + Reverse(tmp) == Filter(rest, survives, best) + ([x] + Reverse(tmp));
    } else {
      assert Filter(sp, survives, best) == Filter(rest, survives, best) + [];
    }
  }

  /**
   * The filter of eps_bab.cpp: pop every queued leaf from the back and move
   * the survivors to `tmp_sub_problems`, then pop `tmp` from the back back
   * into the queue.  The two reversals cancel: survivors keep their order.
   */
  method FilterQueued(subProblems: seq<Space>, survives: (Space, Space) -> bool, best: Space)
    returns (r: seq<Space>)
    ensures r == Filter(subProblems, survives, best)
  {
    var tmp := PushSurvivors(subProblems, survives, best);
    r := PopAll(tmp);
  }

  /** The first loop: survivors popped from the back of the queue and pushed on `tmp`. */
  method PushSurvivors(subProblems: seq<Space>, survives: (Space, Space) -> bool, best: Space)
    returns (tmp: seq<Space>)
    ensures Reverse(tmp) == Filter(subProblems, survives, best)
  {
    var sp;
    sp, tmp := subProblems, [];
    while sp != []
      invariant Filter(subProblems, survives, best) == Filter(sp, survives, best) + Reverse(tmp)
      decreases |sp|
    {
      var x := sp[|sp| - 1];
      MoveBack(sp, tmp, survives, best);
      if survives(x, best) {
        tmp := tmp + [x];
      }
      sp := sp[..|sp| - 1];
    }
  }

  /** The second loop: `tmp` popped from the back into the queue. */
  method PopAll(tmp: seq<Space>) returns (r: seq<Space>)
    ensures r == Reverse(tmp)
  {
    var t := tmp;
    r := [];
    while t != []
      invariant Reverse(tmp) == r + Reverse(t)
      decreases |t|
    {
      var y := t[|t| - 1];
      assert Reverse(t) == [y] + Reverse(t[..|t| - 1]);
      assert r + Reverse(t) == (r + [y]) + Reverse(t[..|t| - 1]);
      r := r + [y];
      t := t[..|t| - 1];
    }
  }

  // ---------------------------------------------------------------------
  // The leaf loop of an EPS_BAB pass
  // ---------------------------------------------------------------------

  /**
   * The queue after the leaves the engine returned, in that order: an open
   * leaf is queued at the back; a complete leaf becomes the best and filters
   * the queue.
   */
  function Queued(leaves: seq<Space>, survives: (Space, Space) -> bool): seq<Space>
  {
    if leaves == [] then []
    else
      var q := Queued(leaves[..|leaves| - 1], survives);
      var y := leaves[|leaves| - 1];
      if Complete(y) then Filter(q, survives, y) else q + [y]
  }

  /** x survives the bound of every complete leaf in `rest`. */
  predicate SurvivesLater(x: Space, rest: seq<Space>, survives: (Space, Space) -> bool)
  {
    forall c :: 0 <= c < |rest| && Complete(rest[c]) ==> survives(x, rest[c])
  }

  /**
   * Reference definition: the open leaves, in their original order, that
   * survive every complete leaf found after them.
   */
  function Survivors(leaves: seq<Space>, survives: (Space, Space) -> bool): seq<Space>
  {
    if leaves == [] then []
    else
      (if !Complete(leaves[0]) && SurvivesLater(leaves[0], leaves[1..], survives)
       then [leaves[0]] else [])
      + Survivors(leaves[1..], survives)
  }

  lemma {:induction false} SurvivorsSnoc(a: seq<Space>, y: Space, survives: (Space, Space) -> bool)
    ensures Survivors(a + [y], survives) ==
      if Complete(y) then Filter(Survivors(a, survives), survives, y)
      else Survivors(a, survives) + [y]
  {
    if a == [] {
      assert [] + [y] == [y];
      assert SurvivesLater(y, [y][1..], survives);
    } else {
      var x, a' := a[0], a[1..];
      assert (a + [y])[0] == x && (a + [y])[1..] == a' + [y];
      SurvivorsSnoc(a', y, survives);
      var sl := SurvivesLater(x, a', survives);
      var sly := SurvivesLater(x, a' + [y], survives);
      assert sly <==> sl && (Complete(y) ==> survives(x, y)) by {
        if sly {
          forall c | 0 <= c < |a'| && Complete(a'[c]) ensures survives(x, a'[c]) {
            assert (a' + [y])[c] == a'[c];
          }
          assert (a' + [y])[|a'|] == y;
        }
        if sl && (Complete(y) ==> survives(x, y)) {
          forall c | 0 <= c < |a' + [y]| && Complete((a' + [y])[c])
            ensures survives(x, (a' + [y])[c])
          {
            if c < |a'| {
              assert (a' + [y])[c] == a'[c];
            }
          }
        }
      }
      var hx := if !Complete(x) && sl then [x] else [];
      assert Survivors(a, survives) == hx + Survivors(a', survives);
      if Complete(y) {
        FilterConcat(hx, Survivors(a', survives), survives, y);
      } else {
        assert hx + (Survivors(a', survives) + [y]) == (hx + Survivors(a', survives)) + [y];
      }
    }
  }

  /**
   * The queue left by a pass is exactly the reference set of survivors: no
   * open leaf that passes every later bound is lost, none that fails one is
   * kept, and the original order is preserved.
   */
  lemma {:induction false} QueuedIsSurvivors(leaves: seq<Space>, survives: (Space, Space) -> bool)
    ensures Queued(leaves, survives) == Survivors(leaves, survives)
    decreases |leaves|
  {
    if leaves != [] {
      var a, y := leaves[..|leaves| - 1], leaves[|leaves| - 1];
      assert leaves == a + [y];
      QueuedIsSurvivors(a, survives);
      SurvivorsSnoc(a, y, survives);
    }
  }

  /** The last complete leaf, or `best0` when there is none. */
  function LastComplete(leaves: seq<Space>, best0: Option<Space>): Option<Space>
  {
    if leaves == [] then best0
    else if Complete(leaves[|leaves| - 1]) then Some(leaves[|leaves| - 1])
    else LastComplete(leaves[..|leaves| - 1], best0)
  }

  /**
   * The `while(solution)` loop of an EPS_BAB pass over the leaves the
   * engine returned: complete leaves replace the pass's best and filter the
   * queue (FilterQueued); open leaves are pushed at the back.
   */
  method CollectLeavesBab(leaves: seq<Space>, optVar: nat, survives: (Space, Space) -> bool,
                          best0: Option<Space>)
    returns (queue: seq<Space>, best: Option<Space>)
    requires forall k :: 0 <= k < |leaves| ==> optVar < |leaves[k].iv|
    ensures queue == Survivors(leaves, survives)
    ensures best == LastComplete(leaves, best0)
    ensures forall x :: x in queue ==> x in leaves && !Complete(x)
  {
    queue, best := [], best0;
    var i := 0;
    while i < |leaves|
      invariant 0 <= i <= |leaves|
      invariant queue == Queued(leaves[..i], survives)
      invariant best == LastComplete(leaves[..i], best0)
    {
      var leaf := leaves[i];
      assert leaves[..i + 1][..i] == leaves[..i];
      var isSolution := IsSolutionBab(leaf, optVar);
      if isSolution {
        best := Some(leaf);
        queue := FilterQueued(queue, survives, leaf);
      } else {
        queue := queue + [leaf];
      }
      i := i + 1;
    }
    assert leaves[..i] == leaves;
    QueuedIsSurvivors(leaves, survives);
    SurvivorsAreOpenLeaves(leaves, survives);
  }

  lemma {:induction false} SurvivorsAreOpenLeaves(leaves: seq<Space>, survives: (Space, Space) -> bool)
    ensures forall x :: x in Survivors(leaves, survives) ==> x in leaves && !Complete(x)
  {
    if leaves != [] {
      SurvivorsAreOpenLeaves(leaves[1..], survives);
    }
  }

  // ---------------------------------------------------------------------
  // Recorded tuples
  // ---------------------------------------------------------------------

  /** The values of flat positions 0..level-1 of a leaf. */
  function FlatPrefix(s: Space, level: nat): (r: seq<int>)
    requires level <= NbVars(s)
    ensures |r| == level
  {
    seq(level, (i: int) requires 0 <= i < level => Val(DomAt(s, i)))
  }

  /**
   * A leaf's prefix splits at min(level, nb_bool): the bool tuple is its
   * first part, the int tuple the rest.
   */
  lemma RecordPrefixSplits(s: Space, level: nat, tb: seq<int>, ti: seq<int>)
    requires level <= NbVars(s)
    requires |tb| == Min(level, |s.bv|) && |tb| + |ti| == level
    requires forall j :: 0 <= j < |tb| ==> tb[j] == Val(s.bv[j])
    requires forall j :: 0 <= j < |ti| ==> ti[j] == Val(s.iv[j])
    ensures tb + ti == FlatPrefix(s, level)
  {
  }

  /**
   * The `while(!sub_problems.empty())` loop: each queued leaf, front first,
   * adds its bool tuple when it is non-empty and its int tuple when it is
   * non-empty.  Every leaf has nbBool bool variables.
   */
  method RecordTuples(queue: seq<Space>, level: nat, nbBool: nat)
    returns (boolRows: seq<seq<int>>, intRows: seq<seq<int>>)
    requires forall k :: 0 <= k < |queue| ==> |queue[k].bv| == nbBool && level <= NbVars(queue[k])
    ensures var m := Min(level, nbBool);
      (m > 0 ==> |boolRows| == |queue|) && (m == 0 ==> boolRows == []) &&
      (level > m ==> |intRows| == |queue|) && (level <= m ==> intRows == [])
    ensures forall j :: 0 <= j < |boolRows| ==> boolRows[j] == FlatPrefix(queue[j], level)[..Min(level, nbBool)]
    ensures forall j :: 0 <= j < |intRows| ==> intRows[j] == FlatPrefix(queue[j], level)[Min(level, nbBool)..]
    ensures level > 0 ==> TupleCount(|boolRows|, |intRows|) == |queue|
  {
    var m := Min(level, nbBool);
    boolRows, intRows := [], [];
    var k := 0;
    while k < |queue|
      invariant 0 <= k <= |queue|
      invariant (m > 0 ==> |boolRows| == k) && (m == 0 ==> boolRows == [])
      invariant (level > m ==> |intRows| == k) && (level <= m ==> intRows == [])
      invariant forall j :: 0 <= j < |boolRows| ==> boolRows[j] == FlatPrefix(queue[j], level)[..m]
      invariant forall j :: 0 <= j < |intRows| ==> intRows[j] == FlatPrefix(queue[j], level)[m..]
    {
      var tb, ti := RecordPrefix(queue[k], level);
      RecordPrefixSplits(queue[k], level, tb, ti);
      assert tb == FlatPrefix(queue[k], level)[..m] && ti == FlatPrefix(queue[k], level)[m..];
      if |tb| > 0 {
        boolRows := boolRows + [tb];
      }
      if |ti| > 0 {
        intRows := intRows + [ti];
      }
      k := k + 1;
    }
  }

  // ---------------------------------------------------------------------
  // The EPS_DFS "collapse last level" tuples
  // ---------------------------------------------------------------------

  /** lo, lo+1, ..., hi: the `for(a = min; a <= max; a++)` loop of a bool. */
  function Range(lo: int, hi: int): (r: seq<int>)
    ensures |r| == if hi < lo then 0 else hi - lo + 1
    ensures forall j :: 0 <= j < |r| ==> r[j] == lo + j
  {
    if hi < lo then [] else seq(hi - lo + 1, (j: int) => lo + j)
  }

  /**
   * The tuples one open leaf contributes in EPS_DFS.  Below the last level
   * the prefix is extended with every value of variable `level`: a bool
   * position yields bool tuples only, an int position int tuples only (the
   * bool part of the prefix is then not recorded).  At the last level the
   * prefix tuples are recorded as they are.
   */
  method CollapseTuples(s: Space, level: nat) returns (boolRows: seq<seq<int>>, intRows: seq<seq<int>>)
    requires level <= NbVars(s)
    requires level < NbVars(s) ==> |DomAt(s, level)| > 0
    ensures var p, m := FlatPrefix(s, level), Min(level, |s.bv|);
      if level < NbVars(s) then
        (level < |s.bv| ==>
           var d := s.bv[level];
           intRows == [] && |boolRows| == |Range(d[0], d[|d| - 1])| &&
           forall j :: 0 <= j < |boolRows| ==> boolRows[j] == p + [d[0] + j]) &&
        (level >= |s.bv| ==>
           var d := s.iv[level - |s.bv|];
           boolRows == [] && |intRows| == |d| &&
           forall j :: 0 <= j < |intRows| ==> intRows[j] == p[m..] + [d[j]])
      else
        boolRows == (if m > 0 then [p[..m]] else []) &&
        intRows == (if level > m then [p[m..]] else [])
  {
    var tb, ti := RecordPrefix(s, level);
    RecordPrefixSplits(s, level, tb, ti);
    var p, m := FlatPrefix(s, level), Min(level, |s.bv|);
    assert tb == p[..m] && ti == p[m..];
    boolRows, intRows := [], [];
    if level < NbVars(s) {
      if level < |s.bv| {
        assert tb == p;
        var d := s.bv[level];
        var a := d[0];
        while a <= d[|d| - 1]
          invariant d[0] <= a <= Max(d[0], d[|d| - 1] + 1)
          invariant |boolRows| == a - d[0]
          invariant forall j :: 0 <= j < |boolRows| ==> boolRows[j] == p + [d[0] + j]
          decreases d[|d| - 1] - a
        {
          boolRows := boolRows + [tb + [a]];
          a := a + 1;
        }
      } else {
        var d := s.iv[level - |s.bv|];
        var k := 0;
        while k < |d|
          invariant 0 <= k <= |d|
          invariant |intRows| == k
          invariant forall j :: 0 <= j < k ==> intRows[j] == p[m..] + [d[j]]
        {
          intRows := intRows + [ti + [d[k]]];
          k := k + 1;
        }
      }
    } else {
      if |tb| > 0 {
        boolRows := [tb];
      }
      if |ti| > 0 {
        intRows := [ti];
      }
    }
  }
}
