/**
 * The bounded depth-first engines BoundedDFS (eps_dfs.cpp) and BoundedBAB
 * (eps_bab.cpp) over an abstract search tree.
 *
 * A space is a node whose status is failed, solved (carrying the value of
 * its objective) or branching with ordered alternatives.  Gecode's `Path`
 * is a stack of frames (alternatives of a choice, alternative being
 * explored) plus, per frame, whether a clone of the space was stored.
 */
module Engine {
  import opened Wrappers

  datatype Tree = Fail | Solve(obj: int) | Branch(kids: seq<Tree>)

  /** Every choice has at least one alternative. */
  predicate WellFormed(t: Tree)
    decreases t
  {
    match t
    case Branch(kids) => |kids| > 0 && forall k :: 0 <= k < |kids| ==> WellFormed(kids[k])
    case _ => true
  }

  /** The solutions below t, in depth-first, left-to-right order. */
  function Sols(t: Tree): seq<int>
    decreases t
  {
    match t
    case Fail => []
    case Solve(v) => [v]
    case Branch(kids) => SolsList(kids)
  }

  function SolsList(ks: seq<Tree>): seq<int>
    decreases ks
  {
    if ks == [] then [] else Sols(ks[0]) + SolsList(ks[1..])
  }

  function Size(t: Tree): nat
    decreases t
  {
    match t
    case Fail => 1
    case Solve(_) => 1
    case Branch(kids) => 2 + SizeList(kids)
  }

  function SizeList(ks: seq<Tree>): nat
    decreases ks
  {
    if ks == [] then 0 else Size(ks[0]) + 1 + SizeList(ks[1..])
  }

  /** A path entry: the alternatives of a choice and the one being explored. */
  datatype Frame = Frame(kids: seq<Tree>, alt: nat)

  predicate FrameOk(f: Frame)
  {
    f.alt < |f.kids| && forall k :: 0 <= k < |f.kids| ==> WellFormed(f.kids[k])
  }

  predicate PathOk(p: seq<Frame>)
  {
    forall i :: 0 <= i < |p| ==> FrameOk(p[i])
  }

  /** Solutions still to be explored by the frames, top of the stack first. */
  function PathSols(p: seq<Frame>): seq<int>
    requires PathOk(p)
  {
    if p == [] then []
    else SolsList(p[|p| - 1].kids[p[|p| - 1].alt + 1..]) + PathSols(p[..|p| - 1])
  }

  function PathMeasure(p: seq<Frame>): nat
    requires PathOk(p)
  {
    if p == [] then 0
    else 1 + SizeList(p[|p| - 1].kids[p[|p| - 1].alt + 1..]) + PathMeasure(p[..|p| - 1])
  }

  lemma SolsListCons(ks: seq<Tree>)
    requires ks != []
    ensures SolsList(ks) == Sols(ks[0]) + SolsList(ks[1..])
    ensures SizeList(ks) == Size(ks[0]) + 1 + SizeList(ks[1..])
  {
  }

  /** The next alternative of the top frame is the topmost unexplored one. */
  function Advance(p: seq<Frame>): seq<Frame>
    requires p != [] && PathOk(p) && p[|p| - 1].alt + 1 < |p[|p| - 1].kids|
  {
    var top := p[|p| - 1];
    p[..|p| - 1] + [Frame(top.kids, top.alt + 1)]
  }

  /** The alternative a path's top frame is on. */
  function Current(p: seq<Frame>): Tree
    requires p != [] && PathOk(p)
  {
    p[|p| - 1].kids[p[|p| - 1].alt]
  }

  /**
   * Path::next: pop the frames whose alternative is the rightmost one and
   * move the first other one to its next alternative.  It fails only once
   * the stack is empty, and then no solution was left on it.  On success
   * the solutions left on the path are those of the new current
   * alternative followed by what the new path still holds.
   */
  method PathNext(p: seq<Frame>) returns (ok: bool, q: seq<Frame>)
    requires PathOk(p)
    ensures PathOk(q) && |q| <= |p|
    ensures !ok ==> q == [] && PathSols(p) == []
    ensures ok ==> q != [] && q[..|q| - 1] == p[..|q| - 1] &&
                   PathSols(p) == Sols(Current(q)) + PathSols(q) &&
                   PathMeasure(p) > Size(Current(q)) + PathMeasure(q)
  {
    q := p;
    while q != []
      invariant PathOk(q) && q == p[..|q|]
      invariant PathSols(p) == PathSols(q) && PathMeasure(p) >= PathMeasure(q)
      decreases |q|
    {
      var top := q[|q| - 1];
      if top.alt + 1 < |top.kids| {
        AdvanceFacts(q);
        var r := Advance(q);
        assert r[..|r| - 1] == p[..|r| - 1];
        return true, r;
      }
      PopFacts(q);
      assert q[..|q| - 1] == p[..|q| - 1];
      q := q[..|q| - 1];
    }
    ok := false;
  }

  /** Moving the top frame to its next alternative loses no solution. */
  lemma AdvanceFacts(q: seq<Frame>)
    requires q != [] && PathOk(q) && q[|q| - 1].alt + 1 < |q[|q| - 1].kids|
    ensures PathOk(Advance(q)) && Advance(q)[..|q| - 1] == q[..|q| - 1]
    ensures PathSols(q) == Sols(Current(Advance(q))) + PathSols(Advance(q))
    ensures PathMeasure(q) > Size(Current(Advance(q))) + PathMeasure(Advance(q))
  {
    var top, r := q[|q| - 1], Advance(q);
    AdvanceShape(q);
    var rest := top.kids[top.alt + 1..];
    assert rest[1..] == top.kids[top.alt + 2..] && rest[0] == Current(r) by {
      assert r[|r| - 1] == Frame(top.kids, top.alt + 1);
    }
    SolsListCons(rest);
    ConsFacts(rest, PathSols(q[..|q| - 1]), PathMeasure(q[..|q| - 1]));
  }

  /** The first of the remaining alternatives, then the others, then the rest of a path. */
  lemma ConsFacts(rest: seq<Tree>, below: seq<int>, m: nat)
    requires rest != []
    ensures SolsList(rest) + below == Sols(rest[0]) + (SolsList(rest[1..]) + below)
    ensures 1 + SizeList(rest) + m > Size(rest[0]) + (1 + SizeList(rest[1..]) + m)
  {
    SolsListCons(rest);
  }

  /** The advanced path: the same frames below, the top one on its next alternative. */
  lemma AdvanceShape(q: seq<Frame>)
    requires q != [] && PathOk(q) && q[|q| - 1].alt + 1 < |q[|q| - 1].kids|
    ensures PathOk(Advance(q)) && |Advance(q)| == |q|
    ensures Advance(q)[..|q| - 1] == q[..|q| - 1]
    ensures Advance(q)[|q| - 1] == Frame(q[|q| - 1].kids, q[|q| - 1].alt + 1)
    ensures PathSols(Advance(q)) == SolsList(q[|q| - 1].kids[q[|q| - 1].alt + 2..]) + PathSols(q[..|q| - 1])
    ensures PathMeasure(Advance(q)) == 1 + SizeList(q[|q| - 1].kids[q[|q| - 1].alt + 2..]) + PathMeasure(q[..|q| - 1])
  {
    var r := Advance(q);
    assert r[..|r| - 1] == q[..|q| - 1];
    forall i | 0 <= i < |r| ensures FrameOk(r[i]) {
      if i < |q| - 1 {
        assert r[i] == q[i];
      }
    }
  }

  /** A frame on its rightmost alternative holds nothing more. */
  lemma PopFacts(q: seq<Frame>)
    requires q != [] && PathOk(q) && q[|q| - 1].alt + 1 >= |q[|q| - 1].kids|
    ensures PathOk(q[..|q| - 1])
    ensures PathSols(q) == PathSols(q[..|q| - 1])
    ensures PathMeasure(q) > PathMeasure(q[..|q| - 1])
  {
    var top := q[|q| - 1];
    assert top.kids[top.alt + 1..] == [];
  }

  /** Pushing the frame of a branch: its alternatives after the first are left. */
  lemma PushFacts(p: seq<Frame>, kids: seq<Tree>)
    requires PathOk(p) && |kids| > 0 && forall k :: 0 <= k < |kids| ==> WellFormed(kids[k])
    ensures PathOk(p + [Frame(kids, 0)])
    ensures Sols(Branch(kids)) + PathSols(p) == Sols(kids[0]) + PathSols(p + [Frame(kids, 0)])
    ensures Size(Branch(kids)) + PathMeasure(p) > Size(kids[0]) + PathMeasure(p + [Frame(kids, 0)])
  {
    var q := p + [Frame(kids, 0)];
    assert q[..|q| - 1] == p;
    assert q[|q| - 1].kids[1..] == kids[1..];
    assert PathOk(q) by {
      forall i | 0 <= i < |q| ensures FrameOk(q[i]) {
        if i < |p| {
          assert q[i] == p[i];
        }
      }
    }
    SolsListCons(kids);
    assert PathSols(q) == SolsList(kids[1..]) + PathSols(p);
    assert PathMeasure(q) == 1 + SizeList(kids[1..]) + PathMeasure(p);
  }

  /** The length of the run of entries without a stored clone at the top. */
  function Trailing(snaps: seq<bool>): nat
  {
    if snaps == [] || snaps[|snaps| - 1] then 0 else 1 + Trailing(snaps[..|snaps| - 1])
  }

  /** No run of consecutive entries without a clone is longer than `cap`. */
  predicate RunsBounded(snaps: seq<bool>, cap: nat)
  {
    forall i :: 0 <= i <= |snaps| ==> Trailing(snaps[..i]) <= cap
  }

  lemma RunsBoundedPush(snaps: seq<bool>, b: bool, cap: nat)
    requires RunsBounded(snaps, cap) && Trailing(snaps + [b]) <= cap
    ensures RunsBounded(snaps + [b], cap)
  {
    forall i | 0 <= i <= |snaps| + 1 ensures Trailing((snaps + [b])[..i]) <= cap {
      if i <= |snaps| {
        assert (snaps + [b])[..i] == snaps[..i];
      } else {
        assert (snaps + [b])[..i] == snaps + [b];
      }
    }
  }

  lemma RunsBoundedPrefix(snaps: seq<bool>, n: nat, cap: nat)
    requires RunsBounded(snaps, cap) && n <= |snaps|
    ensures RunsBounded(snaps[..n], cap)
  {
    forall i | 0 <= i <= n ensures Trailing(snaps[..n][..i]) <= cap {
      assert snaps[..n][..i] == snaps[..i];
    }
  }

  /** A clone distance c_d allows at most c_d - 1 entries in a row without a clone. */
  function CloneCap(cd: nat): nat { if cd >= 1 then cd - 1 else 0 }

  /** Branch-and-bound order: `a` improves on `b`. */
  predicate Better(a: int, b: int, minimize: bool)
  {
    if minimize then a < b else a > b
  }

  /**
   * The solutions a branch-and-bound search reports from `s` on, starting
   * from `best`: each one strictly improves on the previous one.
   */
  function Records(s: seq<int>, best: Option<int>, minimize: bool): seq<int>
  {
    if s == [] then []
    else if best.None? || Better(s[0], best.value, minimize) then [s[0]] + Records(s[1..], Some(s[0]), minimize)
    else Records(s[1..], best, minimize)
  }

  /**
   * r is drawn from s, every entry improves on `best`, and every entry
   * improves on the one before it.
   */
  predicate Improving(r: seq<int>, s: seq<int>, best: Option<int>, minimize: bool)
  {
    (forall i :: 0 <= i < |r| ==> r[i] in s) &&
    (forall i :: 0 <= i < |r| ==> best.None? || Better(r[i], best.value, minimize)) &&
    (forall i :: 0 < i < |r| ==> Better(r[i], r[i - 1], minimize))
  }

  /** A branch-and-bound search reports an improving sequence. */
  lemma {:induction false} RecordsImprove(s: seq<int>, best: Option<int>, minimize: bool)
    ensures Improving(Records(s, best, minimize), s, best, minimize)
  {
    if s != [] {
      var r := Records(s, best, minimize);
      if best.None? || Better(s[0], best.value, minimize) {
        RecordsImprove(s[1..], Some(s[0]), minimize);
        var t := Records(s[1..], Some(s[0]), minimize);
        assert r == [s[0]] + t;
        forall i | 0 < i < |r|
          ensures r[i] in s && Better(r[i], s[0], minimize)
          ensures best.None? || Better(r[i], best.value, minimize)
          ensures Better(r[i], r[i - 1], minimize)
        {
          assert r[i] == t[i - 1] && t[i - 1] in s[1..];
          if i > 1 {
            assert r[i - 1] == t[i - 2];
          }
        }
      } else {
        RecordsImprove(s[1..], best, minimize);
        forall x | x in s[1..] ensures x in s {}
      }
    }
  }

  // ---------------------------------------------------------------------
  // Engine state, as values
  // ---------------------------------------------------------------------

  /**
   * The invariant both engines keep: frames are on a valid alternative, the
   * root entry stores a clone, d is one more than the run of clone-less
   * entries at the top of the path, and no run of clone-less entries is
   * longer than c_d - 1.
   */
  ghost predicate StackOk(cur: Option<Tree>, path: seq<Frame>, snaps: seq<bool>, d: nat, cd: nat)
  {
    PathOk(path) && |snaps| == |path| &&
    (cur.Some? ==> WellFormed(cur.value)) &&
    (path != [] ==> snaps[0] && d == Trailing(snaps) + 1) &&
    (path == [] && cur.Some? ==> d == 0) &&
    RunsBounded(snaps, CloneCap(cd))
  }

  /** The solutions still below `cur` and on the path, in depth-first order. */
  function FrontierOf(cur: Option<Tree>, path: seq<Frame>): seq<int>
    requires PathOk(path)
  {
    (if cur.Some? then Sols(cur.value) else []) + PathSols(path)
  }

  function MeasureOf(cur: Option<Tree>, path: seq<Frame>): nat
    requires PathOk(path)
  {
    (if cur.Some? then Size(cur.value) else 0) + PathMeasure(path)
  }

  /** A branching node is cloned iff d == 0 or d >= c_d. */
  function CloneNow(d: nat, cd: nat): bool { d == 0 || d >= cd }

  /** After pushing, d is 1 if a clone was taken and one more otherwise. */
  function NextDistance(d: nat, cd: nat): nat { if CloneNow(d, cd) then 1 else d + 1 }

  /** Committing a branch to its first alternative keeps the invariant and the frontier. */
  lemma DescendKeeps(kids: seq<Tree>, path: seq<Frame>, snaps: seq<bool>, d: nat, cd: nat)
    requires StackOk(Some(Branch(kids)), path, snaps, d, cd)
    ensures StackOk(Some(kids[0]), path + [Frame(kids, 0)], snaps + [CloneNow(d, cd)], NextDistance(d, cd), cd)
    ensures FrontierOf(Some(kids[0]), path + [Frame(kids, 0)]) == FrontierOf(Some(Branch(kids)), path)
    ensures MeasureOf(Some(kids[0]), path + [Frame(kids, 0)]) < MeasureOf(Some(Branch(kids)), path)
  {
    var c := CloneNow(d, cd);
    var snaps' := snaps + [c];
    assert snaps'[..|snaps|] == snaps;
    assert Trailing(snaps') == if c then 0 else Trailing(snaps) + 1;
    RunsBoundedPush(snaps, c, CloneCap(cd));
    PushFacts(path, kids);
  }

  /** Recomputing the next alternative keeps the invariant and the frontier. */
  lemma BacktrackKeeps(path: seq<Frame>, snaps: seq<bool>, d: nat, cd: nat, q: seq<Frame>)
    requires StackOk(None, path, snaps, d, cd)
    requires PathOk(q) && q != [] && |q| <= |path|
    requires PathSols(path) == Sols(Current(q)) + PathSols(q)
    requires PathMeasure(path) > Size(Current(q)) + PathMeasure(q)
    ensures StackOk(Some(Current(q)), q, snaps[..|q|], Trailing(snaps[..|q|]) + 1, cd)
    ensures FrontierOf(Some(Current(q)), q) == FrontierOf(None, path)
    ensures MeasureOf(Some(Current(q)), q) < MeasureOf(None, path)
  {
    RunsBoundedPrefix(snaps, |q|, CloneCap(cd));
  }

  /** BoundedDFS: every solution, in depth-first order. */
  class BoundedDFS {
    var cur: Option<Tree>
    var path: seq<Frame>
    /** Whether each path entry stores a clone. */
    var snaps: seq<bool>
    /** Distance until the next clone. */
    var d: nat
    const cd: nat
    var node: nat
    var fail: nat
    /** The stop object of the search options, on the node and fail counts. */
    const stop: (nat, nat) -> bool

    ghost predicate Valid()
      reads this
    {
      StackOk(cur, path, snaps, d, cd)
    }

    /** The solutions the engine has yet to report, in order. */
    function Frontier(): seq<int>
      reads this
      requires PathOk(path)
    {
      FrontierOf(cur, path)
    }

    /** A null or failed root counts one failure and leaves nothing to explore. */
    constructor (s: Option<Tree>, cd: nat, stop: (nat, nat) -> bool)
      requires s.Some? ==> WellFormed(s.value)
      ensures Valid() && this.cd == cd && this.stop == stop && path == [] && d == 0
      ensures cur == if s.None? || s.value.Fail? then None else s
      ensures fail == if s.None? || s.value.Fail? then 1 else 0
      ensures node == 0
    {
      this.cd, this.stop := cd, stop;
      path, snaps, d, node := [], [], 0, 0;
      if s.None? || s.value.Fail? {
        fail, cur := 1, None;
      } else {
        fail, cur := 0, s;
      }
    }

    /** Restart at s: a null or failed s leaves nothing to explore. */
    method Reset(s: Option<Tree>)
      requires s.Some? ==> WellFormed(s.value)
      modifies this
      ensures Valid() && path == [] && d == 0
      ensures cur == if s.None? || s.value.Fail? then None else s
      ensures Frontier() == if s.None? then [] else Sols(s.value)
      ensures node == old(node) && fail == old(fail)
    {
      path, snaps, d := [], [], 0;
      if s.None? || s.value.Fail? {
        cur := None;
      } else {
        cur := s;
      }
    }

    /**
     * Explore until the next solution.  A solution is handed to the caller
     * and `cur` is cleared; null is returned only when the stop object fires
     * (nothing was lost) or the path is exhausted (nothing was left).
     */
    method Next() returns (r: Option<int>)
      requires Valid()
      modifies this
      ensures Valid()
      ensures r.Some? ==> cur.None? && old(Frontier()) == [r.value] + Frontier()
      ensures r.None? ==> (stop(node, fail) && Frontier() == old(Frontier())) ||
                          (old(Frontier()) == [] && Frontier() == [] && path == [] && cur.None?)
      ensures node >= old(node) && fail >= old(fail)
    {
      while true
        invariant Valid() && Frontier() == old(Frontier())
        invariant node >= old(node) && fail >= old(fail)
        decreases MeasureOf(cur, path)
      {
        var done;
        done, r := Step();
        if done {
          return;
        }
      }
    }

    /**
     * One step of the exploration: check the stop object, then expand the
     * current node, or recompute the next alternative when there is none.
     * When the search goes on, nothing was lost and the measure went down.
     */
    method Step() returns (done: bool, r: Option<int>)
      requires Valid()
      modifies this
      ensures Valid()
      ensures !done ==> Frontier() == old(Frontier()) && MeasureOf(cur, path) < old(MeasureOf(cur, path))
      ensures done && r.Some? ==> cur.None? && old(Frontier()) == [r.value] + Frontier()
      ensures done && r.None? ==> (stop(node, fail) && Frontier() == old(Frontier())) ||
                                  (old(Frontier()) == [] && Frontier() == [] && path == [] && cur.None?)
      ensures node >= old(node) && fail >= old(fail)
    {
      if cur.Some? {
        if stop(node, fail) {
          return true, None;
        }
        node := node + 1;
        match cur.value
        case Fail =>
          fail := fail + 1;
          cur := None;
          return false, None;
        case Solve(v) =>
          cur := None;
          return true, Some(v);
        case Branch(kids) =>
          Descend(kids);
          return false, None;
      } else {
        var ok := Backtrack();
        return !ok, None;
      }
    }

    /** Commit the branching node to its first alternative, cloning iff d == 0 or d >= c_d. */
    method Descend(kids: seq<Tree>)
      requires Valid() && cur == Some(Branch(kids))
      modifies this`cur, this`path, this`snaps, this`d
      ensures Valid() && Frontier() == old(Frontier())
      ensures MeasureOf(cur, path) < old(MeasureOf(cur, path))
      ensures |path| == old(|path|) + 1 && cur.Some?
    {
      DescendKeeps(kids, path, snaps, d, cd);
      var clone := d == 0 || d >= cd;
      if clone {
        d := 1;
      } else {
        d := d + 1;
      }
      path, snaps := path + [Frame(kids, 0)], snaps + [clone];
      cur := Some(kids[0]);
    }

    /**
     * Move to the next open alternative and recompute its space from the
     * last clone (d becomes the distance to it); false once the path is
     * exhausted.
     */
    method Backtrack() returns (ok: bool)
      requires Valid() && cur.None?
      modifies this`cur, this`path, this`snaps, this`d
      ensures Valid()
      ensures ok ==> cur.Some? && Frontier() == old(Frontier()) &&
                     MeasureOf(cur, path) < old(MeasureOf(cur, path))
      ensures !ok ==> old(Frontier()) == [] && Frontier() == [] && path == [] && cur.None?
    {
      var more, q := PathNext(path);
      if !more {
        path, snaps := [], [];
        return false;
      }
      BacktrackKeeps(path, snaps, d, cd, q);
      path, snaps := q, snaps[..|q|];
      cur := Some(Current(path));
      d := Trailing(snaps) + 1;
      return true;
    }
  }

  /** BoundedBAB: the solutions that improve on the best one so far. */
  class BoundedBAB {
    var cur: Option<Tree>
    var best: Option<int>
    var path: seq<Frame>
    var snaps: seq<bool>
    var d: nat
    /** Number of entries not yet constrained to be better. */
    var mark: nat
    const cd: nat
    const minimize: bool
    var node: nat
    var fail: nat
    const stop: (nat, nat) -> bool

    ghost predicate Valid()
      reads this
    {
      StackOk(cur, path, snaps, d, cd)
    }

    /** The solutions below the unexplored part of the tree, in order. */
    function Frontier(): seq<int>
      reads this
      requires PathOk(path)
    {
      FrontierOf(cur, path)
    }

    /** What the engine has yet to report: the improving ones. */
    function Pending(): seq<int>
      reads this
      requires PathOk(path)
    {
      Records(FrontierOf(cur, path), best, minimize)
    }

    constructor (s: Option<Tree>, cd: nat, minimize: bool, stop: (nat, nat) -> bool)
      requires s.Some? ==> WellFormed(s.value)
      ensures Valid() && this.cd == cd && this.minimize == minimize && this.stop == stop
      ensures path == [] && d == 0 && mark == 0 && best == None && node == 0
      ensures cur == if s.None? || s.value.Fail? then None else s
      ensures fail == if s.None? || s.value.Fail? then 1 else 0
    {
      this.cd, this.minimize, this.stop := cd, minimize, stop;
      path, snaps, d, mark, best, node := [], [], 0, 0, None, 0;
      if s.None? || s.value.Fail? {
        fail, cur := 1, None;
      } else {
        fail, cur := 0, s;
      }
    }

    /** Restart at s (never null here): the best is forgotten. */
    method Reset(s: Tree)
      requires WellFormed(s)
      modifies this
      ensures Valid() && path == [] && d == 0 && mark == 0 && best == None
      ensures cur == if s.Fail? then None else Some(s)
      ensures Pending() == Records(Sols(s), None, minimize)
      ensures node == old(node) && fail == old(fail)
    {
      best := None;
      path, snaps := [], [];
      d, mark := 0, 0;
      if s.Fail? {
        cur := None;
      } else {
        cur := Some(s);
        assert FrontierOf(cur, path) == Sols(s);
      }
    }

    /**
     * Explore until the next solution better than `best`.  It becomes the
     * best, `mark` records the path depth, and it is returned; null is
     * returned only when the stop object fires (nothing was lost) or no
     * improving solution is left.  Under the constraint posted from `best`,
     * a solved node that does not improve on it has failed.
     */
    method Next() returns (r: Option<int>)
      requires Valid()
      modifies this
      ensures Valid()
      ensures r.Some? ==> cur.None? && best == r && mark == |path| &&
                          old(Pending()) == [r.value] + Pending()
      ensures r.Some? ==> old(best).None? || Better(r.value, old(best).value, minimize)
      ensures r.None? ==> best == old(best) &&
                          ((stop(node, fail) && Pending() == old(Pending())) ||
                           (old(Pending()) == [] && path == [] && cur.None?))
      ensures node >= old(node) && fail >= old(fail)
    {
      while true
        invariant Valid() && Pending() == old(Pending()) && best == old(best)
        invariant node >= old(node) && fail >= old(fail)
        decreases MeasureOf(cur, path)
      {
        var done;
        done, r := Step();
        if done {
          return;
        }
      }
    }

    /**
     * One step of the exploration: check the stop object, then expand the
     * current node, or recompute the next alternative when there is none.
     * When the search goes on, nothing was lost and the measure went down.
     */
    method Step() returns (done: bool, r: Option<int>)
      requires Valid()
      modifies this
      ensures Valid()
      ensures !done ==> r.None? && best == old(best) && Pending() == old(Pending()) &&
                        MeasureOf(cur, path) < old(MeasureOf(cur, path))
      ensures done && r.Some? ==> cur.None? && best == r && mark == |path| &&
                                  old(Pending()) == [r.value] + Pending()
      ensures done && r.Some? ==> old(best).None? || Better(r.value, old(best).value, minimize)
      ensures done && r.None? ==> best == old(best) &&
                                  ((stop(node, fail) && Pending() == old(Pending())) ||
                                   (old(Pending()) == [] && path == [] && cur.None?))
      ensures node >= old(node) && fail >= old(fail)
    {
      if cur.Some? {
        if stop(node, fail) {
          return true, None;
        }
        node := node + 1;
        if cur.value.Branch? {
          Descend(cur.value.kids);
          return false, None;
        } else {
          r := Leaf();
          return r.Some?, r;
        }
      } else {
        var ok := Backtrack();
        return !ok, None;
      }
    }

    /**
     * A failed node, or a solved one: reported when it improves on the
     * best, otherwise failed by the constraint posted from the best.
     */
    method Leaf() returns (r: Option<int>)
      requires Valid() && cur.Some? && !cur.value.Branch?
      modifies this`cur, this`best, this`mark, this`fail
      ensures Valid() && cur.None? && fail >= old(fail)
      ensures r.Some? ==> best == r && mark == |path| && old(Pending()) == [r.value] + Pending()
      ensures r.Some? ==> old(best).None? || Better(r.value, old(best).value, minimize)
      ensures r.None? ==> best == old(best) && Pending() == old(Pending()) &&
                          MeasureOf(cur, path) < old(MeasureOf(cur, path))
    {
      if cur.value.Solve? {
        var v := cur.value.obj;
        assert FrontierOf(cur, path) == [v] + FrontierOf(None, path);
        if best.None? || Better(v, best.value, minimize) {
          best := Some(v);
          cur := None;
          mark := |path|;
          return Some(v);
        }
      }
      fail := fail + 1;
      cur := None;
      return None;
    }

    /** Commit the branching node to its first alternative, cloning iff d == 0 or d >= c_d. */
    method Descend(kids: seq<Tree>)
      requires Valid() && cur == Some(Branch(kids))
      modifies this`cur, this`path, this`snaps, this`d
      ensures Valid() && Frontier() == old(Frontier())
      ensures MeasureOf(cur, path) < old(MeasureOf(cur, path))
      ensures |path| == old(|path|) + 1 && cur.Some?
    {
      DescendKeeps(kids, path, snaps, d, cd);
      var clone := d == 0 || d >= cd;
      if clone {
        d := 1;
      } else {
        d := d + 1;
      }
      path, snaps := path + [Frame(kids, 0)], snaps + [clone];
      cur := Some(kids[0]);
    }

    /**
     * Move to the next open alternative and recompute its space from the
     * last clone (d becomes the distance to it); false once the path is
     * exhausted.
     */
    method Backtrack() returns (ok: bool)
      requires Valid() && cur.None?
      modifies this`cur, this`path, this`snaps, this`d
      ensures Valid()
      ensures ok ==> cur.Some? && Frontier() == old(Frontier()) &&
                     MeasureOf(cur, path) < old(MeasureOf(cur, path))
      ensures !ok ==> old(Frontier()) == [] && Frontier() == [] && path == [] && cur.None?
    {
      var more, q := PathNext(path);
      if !more {
        path, snaps := [], [];
        return false;
      }
      BacktrackKeeps(path, snaps, d, cd, q);
      path, snaps := q, snaps[..|q|];
      cur := Some(Current(path));
      d := Trailing(snaps) + 1;
      return true;
    }

    /** Worker::better: adopt a shared best and constrain from the current depth. */
    method AdoptBest(b: Option<int>)
      modifies this`best, this`mark
      ensures b.Some? ==> best == b && mark == |path|
      ensures b.None? ==> best == old(best) && mark == old(mark)
    {
      if b.Some? {
        best := b;
        mark := |path|;
      }
    }
  }
}
