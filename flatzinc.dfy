/**
 * The FlatZinc front end of flatzinc.cpp: the bounds of a Boolean variable
 * specification, the flattening of search annotations, the classification
 * of variables done by `createBranchers`, `sortVariables`, `constrain`, and
 * the solution loop and aggregates of `runMeta`.
 */
module FlatZinc {
  import opened Wrappers
  import opened Objective

  // ---------------------------------------------------------------------
  // vs2bsl / vs2bsh
  // ---------------------------------------------------------------------

  /** An interval set literal `min..max`. */
  datatype Interval = Interval(min: int, max: int)

  /** A BoolVarSpec: assigned to i, or with an optional interval domain. */
  datatype BoolVarSpec = BoolVarSpec(isAssigned: bool, i: int, domain: Option<Interval>)

  /** vs2bsl: the lower bound of a Boolean variable. */
  function BoolLow(bs: BoolVarSpec): (r: int)
    ensures bs.isAssigned ==> r == bs.i
    ensures !bs.isAssigned ==> 0 <= r <= 1
    ensures !bs.isAssigned && bs.domain.None? ==> r == 0
    ensures !bs.isAssigned && bs.domain.Some? ==>
      (r == 0 <==> bs.domain.value.min <= 0)
  {
    if bs.isAssigned then bs.i
    else if bs.domain.Some? then Clamp01(bs.domain.value.min)
    else 0
  }

  /** vs2bsh: the upper bound of a Boolean variable. */
  function BoolHigh(bs: BoolVarSpec): (r: int)
    ensures bs.isAssigned ==> r == bs.i
    ensures !bs.isAssigned ==> 0 <= r <= 1
    ensures !bs.isAssigned && bs.domain.None? ==> r == 1
    ensures !bs.isAssigned && bs.domain.Some? ==>
      (r == 1 <==> bs.domain.value.max >= 1)
  {
    if bs.isAssigned then bs.i
    else if bs.domain.Some? then Clamp01(bs.domain.value.max)
    else 1
  }

  /** min(1, max(0, n)); vs2bsh writes it as max(0, min(1, n)), which is the same. */
  function Clamp01(n: int): (r: int)
    ensures 0 <= r <= 1 && (r == 0 <==> n <= 0)
  {
    if n <= 0 then 0 else if n >= 1 then 1 else n
  }

  /**
   * When the domain meets {0, 1}, the two bounds describe exactly the
   * Boolean values the domain allows.
   */
  lemma BoolBoundsExact(bs: BoolVarSpec, x: int)
    requires !bs.isAssigned && bs.domain.Some?
    requires bs.domain.value.min <= bs.domain.value.max
    requires bs.domain.value.min <= 1 && bs.domain.value.max >= 0
    requires x == 0 || x == 1
    ensures BoolLow(bs) <= x <= BoolHigh(bs) <==> bs.domain.value.min <= x <= bs.domain.value.max
  {
  }

  // ---------------------------------------------------------------------
  // flattenAnnotations
  // ---------------------------------------------------------------------

  /** The annotation syntax tree: atoms, literals, calls with one argument, arrays. */
  datatype Node = Atom(id: string) | IntLit(n: int) | Call(id: string, args: Node) | Array(a: seq<Node>)

  predicate IsSeqSearch(n: Node)
  {
    n.Call? && n.id == "seq_search"
  }

  /**
   * The flattened annotations: a `seq_search` call is replaced by its array
   * argument, itself flattened, or by its argument when that is not an
   * array; anything else stays as it is.
   */
  function Flat(ann: seq<Node>): seq<Node>
    decreases ann, 1
  {
    if ann == [] then [] else FlatNode(ann[0]) + Flat(ann[1..])
  }

  /** One annotation, flattened. */
  function FlatNode(n: Node): seq<Node>
    decreases n, 0
  {
    if IsSeqSearch(n) then (if n.args.Array? then Flat(n.args.a) else [n.args])
    else [n]
  }

  /** flattenAnnotations(ann, out): the flattened annotations appended to out. */
  method FlattenAnnotations(ann: seq<Node>, out: seq<Node>) returns (r: seq<Node>)
    ensures r == out + Flat(ann)
    decreases ann
  {
    r := out;
    var i := 0;
    while i < |ann|
      invariant i <= |ann|
      invariant r + Flat(ann[i..]) == out + Flat(ann)
    {
      var n := ann[i];
      assert ann[i..] == [n] + ann[i + 1..];
      assert Flat(ann[i..]) == FlatNode(n) + Flat(ann[i + 1..]);
      if IsSeqSearch(n) {
        if n.args.Array? {
          r := FlattenAnnotations(n.args.a, r);
        } else {
          r := r + [n.args];
        }
      } else {
        r := r + [n];
      }
      i := i + 1;
    }
    assert ann[i..] == [];
  }

  /** Flattening keeps the order: the parts of a sequence are flattened in turn. */
  lemma {:induction false} FlatAppend(a: seq<Node>, b: seq<Node>)
    ensures Flat(a + b) == Flat(a) + Flat(b)
    decreases a
  {
    if a == [] {
      assert a + b == b;
    } else {
      assert (a + b)[0] == a[0];
      assert (a + b)[1..] == a[1..] + b;
      FlatAppend(a[1..], b);
    }
  }

  /** Every seq_search call in the tree has an array argument. */
  predicate Nested(ann: seq<Node>)
    decreases ann
  {
    forall i :: 0 <= i < |ann| ==> NestedNode(ann[i])
  }

  predicate NestedNode(n: Node)
    decreases n
  {
    if IsSeqSearch(n) then n.args.Array? && (forall i :: 0 <= i < |n.args.a| ==> NestedNode(n.args.a[i]))
    else true
  }

  /** When every seq_search call has an array argument, none is left after flattening. */
  lemma {:induction false} FlatRemovesSeqSearch(ann: seq<Node>)
    requires Nested(ann)
    ensures forall i :: 0 <= i < |Flat(ann)| ==> !IsSeqSearch(Flat(ann)[i])
    decreases ann
  {
    if ann != [] {
      var n := ann[0];
      assert NestedNode(n);
      assert Nested(ann[1..]) by {
        forall i | 0 <= i < |ann[1..]| ensures NestedNode(ann[1..][i]) {
          assert ann[1..][i] == ann[i + 1];
        }
      }
      FlatRemovesSeqSearch(ann[1..]);
      if IsSeqSearch(n) {
        assert Nested(n.args.a) by {
          forall i | 0 <= i < |n.args.a| ensures NestedNode(n.args.a[i]) {
          }
        }
        FlatRemovesSeqSearch(n.args.a);
      }
      var h := FlatNode(n);
      if IsSeqSearch(n) {
        assert h == Flat(n.args.a);
      } else {
        assert h == [n];
      }
      assert Flat(ann) == h + Flat(ann[1..]);
      forall i | 0 <= i < |Flat(ann)| ensures !IsSeqSearch(Flat(ann)[i]) {
        if i >= |h| {
          assert Flat(ann)[i] == Flat(ann[1..])[i - |h|];
        }
      }
    }
  }

  // ---------------------------------------------------------------------
  // Classification of variables in createBranchers
  // ---------------------------------------------------------------------

  /**
   * What createBranchers does with a variable: already searched by an
   * annotation, introduced and functionally dependent (dropped), introduced
   * (given to the auxiliary brancher), or a solution variable (branched on
   * by default).
   */
  datatype VarClass = Searched | FuncDep | Introduced | SolutionVar

  /** `searched` has a flag per variable, `introduced` two (introduced, functionally dependent). */
  predicate Flags(searched: seq<bool>, introduced: seq<bool>)
  {
    |introduced| == 2 * |searched|
  }

  function ClassOf(searched: seq<bool>, introduced: seq<bool>, i: nat): VarClass
    requires Flags(searched, introduced) && i < |searched|
  {
    if searched[i] then Searched
    else if introduced[2 * i] then (if introduced[2 * i + 1] then FuncDep else Introduced)
    else SolutionVar
  }

  /** The indices in [lo, hi) of class c, from the highest down. */
  function Among(searched: seq<bool>, introduced: seq<bool>, c: VarClass, lo: nat, hi: nat): seq<nat>
    requires Flags(searched, introduced) && hi <= |searched|
    decreases hi - lo
  {
    if lo >= hi then []
    else Among(searched, introduced, c, lo + 1, hi) + (if ClassOf(searched, introduced, lo) == c then [lo] else [])
  }

  /**
   * The counting loop and the filling loop of createBranchers (the same
   * code for the int, Boolean, set and float variables): `sol` gets the
   * solution variables and `tmp` the introduced ones, both from the highest
   * index down.
   */
  method Classify(searched: seq<bool>, introduced: seq<bool>) returns (sol: seq<nat>, tmp: seq<nat>)
    requires Flags(searched, introduced)
    ensures sol == Among(searched, introduced, SolutionVar, 0, |searched|)
    ensures tmp == Among(searched, introduced, Introduced, 0, |searched|)
  {
    var n := |searched|;
    var nIntroduced, nFuncdep, nSearched := CountClasses(searched, introduced);
    ClassSizes(searched, introduced, 0, n);
    var i;
    var solArr := new nat[n - (nIntroduced + nFuncdep + nSearched)];
    var tmpArr := new nat[nIntroduced];
    var j, k := 0, 0;
    i := n;
    while i > 0
      invariant 0 <= i <= n
      invariant j == |Among(searched, introduced, Introduced, i, n)| && j <= tmpArr.Length
      invariant k == |Among(searched, introduced, SolutionVar, i, n)| && k <= solArr.Length
      invariant tmpArr[..j] == Among(searched, introduced, Introduced, i, n)
      invariant solArr[..k] == Among(searched, introduced, SolutionVar, i, n)
      invariant tmpArr.Length - j == |Among(searched, introduced, Introduced, 0, i)|
      invariant solArr.Length - k == |Among(searched, introduced, SolutionVar, 0, i)|
    {
      i := i - 1;
      AmongStep(searched, introduced, Introduced, i, n);
      AmongStep(searched, introduced, SolutionVar, i, n);
      if searched[i] {
        continue;
      }
      if introduced[2 * i] {
        if !introduced[2 * i + 1] {
          tmpArr[j] := i;
          j := j + 1;
        }
      } else {
        solArr[k] := i;
        k := k + 1;
      }
    }
    sol, tmp := solArr[..], tmpArr[..];
  }

  /** The counting loop: how many variables are searched, functionally dependent and introduced. */
  method CountClasses(searched: seq<bool>, introduced: seq<bool>) returns (nIntroduced: nat, nFuncdep: nat, nSearched: nat)
    requires Flags(searched, introduced)
    ensures nSearched == |Among(searched, introduced, Searched, 0, |searched|)|
    ensures nFuncdep == |Among(searched, introduced, FuncDep, 0, |searched|)|
    ensures nIntroduced == |Among(searched, introduced, Introduced, 0, |searched|)|
  {
    var n := |searched|;
    nIntroduced, nFuncdep, nSearched := 0, 0, 0;
    var i := n;
    while i > 0
      invariant 0 <= i <= n
      invariant nSearched == |Among(searched, introduced, Searched, i, n)|
      invariant nFuncdep == |Among(searched, introduced, FuncDep, i, n)|
      invariant nIntroduced == |Among(searched, introduced, Introduced, i, n)|
    {
      i := i - 1;
      if searched[i] {
        nSearched := nSearched + 1;
      } else if introduced[2 * i] {
        if introduced[2 * i + 1] {
          nFuncdep := nFuncdep + 1;
        } else {
          nIntroduced := nIntroduced + 1;
        }
      }
    }
  }

  /** Index i joins the class-c indices of [i + 1, n) at their end, and those of [0, i) at their start. */
  lemma AmongStep(searched: seq<bool>, introduced: seq<bool>, c: VarClass, i: nat, n: nat)
    requires Flags(searched, introduced) && i < n <= |searched|
    ensures var one := if ClassOf(searched, introduced, i) == c then [i] else [];
      Among(searched, introduced, c, i, n) == Among(searched, introduced, c, i + 1, n) + one &&
      |Among(searched, introduced, c, 0, i + 1)| == |Among(searched, introduced, c, 0, i)| + |one|
  {
    AmongSplitLow(searched, introduced, c, 0, i, i + 1);
  }

  /** [lo, hi) splits at any point m between. */
  lemma {:induction false} AmongSplitLow(searched: seq<bool>, introduced: seq<bool>, c: VarClass, lo: nat, m: nat, hi: nat)
    requires Flags(searched, introduced) && lo <= m <= hi <= |searched|
    ensures Among(searched, introduced, c, lo, hi) ==
      Among(searched, introduced, c, m, hi) + Among(searched, introduced, c, lo, m)
    decreases m - lo
  {
    if lo == m {
      assert Among(searched, introduced, c, lo, m) == [];
    } else {
      AmongSplitLow(searched, introduced, c, lo + 1, m, hi);
    }
  }

  /** The four classes together hold every index once: their sizes add up. */
  lemma {:induction false} ClassSizes(searched: seq<bool>, introduced: seq<bool>, lo: nat, hi: nat)
    requires Flags(searched, introduced) && lo <= hi <= |searched|
    ensures |Among(searched, introduced, Searched, lo, hi)| + |Among(searched, introduced, FuncDep, lo, hi)| +
            |Among(searched, introduced, Introduced, lo, hi)| + |Among(searched, introduced, SolutionVar, lo, hi)| == hi - lo
    decreases hi - lo
  {
    if lo < hi {
      ClassSizes(searched, introduced, lo + 1, hi);
    }
  }

  /** An index is listed in class c exactly when it is in range and of class c. */
  lemma {:induction false} AmongMember(searched: seq<bool>, introduced: seq<bool>, c: VarClass, lo: nat, hi: nat, x: nat)
    requires Flags(searched, introduced) && hi <= |searched|
    ensures x in Among(searched, introduced, c, lo, hi) <==>
      lo <= x < hi && ClassOf(searched, introduced, x) == c
    decreases hi - lo
  {
    if lo < hi {
      AmongMember(searched, introduced, c, lo + 1, hi, x);
    }
  }

  predicate Descending(s: seq<nat>)
  {
    forall p, q :: 0 <= p < q < |s| ==> s[p] > s[q]
  }

  /** The listed indices go strictly down. */
  lemma {:induction false} AmongDescending(searched: seq<bool>, introduced: seq<bool>, c: VarClass, lo: nat, hi: nat)
    requires Flags(searched, introduced) && hi <= |searched|
    ensures Descending(Among(searched, introduced, c, lo, hi))
    ensures forall x :: x in Among(searched, introduced, c, lo, hi) ==> lo <= x
    decreases hi - lo
  {
    if lo < hi {
      AmongDescending(searched, introduced, c, lo + 1, hi);
      var s := Among(searched, introduced, c, lo + 1, hi);
      var t := Among(searched, introduced, c, lo, hi);
      assert t == s + (if ClassOf(searched, introduced, lo) == c then [lo] else []);
      forall p, q | 0 <= p < q < |t| ensures t[p] > t[q] {
        if q >= |s| {
          assert t[q] == lo && t[p] == s[p];
          assert s[p] in s;
          assert s[p] >= lo + 1;
        } else {
          assert t[p] == s[p] && t[q] == s[q];
          assert Descending(s);
        }
      }
    }
  }

  /**
   * `n_aux` as written: `n_aux =+ k` assigns +k, so with set variables
   * and float variables compiled in, only the float auxiliaries count.
   */
  function AuxCountAsWritten(nInt: nat, nBool: nat, nSet: nat, nFloat: nat, hasSet: bool, hasFloat: bool): (r: nat)
    ensures hasFloat ==> r == nFloat
  {
    var n0 := nInt + nBool;
    var n1 := if hasSet then nSet else n0;
    if hasFloat then nFloat else n1
  }

  /** One introduced int variable and nothing else: the auxiliary brancher is not posted. */
  lemma AsWrittenDropsAuxBrancher()
    ensures AuxCountAsWritten(1, 0, 0, 0, true, true) == 0
    ensures AuxCount(1, 0, 0, 0, true, true) > 0
  {
  }

  /** `n_aux` as intended: every introduced variable counts. */
  function AuxCount(nInt: nat, nBool: nat, nSet: nat, nFloat: nat, hasSet: bool, hasFloat: bool): (r: nat)
    ensures r >= nInt + nBool
    ensures r > 0 <==> nInt > 0 || nBool > 0 || (hasSet && nSet > 0) || (hasFloat && nFloat > 0)
  {
    nInt + nBool + (if hasSet then nSet else 0) + (if hasFloat then nFloat else 0)
  }

  // ---------------------------------------------------------------------
  // sortVariables
  // ---------------------------------------------------------------------

  /** A variable handle: its identity and the size of its domain. */
  datatype Var = Var(id: nat, size: nat)

  /** VarCompare / ArrayVarIndexCompare on domain sizes: smaller first when `less`. */
  predicate Cmp(less: bool, a: nat, b: nat)
  {
    if less then a < b else a > b
  }

  /** Insertion into a sorted sequence, after the elements x does not precede. */
  function Insert(x: Var, s: seq<Var>, less: bool): (r: seq<Var>)
    ensures multiset(r) == multiset(s) + multiset{x}
    ensures |r| == |s| + 1
    ensures forall y :: y in r <==> y == x || y in s
  {
    if s == [] || !Cmp(less, s[0].size, x.size) then [x] + s
    else
      assert s == [s[0]] + s[1..];
      [s[0]] + Insert(x, s[1..], less)
  }

  /** std::stable_sort by domain size. */
  function SortBy(s: seq<Var>, less: bool): (r: seq<Var>)
    ensures multiset(r) == multiset(s)
    ensures |r| == |s|
  {
    if s == [] then []
    else
      assert s == [s[0]] + s[1..];
      Insert(s[0], SortBy(s[1..], less), less)
  }

  /** No variable comes after one it precedes. */
  predicate SortedBy(s: seq<Var>, less: bool)
  {
    forall p, q :: 0 <= p < q < |s| ==> !Cmp(less, s[q].size, s[p].size)
  }

  lemma SortedTail(s: seq<Var>, less: bool)
    requires s != [] && SortedBy(s, less)
    ensures SortedBy(s[1..], less)
    ensures forall y :: y in s[1..] ==> !Cmp(less, y.size, s[0].size)
  {
    forall p, q | 0 <= p < q < |s[1..]| ensures !Cmp(less, s[1..][q].size, s[1..][p].size) {
      assert s[1..][q] == s[q + 1] && s[1..][p] == s[p + 1];
    }
    forall y | y in s[1..] ensures !Cmp(less, y.size, s[0].size) {
      var j :| 0 <= j < |s[1..]| && s[1..][j] == y;
      assert s[1..][j] == s[j + 1];
    }
  }

  lemma {:induction false} InsertSorted(x: Var, s: seq<Var>, less: bool)
    requires SortedBy(s, less)
    ensures SortedBy(Insert(x, s, less), less)
    decreases s
  {
    var r := Insert(x, s, less);
    if s == [] || !Cmp(less, s[0].size, x.size) {
      assert r == [x] + s;
      forall p, q | 0 <= p < q < |r| ensures !Cmp(less, r[q].size, r[p].size) {
        assert r[q] == s[q - 1];
        if p == 0 {
          if q > 1 {
            assert !Cmp(less, s[q - 1].size, s[0].size);
          }
        } else {
          assert r[p] == s[p - 1];
        }
      }
    } else {
      SortedTail(s, less);
      InsertSorted(x, s[1..], less);
      var t := Insert(x, s[1..], less);
      assert r == [s[0]] + t;
      forall p, q | 0 <= p < q < |r| ensures !Cmp(less, r[q].size, r[p].size) {
        assert r[q] == t[q - 1];
        if p == 0 {
          assert t[q - 1] in t;
        } else {
          assert r[p] == t[p - 1];
        }
      }
    }
  }

  /** The sort result is ordered by domain size. */
  lemma {:induction false} SortBySorted(s: seq<Var>, less: bool)
    ensures SortedBy(SortBy(s, less), less)
    decreases s
  {
    if s != [] {
      SortBySorted(s[1..], less);
      InsertSorted(s[0], SortBy(s[1..], less), less);
    }
  }

  /** The `vec_indexes` of sortVariables: index i tagged with the size of vs[i]. */
  function Tags(vs: seq<Var>): (t: seq<Var>)
    ensures |t| == |vs| && forall k :: 0 <= k < |vs| ==> t[k] == Var(k, vs[k].size)
  {
    seq(|vs|, k requires 0 <= k < |vs| => Var(k, vs[k].size))
  }

  /** Every tag names a variable of vs and carries its size. */
  predicate TagsOf(t: seq<Var>, vs: seq<Var>)
  {
    forall k :: 0 <= k < |t| ==> t[k].id < |vs| && t[k].size == vs[t[k].id].size
  }

  /** The variables the tags name. */
  function Untag(vs: seq<Var>, t: seq<Var>): (r: seq<Var>)
    requires TagsOf(t, vs)
    ensures |r| == |t| && forall k :: 0 <= k < |t| ==> r[k] == vs[t[k].id]
  {
    seq(|t|, k requires 0 <= k < |t| => vs[t[k].id])
  }

  /** Untag maps the first tag and the rest separately. */
  lemma UntagCons(vs: seq<Var>, a: Var, t: seq<Var>)
    requires TagsOf([a] + t, vs)
    ensures TagsOf(t, vs) && a.id < |vs|
    ensures Untag(vs, [a] + t) == [vs[a.id]] + Untag(vs, t)
  {
    var at := [a] + t;
    assert at[0] == a;
    forall k | 0 <= k < |t| ensures t[k].id < |vs| && t[k].size == vs[t[k].id].size {
      assert at[k + 1] == t[k];
    }
  }

  /** Inserting a tag that names a variable of vs keeps every tag naming one. */
  lemma InsertTags(vs: seq<Var>, x: Var, t: seq<Var>, less: bool)
    requires x.id < |vs| && x.size == vs[x.id].size && TagsOf(t, vs)
    ensures TagsOf(Insert(x, t, less), vs)
  {
    var r := Insert(x, t, less);
    forall k | 0 <= k < |r| ensures r[k].id < |vs| && r[k].size == vs[r[k].id].size {
      assert r[k] in r;
      if r[k] != x {
        var j :| 0 <= j < |t| && t[j] == r[k];
      }
    }
  }

  lemma {:induction false} InsertUntag(vs: seq<Var>, x: Var, t: seq<Var>, less: bool)
    requires x.id < |vs| && x.size == vs[x.id].size && TagsOf(t, vs)
    ensures TagsOf(Insert(x, t, less), vs)
    ensures Untag(vs, Insert(x, t, less)) == Insert(vs[x.id], Untag(vs, t), less)
    decreases t
  {
    InsertTags(vs, x, t, less);
    var r := Insert(x, t, less);
    if t == [] || !Cmp(less, t[0].size, x.size) {
      assert r == [x] + t;
      UntagCons(vs, x, t);
    } else {
      assert t == [t[0]] + t[1..];
      UntagCons(vs, t[0], t[1..]);
      InsertUntag(vs, x, t[1..], less);
      var r1 := Insert(x, t[1..], less);
      assert r == [t[0]] + r1;
      UntagCons(vs, t[0], r1);
    }
  }

  /**
   * Sorting the tags by size and then taking the variables they name gives
   * the sorted variables: the two stable sorts of sortVariables, one on
   * `vec_indexes` and one on the variables, put the variables in the same
   * order.
   */
  lemma {:induction false} SortUntag(vs: seq<Var>, t: seq<Var>, less: bool)
    requires TagsOf(t, vs)
    ensures TagsOf(SortBy(t, less), vs)
    ensures Untag(vs, SortBy(t, less)) == SortBy(Untag(vs, t), less)
    decreases t
  {
    if t != [] {
      assert t == [t[0]] + t[1..];
      UntagCons(vs, t[0], t[1..]);
      SortUntag(vs, t[1..], less);
      InsertUntag(vs, t[0], SortBy(t[1..], less), less);
      var u := Untag(vs, t);
      assert u[1..] == Untag(vs, t[1..]);
    }
  }

  /** The model's variables and the index of the objective (-1 for none). */
  class Space {
    var iv: seq<Var>
    var bv: seq<Var>
    var optVar: int

    constructor (iv: seq<Var>, bv: seq<Var>, optVar: int)
      ensures this.iv == iv && this.bv == bv && this.optVar == optVar
    {
      this.iv, this.bv, this.optVar := iv, bv, optVar;
    }

    /**
     * sortVariables(less): stable sort of the int and Boolean variables by
     * domain size, keeping optVar on the objective variable.
     */
    method SortVariables(less: bool)
      modifies this
      ensures iv == SortBy(old(iv), less) && SortedBy(iv, less)
      ensures bv == SortBy(old(bv), less)
      ensures 0 <= old(optVar) < |old(iv)| ==> 0 <= optVar < |iv| && iv[optVar] == old(iv)[old(optVar)]
      ensures !(0 <= old(optVar) < |old(iv)|) ==> optVar == old(optVar)
    {
      if |iv| > 0 {
        if optVar != -1 {
          optVar := RemapIndex(iv, less, optVar);
        }
        SortBySorted(iv, less);
        iv := SortBy(iv, less);
      }
      if |bv| > 0 {
        bv := SortBy(bv, less);
      }
    }
  }

  /**
   * The update of `_optVar` in sortVariables: sort the indices of vs by the
   * domain sizes of their variables, and find v among them.
   */
  method RemapIndex(vs: seq<Var>, less: bool, v: int) returns (r: int)
    ensures 0 <= v < |vs| ==> 0 <= r < |vs| && SortBy(vs, less)[r] == vs[v]
    ensures !(0 <= v < |vs|) ==> r == v
  {
    var idx := SortBy(Tags(vs), less);
    SortUntag(vs, Tags(vs), less);
    var i := FirstWithId(idx, v);
    if 0 <= v < |vs| {
      TagPresent(vs, less, v);
      RemapOptVar(vs, less, v, i);
    }
    r := if i < |idx| then i else v;
  }

  /** The loop of sortVariables that looks for the objective among the sorted indices. */
  method FirstWithId(idx: seq<Var>, v: int) returns (i: nat)
    ensures i <= |idx| && (i < |idx| ==> idx[i].id == v)
    ensures forall k :: 0 <= k < i ==> idx[k].id != v
  {
    i := 0;
    while i < |idx| && idx[i].id != v
      invariant i <= |idx|
      invariant forall k :: 0 <= k < i ==> idx[k].id != v
    {
      i := i + 1;
    }
  }

  /** Every index of vs is among the sorted tags. */
  lemma TagPresent(vs: seq<Var>, less: bool, v: nat)
    requires v < |vs|
    ensures exists k :: 0 <= k < |vs| && SortBy(Tags(vs), less)[k].id == v
  {
    var idx := SortBy(Tags(vs), less);
    assert Tags(vs)[v] in multiset(Tags(vs));
    assert Tags(vs)[v] in idx;
    var k :| 0 <= k < |idx| && idx[k] == Tags(vs)[v];
  }

  /** The position of index v among the sorted tags is where vs[v] lands in the sorted variables. */
  lemma RemapOptVar(vs: seq<Var>, less: bool, v: nat, i: nat)
    requires v < |vs| && i < |vs| && SortBy(Tags(vs), less)[i].id == v
    ensures SortBy(vs, less)[i] == vs[v]
  {
    SortUntag(vs, Tags(vs), less);
    assert Untag(vs, Tags(vs)) == vs;
  }

  /**
   * The Boolean variables after sortVariables as written: the array is
   * sorted in place and then rebuilt from the copy taken before the sort.
   */
  function BoolsAfterSortAsWritten(bv: seq<Var>, less: bool): (r: seq<Var>)
    ensures r == bv
  {
    var copy := bv;
    var sortedInPlace := SortBy(bv, less);
    copy
  }

  /** Two Boolean variables out of order stay out of order. */
  lemma AsWrittenBoolsUnsorted()
    ensures var bv := [Var(0, 2), Var(1, 1)];
      BoolsAfterSortAsWritten(bv, true) == bv && !SortedBy(bv, true) &&
      SortedBy(SortBy(bv, true), true)
  {
    var bv := [Var(0, 2), Var(1, 1)];
    SortBySorted(bv, true);
    assert Cmp(true, bv[1].size, bv[0].size);
  }

  // ---------------------------------------------------------------------
  // constrain
  // ---------------------------------------------------------------------

  /**
   * constrain(s) on an int objective with bounds [bMin, bMax] in s:
   * obj < bMax when minimising, obj > bMin when maximising.
   */
  function Constrain(meth: Meth, bMin: int, bMax: int): (r: Option<ObjBound>)
    ensures r.None? <==> meth == Sat
    ensures meth == Min ==> forall v :: Holds(r.value, v) <==> v < bMax
    ensures meth == Max ==> forall v :: Holds(r.value, v) <==> v > bMin
  {
    match meth
    case Sat => None
    case Min => Some(ObjBound(Lt, bMax))
    case Max => Some(ObjBound(Gt, bMin))
  }

  /** Against a solution, whose objective is assigned to b, only strictly better values remain. */
  lemma ConstrainImproves(meth: Meth, b: int, v: int)
    requires meth != Sat
    ensures Holds(Constrain(meth, b, b).value, v) <==> Improves(meth, v, b)
  {
  }

  // ---------------------------------------------------------------------
  // runMeta
  // ---------------------------------------------------------------------

  /** What runMeta writes: the k-th solution, "----------", and the final lines. */
  datatype Line = PrintSol(k: nat) | Separator | Complete | Unsatisfiable | Unknown

  /** How many of n solutions the loop takes: `opt.solutions()` of them for satisfaction. */
  function Consumed(meth: Meth, solutions: nat, n: nat): (r: nat)
    ensures r <= n
    ensures meth == Sat && solutions > 0 ==> r == if solutions < n then solutions else n
    ensures meth != Sat || solutions == 0 ==> r == n
  {
    if meth == Sat && 0 < solutions <= n then solutions else n
  }

  /** Whether the loop leaves through `goto stopped`. */
  predicate EarlyStop(meth: Meth, solutions: nat, n: nat)
  {
    meth == Sat && 0 < solutions <= n
  }

  /** The terminating line, after the engine returned no more solutions. */
  function Terminator(stopped: bool, found: bool): (r: seq<Line>)
    ensures !stopped && found ==> r == [Complete]
    ensures !stopped && !found ==> r == [Unsatisfiable]
    ensures stopped && !found ==> r == [Unknown]
    ensures stopped && found ==> r == []
  {
    if !stopped then (if found then [Complete] else [Unsatisfiable])
    else if !found then [Unknown] else []
  }

  function PrintedAll(from: nat, to: nat): seq<Line>
    decreases (to as int) - (from as int)
  {
    if from >= to then [] else [PrintSol(from), Separator] + PrintedAll(from + 1, to)
  }

  /**
   * The lines runMeta writes when the engine returns n solutions and then
   * reports `stopped`.
   */
  function Transcript(meth: Meth, solutions: nat, printAll: bool, n: nat, stopped: bool): seq<Line>
  {
    var nb := Consumed(meth, solutions, n);
    (if printAll then PrintedAll(0, nb) else []) +
    (if EarlyStop(meth, solutions, n) then []
     else (if nb > 0 && !printAll then [PrintSol(nb - 1), Separator] else []) + Terminator(stopped, nb > 0))
  }

  /**
   * The solution loop of runMeta.  `next` holds the objective values of the
   * solutions the engine returns, in order; `stopped` is what the engine
   * says once it returns no more.
   */
  method SolutionLoop(meth: Meth, solutions: nat, printAll: bool, next: seq<int>, stopped: bool)
    returns (out: seq<Line>, nb: nat, objective: int)
    ensures nb == Consumed(meth, solutions, |next|)
    ensures objective == if meth != Sat && nb > 0 then next[nb - 1] else -1
    ensures out == Transcript(meth, solutions, printAll, |next|, stopped)
  {
    var findSol: int := if meth == Sat then solutions else 0;
    var sol: Option<nat> := None;
    out, nb, objective := [], 0, -1;
    var i: nat := 0;
    while i < |next|
      invariant i <= |next| && nb == i
      invariant findSol == (if meth == Sat then solutions else 0) - i
      invariant meth == Sat && solutions > 0 ==> i < solutions
      invariant sol == if i > 0 then Some(i - 1) else None
      invariant objective == if meth != Sat && i > 0 then next[i - 1] else -1
      invariant out == if printAll then PrintedAll(0, i) else []
    {
      nb := nb + 1;
      sol := Some(i);
      if printAll {
        PrintedAllSnoc(0, i);
        out := out + [PrintSol(i), Separator];
      }
      if meth != Sat {
        objective := next[i];
      }
      findSol := findSol - 1;
      if findSol == 0 {
        return;
      }
      i := i + 1;
    }
    if sol.Some? && !printAll {
      out := out + [PrintSol(sol.value), Separator];
    }
    out := out + Terminator(stopped, sol.Some?);
  }

  lemma {:induction false} PrintedAllSnoc(from: nat, to: nat)
    requires from <= to
    ensures PrintedAll(from, to + 1) == PrintedAll(from, to) + [PrintSol(to), Separator]
    decreases (to as int) - (from as int)
  {
    if from < to {
      PrintedAllSnoc(from + 1, to);
    }
  }

  /** Satisfaction with `-n k`, k > 0: the loop takes exactly k solutions when there are that many. */
  lemma SatStopsAfterSolutions(solutions: nat, n: nat)
    requires solutions > 0 && n >= solutions
    ensures Consumed(Sat, solutions, n) == solutions && EarlyStop(Sat, solutions, n)
  {
  }

  /** Optimisation starts findSol at 0: it never reaches 0 again, every solution is taken. */
  lemma OptimisationTakesAll(meth: Meth, solutions: nat, printAll: bool, n: nat, stopped: bool)
    requires meth != Sat
    ensures Consumed(meth, solutions, n) == n && !EarlyStop(meth, solutions, n)
    ensures n > 0 && !printAll ==>
      Transcript(meth, solutions, printAll, n, stopped) ==
      [PrintSol(n - 1), Separator] + Terminator(stopped, true)
  {
  }

  /**
   * Satisfaction with `-n 1` and without `-a`: the loop leaves through
   * `goto stopped` before the block that prints the last solution, so the
   * solution found is never written.
   */
  lemma AsWrittenSolutionNotPrinted()
    ensures Transcript(Sat, 1, false, 1, false) == []
  {
  }

  /** runMeta as intended: the early exit prints the last solution when not printing all. */
  function TranscriptFixed(meth: Meth, solutions: nat, printAll: bool, n: nat, stopped: bool): (r: seq<Line>)
    ensures !EarlyStop(meth, solutions, n) ==> r == Transcript(meth, solutions, printAll, n, stopped)
  {
    var nb := Consumed(meth, solutions, n);
    (if printAll then PrintedAll(0, nb) else []) +
    (if nb > 0 && !printAll then [PrintSol(nb - 1), Separator] else []) +
    (if EarlyStop(meth, solutions, n) then [] else Terminator(stopped, nb > 0))
  }

  /** Every run that finds a solution writes the last solution it took. */
  lemma FixedPrintsLastSolution(meth: Meth, solutions: nat, printAll: bool, n: nat, stopped: bool)
    requires n > 0
    ensures PrintSol(Consumed(meth, solutions, n) - 1) in TranscriptFixed(meth, solutions, printAll, n, stopped)
  {
    var nb := Consumed(meth, solutions, n);
    assert nb > 0;
    if printAll {
      PrintedAllHas(0, nb, nb - 1);
    }
  }

  lemma {:induction false} PrintedAllHas(from: nat, to: nat, k: nat)
    requires from <= k < to
    ensures PrintSol(k) in PrintedAll(from, to)
    decreases k - from
  {
    if from < k {
      PrintedAllHas(from + 1, to, k);
    }
  }

  /** The status word of the statistics: UNSAT when no solution was found. */
  function StatusWord(meth: Meth, nb: nat): (r: string)
    ensures r == "UNSAT" <==> nb == 0
  {
    if nb == 0 then "UNSAT"
    else match meth
      case Sat => "SAT"
      case Min => "MINIMIZE"
      case Max => "MAXIMIZE"
  }

  // ---------------------------------------------------------------------
  // Time aggregates of the subproblems
  // ---------------------------------------------------------------------

  const U32: int := 0x1_0000_0000

  /** All the recorded times, worker by worker. */
  function AllTimes(times: seq<seq<nat>>): seq<nat>
  {
    if times == [] then [] else times[0] + AllTimes(times[1..])
  }

  function Total(s: seq<nat>): nat
  {
    if s == [] then 0 else s[0] + Total(s[1..])
  }

  /** std::min_element of a non-empty list. */
  function MinOf(s: seq<nat>): (m: nat)
    requires s != []
    ensures m in s && forall x :: x in s ==> m <= x
  {
    if |s| == 1 then s[0]
    else
      var m := MinOf(s[1..]);
      assert forall x :: x in s ==> x == s[0] || x in s[1..];
      if s[0] <= m then s[0] else m
  }

  /** std::max_element of a non-empty list. */
  function MaxOf(s: seq<nat>): (m: nat)
    requires s != []
    ensures m in s && forall x :: x in s ==> x <= m
  {
    if |s| == 1 then s[0]
    else
      var m := MaxOf(s[1..]);
      assert forall x :: x in s ==> x == s[0] || x in s[1..];
      if s[0] >= m then s[0] else m
  }

  /**
   * The aggregation loop of runMeta: the unsigned 32-bit sum of all the
   * times, and their minimum and maximum; all three are 0 without times.
   */
  method AggregateTimes(times: seq<seq<nat>>) returns (sum: nat, mn: nat, mx: nat)
    ensures sum == Total(AllTimes(times)) % U32
    ensures AllTimes(times) == [] ==> mn == 0 && mx == 0
    ensures AllTimes(times) != [] ==>
      mn in AllTimes(times) && mx in AllTimes(times) &&
      forall x :: x in AllTimes(times) ==> mn <= x <= mx
  {
    sum, mn, mx := 0, 0, 0;
    var first := true;
    var i := 0;
    while i < |times|
      invariant i <= |times|
      invariant sum == Total(AllTimes(times[..i])) % U32
      invariant first <==> AllTimes(times[..i]) == []
      invariant first ==> mn == 0 && mx == 0
      invariant !first ==> Spans(AllTimes(times[..i]), mn, mx)
    {
      var w := times[i];
      AllTimesSnoc(times[..i], w);
      assert times[..i + 1] == times[..i] + [w];
      TotalAppend(AllTimes(times[..i]), w);
      sum := AddTimes(sum, w, Total(AllTimes(times[..i])));
      first, mn, mx := WidenRange(AllTimes(times[..i]), first, mn, mx, w);
      i := i + 1;
    }
    assert times[..i] == times;
  }

  /** mn and mx are the least and the greatest of a non-empty list. */
  predicate Spans(all: seq<nat>, mn: nat, mx: nat)
  {
    mn in all && mx in all && forall x :: x in all ==> mn <= x <= mx
  }

  /** The inner loop: add one worker's times to the unsigned 32-bit sum. */
  method AddTimes(sum: nat, w: seq<nat>, ghost before: nat) returns (r: nat)
    requires sum == before % U32
    ensures r == (before + Total(w)) % U32
  {
    r := sum;
    var j := 0;
    while j < |w|
      invariant j <= |w|
      invariant r == (before + Total(w[..j])) % U32
    {
      TotalSnoc(w[..j], w[j]);
      assert w[..j + 1] == w[..j] + [w[j]];
      ModAdd(before + Total(w[..j]), w[j]);
      r := (r + w[j]) % U32;
      j := j + 1;
    }
    assert w[..j] == w;
  }

  lemma ModAdd(a: nat, x: nat)
    ensures (a % U32 + x) % U32 == (a + x) % U32
  {
  }

  /** Fold one worker's minimum and maximum into the running ones. */
  method WidenRange(all: seq<nat>, first: bool, mn: nat, mx: nat, w: seq<nat>)
    returns (first': bool, mn': nat, mx': nat)
    requires first <==> all == []
    requires first ==> mn == 0 && mx == 0
    requires !first ==> Spans(all, mn, mx)
    ensures first' <==> all + w == []
    ensures first' ==> mn' == 0 && mx' == 0
    ensures !first' ==> Spans(all + w, mn', mx')
  {
    first', mn', mx' := first, mn, mx;
    if |w| > 0 {
      var minTime, maxTime := MinOf(w), MaxOf(w);
      if first {
        first', mn', mx' := false, minTime, maxTime;
        assert all + w == w;
      } else {
        if mn > minTime {
          mn' := minTime;
        }
        if mx < maxTime {
          mx' := maxTime;
        }
        assert forall x :: x in all + w ==> x in all || x in w;
      }
    } else {
      assert all + w == all;
    }
  }

  lemma {:induction false} AllTimesSnoc(ts: seq<seq<nat>>, w: seq<nat>)
    ensures AllTimes(ts + [w]) == AllTimes(ts) + w
    decreases ts
  {
    if ts == [] {
      assert [] + [w] == [w];
    } else {
      assert (ts + [w])[1..] == ts[1..] + [w];
      AllTimesSnoc(ts[1..], w);
    }
  }

  lemma {:induction false} TotalAppend(a: seq<nat>, b: seq<nat>)
    ensures Total(a + b) == Total(a) + Total(b)
    decreases a
  {
    if a == [] {
      assert a + b == b;
    } else {
      assert (a + b)[1..] == a[1..] + b;
      TotalAppend(a[1..], b);
    }
  }

  lemma TotalSnoc(a: seq<nat>, x: nat)
    ensures Total(a + [x]) == Total(a) + x
  {
    TotalAppend(a, [x]);
  }
}
