/**
 * The steel-mill slab design model (models/steelmill.h): the loss table,
 * the instance parser, the `SortByWeight` order and the custom brancher
 * `SteelMillBranch`.
 */
module SteelMill {
  import opened Wrappers

  /** An order: its weight and its colour. */
  datatype Order = Order(weight: int, color: int)

  /** Slab capacities are listed in strictly increasing order. */
  predicate Increasing(caps: seq<int>)
  {
    forall i, j :: 0 <= i < j < |caps| ==> caps[i] < caps[j]
  }

  // ---------------------------------------------------------------------
  // The loss table
  // ---------------------------------------------------------------------

  /** maxcap is the largest of the capacities. */
  predicate IsMax(caps: seq<int>, maxcap: int)
  {
    maxcap in caps && forall k :: 0 <= k < |caps| ==> caps[k] <= maxcap
  }

  /**
   * The loss computation of SteelMillOptions: for each load c with
   * 1 <= c < maxcapacity, loss[c] + c is a capacity reached by a forward
   * scan; when the capacities are increasing and non-negative it is the
   * smallest slab that holds c, so the loss is the capacity it wastes.
   * The last entry, loss[maxcapacity], is never written.
   */
  method ComputeLoss(caps: seq<int>, maxcap: int) returns (loss: array<int>)
    requires |caps| >= 1 && IsMax(caps, maxcap) && maxcap >= 0
    ensures fresh(loss) && loss.Length == maxcap + 1
    ensures loss[0] == 0
    ensures forall c :: 1 <= c < maxcap ==> loss[c] + c in caps
    ensures Increasing(caps) && caps[0] >= 0 ==> forall c :: 1 <= c < maxcap ==>
      loss[c] >= 0 &&
      forall k :: 0 <= k < |caps| && caps[k] >= c ==> loss[c] + c <= caps[k]
  {
    loss := new int[maxcap + 1];
    loss[0] := 0;
    var currcap := 0;
    var c := 1;
    while c < maxcap
      invariant 1 <= c && (c <= maxcap || c == 1)
      invariant loss.Length == maxcap + 1
      invariant 0 <= currcap < |caps|
      invariant forall k :: 0 <= k < currcap ==> caps[k] < maxcap
      invariant Increasing(caps) && caps[0] >= 0 ==>
        caps[currcap] >= c - 1 && (currcap > 0 ==> caps[currcap - 1] < c - 1 + 1)
      invariant loss[0] == 0
      invariant forall e :: 1 <= e < c ==> loss[e] + e in caps
      invariant Increasing(caps) && caps[0] >= 0 ==> forall e :: 1 <= e < c ==>
        loss[e] >= 0 &&
        forall k :: 0 <= k < |caps| && caps[k] >= e ==> loss[e] + e <= caps[k]
    {
      if c > caps[currcap] {
        ScanStaysInside(caps, maxcap, currcap);
        currcap := currcap + 1;
      }
      loss[c] := caps[currcap] - c;
      if Increasing(caps) && caps[0] >= 0 {
        SmallestHolds(caps, currcap, c);
      }
      c := c + 1;
    }
  }

  /** A scan that has only passed capacities below the maximum has one left. */
  lemma ScanStaysInside(caps: seq<int>, maxcap: int, i: nat)
    requires IsMax(caps, maxcap) && i < |caps|
    requires forall k :: 0 <= k <= i ==> caps[k] < maxcap
    ensures i + 1 < |caps|
  {
    var m :| 0 <= m < |caps| && caps[m] == maxcap;
    assert m > i;
  }

  /**
   * The maximum scan of parse: starting from -1, the largest capacity
   * read; with some capacity non-negative it is one of the capacities.
   */
  method MaxCapacity(caps: seq<int>) returns (maxcap: int)
    requires exists k :: 0 <= k < |caps| && caps[k] >= 0
    ensures maxcap >= 0 && IsMax(caps, maxcap)
  {
    maxcap := -1;
    var i := 0;
    while i < |caps|
      invariant 0 <= i <= |caps|
      invariant maxcap == -1 || maxcap in caps[..i]
      invariant forall k :: 0 <= k < i ==> caps[k] <= maxcap
    {
      assert caps[..i + 1] == caps[..i] + [caps[i]];
      maxcap := if maxcap < caps[i] then caps[i] else maxcap;
      i := i + 1;
    }
    assert caps[..|caps|] == caps;
  }

  /** In increasing capacities, caps[i] is the smallest one >= c when the one before is below c. */
  lemma SmallestHolds(caps: seq<int>, i: nat, c: int)
    requires Increasing(caps) && i < |caps| && caps[i] >= c
    requires i > 0 ==> caps[i - 1] < c
    ensures forall k :: 0 <= k < |caps| && caps[k] >= c ==> caps[i] <= caps[k]
  {
  }

  // ---------------------------------------------------------------------
  // The instance file
  // ---------------------------------------------------------------------

  /**
   * An instance file, as the integers it holds in order: the number of
   * capacities, the capacities, the number of colours, the number of
   * orders, then a weight and a colour per order.
   */
  predicate WellFormed(t: seq<int>)
  {
    |t| >= 1 && t[0] >= 1 && |t| >= t[0] + 3 &&
    (exists k :: 1 <= k < t[0] + 1 && t[k] >= 0) &&
    t[t[0] + 2] >= 0 && |t| >= t[0] + 3 + 2 * t[t[0] + 2]
  }

  function Capacities(t: seq<int>): seq<int>
    requires WellFormed(t)
  {
    t[1..t[0] + 1]
  }

  function NOrders(t: seq<int>): nat
    requires WellFormed(t)
  {
    t[t[0] + 2]
  }

  function OrdersOf(t: seq<int>): (os: seq<Order>)
    requires WellFormed(t)
    ensures |os| == NOrders(t)
  {
    var base := t[0] + 3;
    seq(NOrders(t), i requires 0 <= i < NOrders(t) => Order(t[base + 2 * i], t[base + 2 * i + 1]))
  }

  /** The options of the steel-mill model, as `parse` fills them. */
  class SteelMillOptions {
    var size: nat
    var capacities: seq<int>
    var maxcapacity: int
    var loss: array<int>
    var ncolors: int
    var orders: seq<Order>
    var norders: nat

    constructor ()
      ensures size == 0 && norders == 0 && orders == [] && capacities == []
    {
      size, capacities, maxcapacity, ncolors, orders, norders := 0, [], 0, 0, [], 0;
      loss := new int[0];
    }

    /**
     * SteelMillOptions::parse: false when the file cannot be read (nothing
     * changes) or holds no order; otherwise the fields hold the instance,
     * `size` is the number of orders and the loss table is computed.
     */
    method Parse(readable: bool, t: seq<int>) returns (ok: bool)
      requires readable ==> WellFormed(t)
      modifies this
      ensures !readable ==> (!ok && size == old(size) && capacities == old(capacities) &&
                             orders == old(orders) && norders == old(norders) && loss == old(loss))
      ensures readable ==> ok == (NOrders(t) != 0)
      ensures readable ==> (capacities == Capacities(t) && orders == OrdersOf(t) &&
                            norders == NOrders(t) && size == norders)
      ensures readable ==> ncolors == t[t[0] + 1]
      ensures readable ==> IsMax(capacities, maxcapacity)
      ensures readable ==> fresh(loss) && maxcapacity >= 0 && loss.Length == maxcapacity + 1 && loss[0] == 0
      ensures readable ==> forall c :: 1 <= c < maxcapacity ==> loss[c] + c in capacities
      ensures readable && Increasing(capacities) && capacities[0] >= 0 ==>
        forall c :: 1 <= c < maxcapacity ==>
          loss[c] >= 0 &&
          forall k :: 0 <= k < |capacities| && capacities[k] >= c ==> loss[c] + c <= capacities[k]
    {
      if !readable {
        return false;
      }
      size := 0;
      var ncap := t[0];
      var caps := Capacities(t);
      var w :| 1 <= w < ncap + 1 && t[w] >= 0;
      assert caps[w - 1] == t[w];
      var maxcap := MaxCapacity(caps);
      capacities, maxcapacity := caps, maxcap;
      ncolors, norders := t[ncap + 1], t[ncap + 2];
      var base := ncap + 3;
      var os: seq<Order> := [];
      var o := 0;
      while o < norders
        invariant 0 <= o <= norders && |os| == o
        invariant forall k :: 0 <= k < o ==> os[k] == Order(t[base + 2 * k], t[base + 2 * k + 1])
      {
        os := os + [Order(t[base + 2 * o], t[base + 2 * o + 1])];
        o := o + 1;
      }
      orders := os;
      loss := ComputeLoss(caps, maxcap);
      if size == 0 {
        size := norders;
      }
      ok := !(size == 0 || size > norders);
    }
  }

  // ---------------------------------------------------------------------
  // SortByWeight
  // ---------------------------------------------------------------------

  /** Order i comes before order j: heavier first, equal weights by index. */
  predicate Before(orders: seq<Order>, i: nat, j: nat)
    requires i < |orders| && j < |orders|
  {
    orders[i].weight > orders[j].weight || (orders[i].weight == orders[j].weight && i < j)
  }

  /** SortByWeight is a strict total order on the indices of the orders. */
  lemma BeforeStrictTotal(orders: seq<Order>, i: nat, j: nat, k: nat)
    requires i < |orders| && j < |orders| && k < |orders|
    ensures !Before(orders, i, i)
    ensures Before(orders, i, j) ==> !Before(orders, j, i)
    ensures Before(orders, i, j) && Before(orders, j, k) ==> Before(orders, i, k)
    ensures i != j ==> Before(orders, i, j) || Before(orders, j, i)
  {
  }

  // ---------------------------------------------------------------------
  // SteelMillBranch
  // ---------------------------------------------------------------------

  /** The domain of a slab variable, as its values in increasing order. */
  predicate Dom(d: seq<int>)
  {
    forall p, q :: 0 <= p < q < |d| ==> d[p] < d[q]
  }

  predicate Assigned(d: seq<int>)
  {
    |d| == 1
  }

  /** The choice: how many alternatives, the order and the slab. */
  datatype Choice = Choice(alt: nat, pos: nat, val: int)

  /** The first slab whose load may be 0: all slabs from there on are empty and alike. */
  function FirstEmpty(loadMin: seq<int>): (k: nat)
    ensures k <= |loadMin| && (k < |loadMin| ==> loadMin[k] <= 0)
    ensures forall j :: 0 <= j < k ==> loadMin[j] > 0
  {
    if loadMin == [] || loadMin[0] <= 0 then 0 else 1 + FirstEmpty(loadMin[1..])
  }

  /**
   * Among the orders that are not yet assigned, from `start` on, so far:
   * `pos` has the smallest domain and, among those, the earliest of the
   * greatest weight.
   */
  predicate BestSoFar(iv: seq<seq<int>>, orders: seq<Order>, start: nat, i: nat, pos: nat)
    requires |orders| == |iv| && start <= i <= |iv| && pos < |iv|
  {
    forall k :: start <= k < i && !Assigned(iv[k]) ==>
      |iv[pos]| <= |iv[k]| &&
      (|iv[k]| == |iv[pos]| ==> orders[k].weight <= orders[pos].weight) &&
      (|iv[k]| == |iv[pos]| && orders[k].weight == orders[pos].weight ==> pos <= k)
  }

  /** The brancher, with its cache of the first order that may be unassigned. */
  class SteelMillBranch {
    var start: nat

    constructor ()
      ensures start == 0
    {
      start := 0;
    }

    /**
     * status: whether an order from `start` on is unassigned; `start` moves
     * to the first such order, and stays when there is none.
     */
    method Status(iv: seq<seq<int>>) returns (b: bool)
      modifies this`start
      ensures b <==> exists i :: old(start) <= i < |iv| && !Assigned(iv[i])
      ensures b ==> (old(start) <= start < |iv| && !Assigned(iv[start]) &&
                     forall i :: old(start) <= i < start ==> Assigned(iv[i]))
      ensures !b ==> start == old(start)
      ensures start >= old(start)
    {
      var i := start;
      while i < |iv|
        invariant old(start) <= i && start == old(start)
        invariant forall k :: old(start) <= k < i && k < |iv| ==> Assigned(iv[k])
      {
        if !Assigned(iv[i]) {
          start := i;
          return true;
        }
        i := i + 1;
      }
      return false;
    }

    /**
     * choice: the unassigned order from `start` on with the smallest domain,
     * the earliest of the heaviest among those; its smallest slab; and two
     * alternatives when that slab comes before the first empty slab, one
     * otherwise (putting an order into one empty slab is as good as any).
     */
    method Choose(iv: seq<seq<int>>, orders: seq<Order>, loadMin: seq<int>) returns (c: Choice)
      requires |orders| == |iv| && start < |iv| && !Assigned(iv[start])
      requires forall i :: 0 <= i < |iv| ==> Dom(iv[i]) && 1 <= |iv[i]| <= |iv|
      requires forall i :: 0 <= i < |orders| ==> orders[i].weight > 0
      ensures start <= c.pos < |iv| && !Assigned(iv[c.pos])
      ensures BestSoFar(iv, orders, start, |iv|, c.pos)
      ensures c.val == iv[c.pos][0] && forall x :: x in iv[c.pos] ==> c.val <= x
      ensures c.alt == if c.val < FirstEmpty(loadMin) then 2 else 1
    {
      var size := |iv|;
      var weight := 0;
      var pos := start;
      ghost var seen := false;
      var i := start;
      while i < |iv|
        invariant start <= i <= |iv| && start <= pos < |iv|
        invariant !seen ==> (size == |iv| && weight == 0 && pos == start &&
                             forall k :: start <= k < i ==> Assigned(iv[k]))
        invariant seen ==> (pos < i && !Assigned(iv[pos]) && size == |iv[pos]| &&
                            weight == orders[pos].weight && BestSoFar(iv, orders, start, i, pos))
      {
        if !Assigned(iv[i]) {
          if |iv[i]| == size && orders[i].weight > weight {
            weight := orders[i].weight;
            pos := i;
          } else if |iv[i]| < size {
            size := |iv[i]|;
            weight := orders[i].weight;
            pos := i;
          }
          seen := true;
        }
        i := i + 1;
      }
      var val := iv[pos][0];
      assert forall x :: x in iv[pos] ==> val <= x by {
        forall x | x in iv[pos] ensures val <= x {
          var q :| 0 <= q < |iv[pos]| && iv[pos][q] == x;
        }
      }
      var firstzero := 0;
      while firstzero < |loadMin| && loadMin[firstzero] > 0
        invariant firstzero <= |loadMin|
        invariant forall j :: 0 <= j < firstzero ==> loadMin[j] > 0
      {
        firstzero := firstzero + 1;
      }
      FirstEmptyIs(loadMin, firstzero);
      c := Choice(if val < firstzero then 2 else 1, pos, val);
    }
  }

  lemma {:induction false} FirstEmptyIs(loadMin: seq<int>, k: nat)
    requires k <= |loadMin| && (k < |loadMin| ==> loadMin[k] <= 0)
    requires forall j :: 0 <= j < k ==> loadMin[j] > 0
    ensures FirstEmpty(loadMin) == k
    decreases k
  {
    if k > 0 {
      FirstEmptyIs(loadMin[1..], k - 1);
    }
  }

  /** The domain without v. */
  function Without(d: seq<int>, v: int): (r: seq<int>)
    ensures forall x :: x in r <==> x in d && x != v
    ensures Dom(d) ==> Dom(r)
  {
    if d == [] then []
    else if d[0] == v then Without(d[1..], v)
    else
      var rest := Without(d[1..], v);
      assert Dom(d) ==> forall x :: x in rest ==> d[0] < x by {
        if Dom(d) {
          forall x | x in rest ensures d[0] < x {
            var q :| 0 <= q < |d[1..]| && d[1..][q] == x;
            assert d[1..][q] == d[q + 1];
          }
        }
      }
      var r := [d[0]] + rest;
      assert Dom(d) ==> Dom(r) by {
        if Dom(d) {
          forall p, q | 0 <= p < q < |r| ensures r[p] < r[q] {
            assert r[q] == rest[q - 1] && rest[q - 1] in rest;
            if p > 0 {
              assert r[p] == rest[p - 1];
            }
          }
        }
      }
      r
  }

  /**
   * commit: alternative 0 makes order pos go into slab val, any other
   * alternative keeps it out of val.  None when the domain becomes empty
   * (the space fails).
   */
  function Commit(iv: seq<seq<int>>, c: Choice, a: nat): (r: Option<seq<seq<int>>>)
    requires c.pos < |iv|
    ensures r.Some? ==> |r.value| == |iv| && forall i :: 0 <= i < |iv| && i != c.pos ==> r.value[i] == iv[i]
    ensures a == 0 ==> (r.Some? <==> c.val in iv[c.pos]) && (r.Some? ==> r.value[c.pos] == [c.val])
    ensures a != 0 ==> ((r.Some? <==> exists x :: x in iv[c.pos] && x != c.val) &&
                        (r.Some? ==> forall x :: x in r.value[c.pos] <==> x in iv[c.pos] && x != c.val))
  {
    var d := if a == 0 then (if c.val in iv[c.pos] then [c.val] else []) else Without(iv[c.pos], c.val);
    if d == [] then
      assert a != 0 ==> forall x :: x in iv[c.pos] ==> x == c.val;
      None
    else
      assert a != 0 ==> d[0] in iv[c.pos] && d[0] != c.val;
      Some(iv[c.pos := d])
  }

  /**
   * The two alternatives lose no solution and share none: every slab of
   * order pos survives exactly one of them.
   */
  lemma CommitSplits(iv: seq<seq<int>>, c: Choice, x: int)
    requires c.pos < |iv| && x in iv[c.pos]
    ensures var r0, r1 := Commit(iv, c, 0), Commit(iv, c, 1);
      (r0.Some? && x in r0.value[c.pos]) != (r1.Some? && x in r1.value[c.pos])
  {
    var r0, r1 := Commit(iv, c, 0), Commit(iv, c, 1);
    if x != c.val {
      assert r1.Some?;
    }
  }
}
