/**
 * How EPS_BAB merges the solutions of its workers (eps_bab.cpp):
 * `Worker::better`, `notifyBestSolution` with the objective file shared by
 * all the processes of a grid run, and `EPS_BAB::solution`, which keeps the
 * shared best and the queue of solutions handed to the caller.
 *
 * The mutex `m_search`, the file lock and the signalling of the waiting
 * thread are not modelled: a call of `Solution` is one atomic step.
 */
module Merge {
  import opened Wrappers
  import opened Text
  import opened Objective
  import Engine

  // ---------------------------------------------------------------------
  // The objective file, as a stored value
  // ---------------------------------------------------------------------

  /**
   * What notifyBestSolution decides: the value it returns, whether it
   * writes the new value into the objective file, and the bound it posts
   * on the shared best when the file holds a better value.
   */
  datatype Decision = Decision(ret: int, write: bool, bound: Option<ObjBound>)

  /**
   * notifyBestSolution(v, meth) against the value `stored` in the file
   * (None when the file is empty).  Outside a grid run it only returns v.
   */
  function NotifyRule(grid: bool, meth: Meth, v: int, stored: Option<int>): (d: Decision)
    ensures !grid ==> d == Decision(v, false, None)
    ensures grid ==> (d.write <==> stored.None? || Improves(meth, v, stored.value))
    ensures d.ret == v || (stored.Some? && d.ret == stored.value)
    ensures grid && stored.Some? ==> !Improves(meth, v, d.ret) && !Improves(meth, stored.value, d.ret)
    ensures d.bound.Some? <==> grid && stored.Some? && Improves(meth, stored.value, v)
    ensures d.bound.Some? ==> d.ret == stored.value && !Holds(d.bound.value, v)
    ensures d.bound.Some? ==> forall x :: Holds(d.bound.value, x) <==> Improves(meth, x, stored.value)
  {
    if !grid then Decision(v, false, None)
    else if stored.None? then Decision(v, true, None)
    else
      var c := stored.value;
      match meth
      case Min =>
        if v < c then Decision(v, true, None)
        else if v > c then Decision(c, false, Some(ObjBound(Lt, c)))
        else Decision(v, false, None)
      case Max =>
        if v > c then Decision(v, true, None)
        else if v < c then Decision(c, false, Some(ObjBound(Gt, c)))
        else Decision(v, false, None)
      case Sat => Decision(v, false, None)
  }

  /**
   * The value the file holds after a notification.  In a grid run that
   * optimises it is the better of the old value and v, so it never gets
   * worse, and it is the value notifyBestSolution returns: the best
   * objective known to all the processes.
   */
  function Written(grid: bool, meth: Meth, v: int, stored: Option<int>): (s: Option<int>)
    ensures !grid ==> s == stored
    ensures grid ==> s.Some? && (s.value == v || (stored.Some? && s.value == stored.value))
    ensures grid ==> !Improves(meth, v, s.value) && (stored.Some? ==> !Improves(meth, stored.value, s.value))
    ensures grid && meth != Sat ==> s == Some(NotifyRule(grid, meth, v, stored).ret)
  {
    if NotifyRule(grid, meth, v, stored).write then Some(v) else stored
  }

  /** The objective file of a grid run, shared by its processes. */
  class ObjectiveFile {
    var content: Option<int>

    constructor (content: Option<int>)
      ensures this.content == content
    {
      this.content := content;
    }

    /** notifyBestSolution, with the file's content read and rewritten under its lock. */
    method Notify(grid: bool, meth: Meth, v: int) returns (ret: int, bound: Option<ObjBound>)
      modifies this
      ensures ret == NotifyRule(grid, meth, v, old(content)).ret
      ensures bound == NotifyRule(grid, meth, v, old(content)).bound
      ensures content == Written(grid, meth, v, old(content))
    {
      ret, bound := v, None;
      if grid {
        if content.Some? {
          var c := content.value;
          if meth == Min {
            if v < c {
              content := Some(v);
            } else if v > c {
              ret, bound := c, Some(ObjBound(Lt, c));
            }
          } else if meth == Max {
            if v > c {
              content := Some(v);
            } else if v < c {
              ret, bound := c, Some(ObjBound(Gt, c));
            }
          }
        } else {
          content := Some(v);
        }
      }
    }
  }

  // ---------------------------------------------------------------------
  // The objective file, as bytes
  // ---------------------------------------------------------------------

  /** What `read(data, 21)` and `atoi(data)` make of the file: None when empty. */
  function Stored(bytes: string): (r: Option<int>)
    ensures r.None? <==> bytes == []
  {
    if bytes == [] then None else Some(Atoi(bytes))
  }

  /** POSIX `write` of data at an offset: overwrites, extends, keeps the rest. */
  function WriteAt(bytes: string, off: nat, data: string): (r: string)
    requires off <= |bytes|
    ensures |r| == if off + |data| <= |bytes| then |bytes| else off + |data|
    ensures r[..off] == bytes[..off] && r[off..off + |data|] == data
    ensures off + |data| <= |bytes| ==> r[off + |data|..] == bytes[off + |data|..]
  {
    var r := bytes[..off] + data + (if off + |data| < |bytes| then bytes[off + |data|..] else []);
    assert r[..off] == bytes[..off];
    assert r[off..off + |data|] == data;
    r
  }

  /**
   * notifyBestSolution as written: the file is opened without truncation,
   * `read` leaves the offset at the end of what it read, and `write` puts
   * the new number there.  `data[rd] = '\0'` needs rd <= 20.
   */
  function NotifyBytesAsWritten(grid: bool, meth: Meth, v: int, bytes: string): (r: (Decision, string))
    requires |bytes| <= 20
    ensures r.0 == NotifyRule(grid, meth, v, Stored(bytes))
    ensures !r.0.write ==> r.1 == bytes
  {
    var d := NotifyRule(grid, meth, v, Stored(bytes));
    (d, if d.write then WriteAt(bytes, |bytes|, IntToString(v)) else bytes)
  }

  /** The new number is appended to the old one instead of replacing it. */
  lemma AsWrittenAppends(grid: bool, meth: Meth, v: int, bytes: string)
    requires |bytes| <= 20
    ensures var r := NotifyBytesAsWritten(grid, meth, v, bytes);
      r.0.write ==> r.1 == bytes + IntToString(v)
  {
    var w := IntToString(v);
    var r := WriteAt(bytes, |bytes|, w);
    assert r == bytes[..|bytes|] + r[|bytes|..|bytes| + |w|];
    assert bytes[..|bytes|] == bytes;
  }

  /**
   * The file holds 15 and a minimising worker reports 9: notifyBestSolution
   * writes "9" after "15", and the next process reads 159 instead of 9.
   */
  lemma AsWrittenStoresWrongValue()
    ensures var r := NotifyBytesAsWritten(true, Min, 9, "15");
      r.0.write && r.1 == "159" && Stored(r.1) == Some(159) &&
      Written(true, Min, 9, Stored("15")) == Some(9)
  {
    assert IntToString(15) == "15";
    assert IntToString(159) == "159";
    AtoiIntToString(15);
    AtoiIntToString(159);
    AsWrittenAppends(true, Min, 9, "15");
    assert IntToString(9) == "9";
  }

  /**
   * notifyBestSolution as intended: the number replaces the file's content
   * (a truncating open, or a write at offset 0 followed by a truncation).
   */
  function NotifyBytes(grid: bool, meth: Meth, v: int, bytes: string): (r: (Decision, string))
    requires |bytes| <= 20
    ensures r.0 == NotifyRule(grid, meth, v, Stored(bytes))
  {
    var d := NotifyRule(grid, meth, v, Stored(bytes));
    (d, if d.write then IntToString(v) else bytes)
  }

  /** The corrected file behaves as the stored value of ObjectiveFile. */
  lemma NotifyBytesStoresWritten(grid: bool, meth: Meth, v: int, bytes: string)
    requires |bytes| <= 20
    ensures Stored(NotifyBytes(grid, meth, v, bytes).1) == Written(grid, meth, v, Stored(bytes))
  {
    AtoiIntToString(v);
  }

  // ---------------------------------------------------------------------
  // The shared best and the queue of solutions
  // ---------------------------------------------------------------------

  /** A solution space: its objective value, and the bounds posted on it since. */
  datatype Sol = Sol(obj: int, bounds: seq<ObjBound>)

  /** A space whose posted bounds exclude its own objective value fails. */
  predicate Failed(s: Sol)
  {
    exists i :: 0 <= i < |s.bounds| && !Holds(s.bounds[i], s.obj)
  }

  function ObjOf(b: Option<Sol>): (r: Option<int>)
    ensures r.Some? <==> b.Some?
    ensures r.Some? ==> r.value == b.value.obj
  {
    if b.Some? then Some(b.value.obj) else None
  }

  /** Each queued solution strictly improves on the one queued before it. */
  predicate QueueImproving(meth: Meth, q: seq<Sol>)
  {
    forall i :: 0 < i < |q| ==> Improves(meth, q[i].obj, q[i - 1].obj)
  }

  /** The shared part of EPS_BAB in a branch-and-bound run. */
  class EpsBab {
    const meth: Meth
    const grid: bool
    const file: ObjectiveFile
    var best: Option<Sol>
    var solutions: seq<Sol>

    /**
     * The queue improves, and nothing in it is better than the shared best
     * (which was the last solution queued).
     */
    ghost predicate Valid()
      reads this
    {
      QueueImproving(meth, solutions) &&
      (solutions != [] ==> best.Some?) &&
      (best.Some? ==> forall i :: 0 <= i < |solutions| ==>
         solutions[i].obj == best.value.obj || Improves(meth, best.value.obj, solutions[i].obj))
    }

    constructor (meth: Meth, grid: bool, file: ObjectiveFile)
      ensures Valid() && this.meth == meth && this.grid == grid && this.file == file
      ensures best == None && solutions == []
    {
      this.meth, this.grid, this.file := meth, grid, file;
      best, solutions := None, [];
    }

    /**
     * EPS_BAB::solution(w): merge the best solution of worker w.  A better
     * one becomes the shared best, is reported to the objective file and is
     * queued; a worse one, or a worker without a solution, makes the worker
     * adopt the shared best; a tie changes nothing.
     */
    method Solution(w: Engine.BoundedBAB?)
      requires Valid()
      modifies this, file, w
      ensures Valid()
      ensures best != old(best) ==> best.Some?
      ensures solutions == old(solutions) + (if best != old(best) then [best.value] else [])
      ensures best != old(best) ==>
        w != null && old(w.best).Some? && best.Some? && best.value.obj == old(w.best).value &&
        (old(best).None? || Improves(meth, best.value.obj, old(best).value.obj))
      ensures w == null ==> best == old(best) && file.content == old(file.content)
      ensures w != null && old(w.best).None? ==>
        best == old(best) && file.content == old(file.content) &&
        w.best == (if best.Some? then ObjOf(best) else old(w.best))
      ensures (w != null && old(w.best).Some? && old(best).Some? && meth != Sat &&
               Improves(meth, old(best).value.obj, old(w.best).value)) ==>
        best == old(best) && file.content == old(file.content) && w.best == ObjOf(best)
      ensures (w != null && old(w.best).Some? && old(best).Some? &&
               (meth == Sat || old(w.best).value == old(best).value.obj)) ==>
        best == old(best) && file.content == old(file.content) && w.best == old(w.best)
      ensures (w != null && old(w.best).Some? && old(best).Some? &&
               Improves(meth, old(w.best).value, old(best).value.obj)) ==>
        var d := NotifyRule(grid, meth, old(w.best).value, old(file.content));
        best == Some(Sol(old(w.best).value, if d.bound.Some? then [d.bound.value] else [])) &&
        solutions == old(solutions) + [best.value] &&
        file.content == Written(grid, meth, old(w.best).value, old(file.content)) &&
        (d.bound.Some? ==> Failed(best.value)) &&
        w.best == old(w.best)
      ensures w != null && old(w.best).Some? && old(best).None? ==>
        best == Some(Sol(old(w.best).value, [])) && file.content == old(file.content) &&
        w.best == old(w.best)
    {
      if w == null {
        return;
      }
      if w.best.None? {
        w.AdoptBest(ObjOf(best));
        return;
      }
      var wv := w.best.value;
      if best.Some? {
        var bv := best.value.obj;
        if meth == Sat || wv == bv {
          return;
        }
        if !Improves(meth, wv, bv) {
          w.AdoptBest(ObjOf(best));
          return;
        }
        var ret, bound := file.Notify(grid, meth, wv);
        best := Some(Sol(wv, if bound.Some? then [bound.value] else []));
        if bound.Some? {
          assert !Holds(best.value.bounds[0], best.value.obj);
        }
        if ret != wv {
          w.AdoptBest(ObjOf(best));
        }
      } else {
        best := Some(Sol(wv, []));
      }
      solutions := solutions + [best.value];
    }
  }
}
