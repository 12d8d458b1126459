/**
 * The sub-problem text files of the grid mode: the writer in the
 * grid-generation branch of EPS_BAB::Worker::find, the reader
 * readSubProblem of main.cpp, and getBaseName.
 *
 * A file is a list of lines.  `v i j ...` declares the variables of a new
 * table (flat indices: below nb_bool a bool variable, above it
 * iv[index - nb_bool]); each `t a b ...` adds one row to it; `ub n` and
 * `lb n` bound the objective.  A table is posted when the next `v` line
 * starts or the file ends, over its bool variables if it declared any and
 * its int variables otherwise, on the main space and, when there is one,
 * on the space hook.
 */
module SubproblemFile {
  import opened Wrappers
  import opened Text
  import opened Objective
  import opened Decompose

  // ---------------------------------------------------------------------
  // getBaseName
  // ---------------------------------------------------------------------

  /** `\` if the path contains one anywhere, otherwise `/`. */
  function Separator(path: string): char
  {
    if '\\' in path then '\\' else '/'
  }

  /** find_last_of: the last position holding c, -1 when there is none. */
  function LastIndexOf(s: string, c: char): (r: int)
    ensures -1 <= r < |s| && (r >= 0 ==> s[r] == c)
    ensures forall k :: r < k < |s| ==> s[k] != c
    ensures r == -1 <==> c !in s
  {
    if s == [] then -1
    else if s[|s| - 1] == c then |s| - 1
    else
      var r := LastIndexOf(s[..|s| - 1], c);
      assert r >= 0 ==> s[r] == s[..|s| - 1][r];
      assert c in s ==> exists k :: 0 <= k < |s| - 1 && s[k] == c && s[..|s| - 1][k] == c;
      r
  }

  /**
   * The file name of a path: what follows the last separator (npos + 1 is
   * 0, so a path without one is returned whole).
   */
  function GetBaseName(path: string): (r: string)
    ensures Separator(path) !in r
    ensures |r| <= |path| && path == path[..|path| - |r|] + r
    ensures |r| < |path| ==> path[|path| - |r| - 1] == Separator(path)
    ensures Separator(path) !in path ==> r == path
    ensures |path| > 0 && path[|path| - 1] == Separator(path) ==> r == ""
  {
    var sep := Separator(path);
    var filename := path[LastIndexOf(path, sep) + 1..];
    assert path == path[..LastIndexOf(path, sep) + 1] + filename;
    if filename == "" && sep !in path then path else filename
  }

  // ---------------------------------------------------------------------
  // Posted constraints
  // ---------------------------------------------------------------------

  /** The main space fg, or its clone fg->_space_hook. */
  datatype Owner = Main | Hook

  /** A variable of one of the two spaces. */
  datatype Var = Var(owner: Owner, ref: VarRef)

  /** An extensional constraint on one space, or a bound on the main space's objective. */
  datatype Post =
    | Table(on: Owner, vars: seq<Var>, rows: seq<seq<int>>)
    | Bound(b: ObjBound)

  /** The variable counts of the spaces, the optimisation direction, and whether a hook exists. */
  datatype Config = Config(nbBool: nat, nbInt: nat, meth: Meth, hasHook: bool)

  /** The reader's variables between lines. */
  datatype Reader = Reader(typ: string, table: Option<seq<seq<int>>>,
                           boolVars: seq<nat>, intVars: seq<nat>, posts: seq<Post>)

  /** A `t` line before any `v` (a null table), or a variable index out of range. */
  datatype ReadError = NullTable(line: nat) | BadIndex(line: nat)

  /** std::string's default value: an empty type token, no table yet. */
  const Start := Reader("", None, [], [], [])

  function BoolVars(o: Owner, bs: seq<nat>): (r: seq<Var>)
    ensures |r| == |bs| && forall i :: 0 <= i < |bs| ==> r[i] == Var(o, BoolAt(bs[i]))
  {
    seq(|bs|, (i: int) requires 0 <= i < |bs| => Var(o, BoolAt(bs[i])))
  }

  function IntVars(o: Owner, ks: seq<nat>): (r: seq<Var>)
    ensures |r| == |ks| && forall i :: 0 <= i < |ks| ==> r[i] == Var(o, IntAt(ks[i]))
  {
    seq(|ks|, (i: int) requires 0 <= i < |ks| => Var(o, IntAt(ks[i])))
  }

  /**
   * The constraints a table gives: on its bool variables if any, else on
   * its int variables, else none; once on the main space, and once more on
   * the hook when there is one, naming `hookVars`'s variables.
   */
  function TablePosts(c: Config, rows: seq<seq<int>>, bs: seq<nat>, ks: seq<nat>, hookVars: Owner): seq<Post>
  {
    if bs != [] then
      [Table(Main, BoolVars(Main, bs), rows)] +
      (if c.hasHook then [Table(Hook, BoolVars(hookVars, bs), rows)] else [])
    else if ks != [] then
      [Table(Main, IntVars(Main, ks), rows)] +
      (if c.hasHook then [Table(Hook, IntVars(hookVars, ks), rows)] else [])
    else []
  }

  /** Posting the open table, if there is one. */
  function Close(r: Reader, c: Config, hookVars: Owner): seq<Post>
  {
    if r.table.None? then [] else TablePosts(c, r.table.value, r.boolVars, r.intVars, hookVars)
  }

  /**
   * The variables a `v` line names, split into bool indices and int
   * indices in the order given; None if one is out of range (a negative
   * index is below nb_bool and names no bool variable).
   */
  function DeclareVars(nums: seq<int>, nbBool: nat, nbInt: nat): Option<(seq<nat>, seq<nat>)>
  {
    if nums == [] then Some(([], []))
    else
      match DeclareVars(nums[..|nums| - 1], nbBool, nbInt)
      case None => None
      case Some((bs, ks)) =>
        var n := nums[|nums| - 1];
        if 0 <= n < nbBool then Some((bs + [n], ks))
        else if nbBool <= n < nbBool + nbInt then Some((bs, ks + [n - nbBool]))
        else None
  }

  /** Bound lines: the bound if a number follows, else nothing. */
  function BoundPost(b: Option<ObjBound>): seq<Post>
  {
    if b.Some? then [Bound(b.value)] else []
  }

  /**
   * One line.  `ss >> type` on a blank line fails and keeps the previous
   * token, and the failed stream then reads no numbers.  A table closed by
   * a `v` line is posted on the hook over `midHook`'s variables.
   */
  function Step(r: Reader, c: Config, line: string, lineNo: nat, midHook: Owner): Result<Reader, ReadError>
  {
    var word := ReadWord(line, 0);
    var typ := if word.Some? then word.value.0 else r.typ;
    var pos := if word.Some? then word.value.1 else |line|;
    if typ == "v" then
      match DeclareVars(ReadInts(line, pos), c.nbBool, c.nbInt)
      case None => Err(BadIndex(lineNo))
      case Some((bs, ks)) => Ok(Reader(typ, Some([]), bs, ks, r.posts + Close(r, c, midHook)))
    else if typ == "t" then
      if r.table.None? then Err(NullTable(lineNo))
      else Ok(r.(typ := typ, table := Some(r.table.value + [ReadInts(line, pos)])))
    else if typ == "ub" then
      var n := ReadInt(line, pos);
      Ok(r.(typ := typ, posts := r.posts + BoundPost(if n.Some? then UpperBound(c.meth, n.value.0) else None)))
    else if typ == "lb" then
      var n := ReadInt(line, pos);
      Ok(r.(typ := typ, posts := r.posts + BoundPost(if n.Some? then LowerBound(c.meth, n.value.0) else None)))
    else Ok(r.(typ := typ))
  }

  /** The lines from number `from` on, read from r. */
  function Fold(r: Reader, c: Config, lines: seq<string>, from: nat, midHook: Owner): Result<Reader, ReadError>
    decreases |lines|
  {
    if lines == [] then Ok(r)
    else
      match Step(r, c, lines[0], from, midHook)
      case Err(e) => Err(e)
      case Ok(r') => Fold(r', c, lines[1..], from + 1, midHook)
  }

  /** Every constraint a file posts, in order: the last table is posted at the end. */
  function Read(lines: seq<string>, c: Config, midHook: Owner): Result<seq<Post>, ReadError>
  {
    match Fold(Start, c, lines, 0, midHook)
    case Err(e) => Err(e)
    case Ok(r) => Ok(r.posts + Close(r, c, Hook))
  }

  /** readSubProblem as written: a table closed by a `v` line is posted on the hook over fg's variables. */
  function ReadAsWritten(lines: seq<string>, c: Config): Result<seq<Post>, ReadError>
  {
    Read(lines, c, Main)
  }

  /** readSubProblem with every hook table over the hook's own variables. */
  function ReadCorrected(lines: seq<string>, c: Config): Result<seq<Post>, ReadError>
  {
    Read(lines, c, Hook)
  }

  // ---------------------------------------------------------------------
  // The reading loop
  // ---------------------------------------------------------------------

  /**
   * readSubProblem over the lines getline delivers (see CompleteLines): the
   * type token, the open table and the declared variables are carried from
   * line to line, and every finished table is posted.
   */
  method ReadSubProblem(lines: seq<string>, c: Config) returns (res: Result<seq<Post>, ReadError>)
    ensures res == ReadCorrected(lines, c)
  {
    var r := Start;
    var i := 0;
    while i < |lines|
      invariant 0 <= i <= |lines|
      invariant Fold(r, c, lines[i..], i, Hook) == Fold(Start, c, lines, 0, Hook)
    {
      assert lines[i..][0] == lines[i] && lines[i..][1..] == lines[i + 1..];
      var next := ReadLine(r, c, lines[i], i);
      if next.Err? {
        return Err(next.error);
      }
      r := next.value;
      i := i + 1;
    }
    assert lines[i..] == [];
    var posts := r.posts;
    if r.table.Some? {
      posts := posts + TablePosts(c, r.table.value, r.boolVars, r.intVars, Hook);
    } else {
      assert posts + Close(r, c, Hook) == posts;
    }
    return Ok(posts);
  }

  /** The body of the getline loop for one line. */
  method ReadLine(r: Reader, c: Config, line: string, lineNo: nat) returns (res: Result<Reader, ReadError>)
    ensures res == Step(r, c, line, lineNo, Hook)
  {
    var typ, table, boolVars, intVars, posts := r.typ, r.table, r.boolVars, r.intVars, r.posts;
    var pos := |line|;
    var word := ReadWord(line, 0);
    if word.Some? {
      typ, pos := word.value.0, word.value.1;
    }
    if typ == "v" {
      if table.Some? {
        posts := posts + TablePosts(c, table.value, boolVars, intVars, Hook);
      } else {
        assert posts + Close(r, c, Hook) == posts;
      }
      table := Some([]);
      var ok;
      ok, boolVars, intVars := DeclareLine(ReadInts(line, pos), c.nbBool, c.nbInt);
      if !ok {
        return Err(BadIndex(lineNo));
      }
    } else if typ == "t" {
      if table.None? {
        return Err(NullTable(lineNo));
      }
      table := Some(table.value + [ReadInts(line, pos)]);
    } else if typ == "ub" {
      var n := ReadInt(line, pos);
      if n.Some? && c.meth != Sat {
        posts := posts + [Bound(UpperBound(c.meth, n.value.0).value)];
      } else {
        assert BoundPost(if n.Some? then UpperBound(c.meth, n.value.0) else None) == [];
        assert posts + [] == posts;
      }
    } else if typ == "lb" {
      var n := ReadInt(line, pos);
      if n.Some? && c.meth != Sat {
        posts := posts + [Bound(LowerBound(c.meth, n.value.0).value)];
      } else {
        assert BoundPost(if n.Some? then LowerBound(c.meth, n.value.0) else None) == [];
        assert posts + [] == posts;
      }
    }
    return Ok(Reader(typ, table, boolVars, intVars, posts));
  }

  /** `while (ss >> num)` on a `v` line: each index is appended to the bool or the int list. */
  method DeclareLine(nums: seq<int>, nbBool: nat, nbInt: nat) returns (ok: bool, bs: seq<nat>, ks: seq<nat>)
    ensures ok <==> DeclareVars(nums, nbBool, nbInt).Some?
    ensures ok ==> DeclareVars(nums, nbBool, nbInt) == Some((bs, ks))
  {
    bs, ks := [], [];
    var j := 0;
    while j < |nums|
      invariant 0 <= j <= |nums|
      invariant DeclareVars(nums[..j], nbBool, nbInt) == Some((bs, ks))
    {
      assert nums[..j + 1][..j] == nums[..j];
      var n := nums[j];
      if 0 <= n < nbBool {
        bs := bs + [n];
      } else if nbBool <= n < nbBool + nbInt {
        ks := ks + [n - nbBool];
      } else {
        assert DeclareVars(nums[..j + 1], nbBool, nbInt) == None;
        DeclareNoneSticks(nums, j + 1, nbBool, nbInt);
        assert nums[..|nums|] == nums;
        return false, bs, ks;
      }
      j := j + 1;
    }
    assert nums[..j] == nums;
    return true, bs, ks;
  }

  /** An out-of-range index stays an error however many numbers follow. */
  lemma {:induction false} DeclareNoneSticks(nums: seq<int>, j: nat, nbBool: nat, nbInt: nat)
    requires j <= |nums| && DeclareVars(nums[..j], nbBool, nbInt) == None
    ensures DeclareVars(nums[..|nums|], nbBool, nbInt) == None
    decreases |nums| - j
  {
    if j < |nums| {
      assert nums[..j + 1][..j] == nums[..j];
      DeclareNoneSticks(nums, j + 1, nbBool, nbInt);
    }
  }

  // ---------------------------------------------------------------------
  // Properties of the reader
  // ---------------------------------------------------------------------

  /** Fold over two runs of lines is the second run read from where the first left off. */
  lemma {:induction false} FoldAppend(r: Reader, c: Config, a: seq<string>, b: seq<string>, from: nat, midHook: Owner,
                                      ra: Reader, mid: nat)
    requires Fold(r, c, a, from, midHook) == Ok(ra) && mid == from + |a|
    ensures Fold(r, c, a + b, from, midHook) == Fold(ra, c, b, mid, midHook)
    decreases |a|
  {
    if a == [] {
      assert a + b == b;
    } else {
      assert (a + b)[0] == a[0] && (a + b)[1..] == a[1..] + b;
      var r1 := Step(r, c, a[0], from, midHook).value;
      FoldAppend(r1, c, a[1..], b, from + 1, midHook, ra, mid);
    }
  }

  /** An error in the first run of lines is the error of both runs. */
  lemma {:induction false} FoldAppendErr(r: Reader, c: Config, a: seq<string>, b: seq<string>, from: nat, midHook: Owner)
    requires Fold(r, c, a, from, midHook).Err?
    ensures Fold(r, c, a + b, from, midHook) == Fold(r, c, a, from, midHook)
    decreases |a|
  {
    assert a != [];
    assert (a + b)[0] == a[0] && (a + b)[1..] == a[1..] + b;
    var st := Step(r, c, a[0], from, midHook);
    if st.Ok? {
      FoldAppendErr(st.value, c, a[1..], b, from + 1, midHook);
    }
  }

  /** A `t` line before any `v` line reads a null table. */
  lemma TupleBeforeVar(lines: seq<string>, c: Config, midHook: Owner, k: nat)
    requires lines != [] && ReadWord(lines[0], 0) == Some(("t", k))
    ensures Read(lines, c, midHook) == Err(NullTable(0))
  {
  }

  /** Every post on the hook names only variables of the given owner. */
  ghost predicate HookOwn(posts: seq<Post>, o: Owner)
  {
    forall i, j ::
      (0 <= i < |posts| && posts[i].Table? && posts[i].on == Hook && 0 <= j < |posts[i].vars|) ==>
        posts[i].vars[j].owner == o
  }

  lemma HookOwnAppend(a: seq<Post>, b: seq<Post>, o: Owner)
    requires HookOwn(a, o) && HookOwn(b, o)
    ensures HookOwn(a + b, o)
  {
    forall i, j | 0 <= i < |a + b| && (a + b)[i].Table? && (a + b)[i].on == Hook &&
                  0 <= j < |(a + b)[i].vars|
      ensures (a + b)[i].vars[j].owner == o
    {
      if i >= |a| {
        assert (a + b)[i] == b[i - |a|];
      }
    }
  }

  lemma {:induction false} FoldHookOwn(r: Reader, c: Config, lines: seq<string>, from: nat)
    requires HookOwn(r.posts, Hook)
    ensures Fold(r, c, lines, from, Hook).Ok? ==> HookOwn(Fold(r, c, lines, from, Hook).value.posts, Hook)
    decreases |lines|
  {
    if lines != [] {
      var st := Step(r, c, lines[0], from, Hook);
      if st.Ok? {
        HookOwnAppend(r.posts, Close(r, c, Hook), Hook);
        HookOwnAppend(r.posts, BoundPost(UpperBound(c.meth, 0)), Hook);
        forall b: Option<ObjBound> ensures HookOwn(r.posts + BoundPost(b), Hook) {
          HookOwnAppend(r.posts, BoundPost(b), Hook);
        }
        FoldHookOwn(st.value, c, lines[1..], from + 1);
      }
    }
  }

  /**
   * The corrected reader posts on the hook only over the hook's own
   * variables, whatever the file holds.
   */
  lemma CorrectedHookOwnVars(lines: seq<string>, c: Config)
    ensures ReadCorrected(lines, c).Ok? ==> HookOwn(ReadCorrected(lines, c).value, Hook)
  {
    FoldHookOwn(Start, c, lines, 0);
    var f := Fold(Start, c, lines, 0, Hook);
    if f.Ok? {
      HookOwnAppend(f.value.posts, Close(f.value, c, Hook), Hook);
    }
  }

  // ---------------------------------------------------------------------
  // The writer
  // ---------------------------------------------------------------------

  /** `os << x << " "` for each x. */
  function Numbers(xs: seq<int>): string
  {
    if xs == [] then "" else IntToString(xs[0]) + " " + Numbers(xs[1..])
  }

  /** from, from + 1, ..., from + n - 1. */
  function Indices(from: nat, n: nat): (r: seq<int>)
    ensures |r| == n && forall i :: 0 <= i < n ==> r[i] == from + i
  {
    seq(n, (i: int) => from + i)
  }

  /** 0, 1, ..., n - 1 as variable numbers. */
  function Upto(n: nat): (r: seq<nat>)
    ensures |r| == n && forall i :: 0 <= i < n ==> r[i] == i
  {
    seq(n, (i: int) requires 0 <= i < n => i)
  }

  /**
   * One table of a group: `v` with the flat indices of its n columns (from
   * `from` on), then a `t` line per tuple in [lo, hi); nothing when the
   * table has no tuples.
   */
  function TableLines(rows: seq<seq<int>>, lo: nat, hi: nat, from: nat): seq<string>
    requires rows != [] ==> lo <= hi <= |rows|
  {
    if rows == [] then []
    else ["v " + Numbers(Indices(from, |rows[0]|))] + RowLines(rows[lo..hi])
  }

  function RowLines(rows: seq<seq<int>>): (r: seq<string>)
    ensures |r| == |rows| && forall i :: 0 <= i < |rows| ==> r[i] == "t " + Numbers(rows[i])
  {
    seq(|rows|, (i: int) requires 0 <= i < |rows| => "t " + Numbers(rows[i]))
  }

  /**
   * The file of one group: the bool table over columns 0.., then the int
   * table over columns nb_bool.., tuples [lo, hi) of each.
   */
  function GroupLines(boolRows: seq<seq<int>>, intRows: seq<seq<int>>, lo: nat, hi: nat, nbBool: nat): seq<string>
    requires boolRows != [] ==> lo <= hi <= |boolRows|
    requires intRows != [] ==> lo <= hi <= |intRows|
  {
    TableLines(boolRows, lo, hi, 0) + TableLines(intRows, lo, hi, nbBool)
  }

  /** The text the writer produces. */
  function GroupText(boolRows: seq<seq<int>>, intRows: seq<seq<int>>, lo: nat, hi: nat, nbBool: nat): string
    requires boolRows != [] ==> lo <= hi <= |boolRows|
    requires intRows != [] ==> lo <= hi <= |intRows|
  {
    Join(GroupLines(boolRows, intRows, lo, hi, nbBool))
  }

  // ---------------------------------------------------------------------
  // Round trip
  // ---------------------------------------------------------------------

  lemma {:induction false} NumbersNoNewline(xs: seq<int>)
    ensures '\n' !in Numbers(xs)
    decreases |xs|
  {
    if xs != [] {
      NumbersNoNewline(xs[1..]);
      var w := IntToString(xs[0]);
      assert '\n' !in w by {
        forall k | 0 <= k < |w| ensures w[k] != '\n' {
          if k > 0 || xs[0] >= 0 {
            assert IsDigit(w[k]);
          }
        }
      }
    }
  }

  lemma ReadIntSkip(s: string, p: nat)
    requires p < |s| && IsSpace(s[p])
    ensures ReadInt(s, p) == ReadInt(s, p + 1)
  {
  }

  lemma SliceParts(s: string, pos: nat, w: string, rest: string)
    requires pos <= |s| && s[pos..] == w + " " + rest
    ensures pos + |w| < |s| && s[pos..pos + |w|] == w && s[pos + |w|] == ' ' && s[pos + |w| + 1..] == rest
  {
    assert s[pos..][..|w|] == w;
    assert s[pos..][|w|] == ' ';
    assert s[pos..][|w| + 1..] == rest;
  }

  /** A written number starts with a minus sign or a digit, never white space. */
  lemma NotSpaceFirst(n: int)
    ensures !IsSpace(IntToString(n)[0])
  {
    if n >= 0 {
      assert IsDigit(IntToString(n)[0]);
    }
  }

  lemma ReadIntsCons(s: string, pos: nat, v: int, next: nat)
    requires pos <= |s| && ReadInt(s, pos) == Some((v, next))
    ensures ReadInts(s, pos) == [v] + ReadInts(s, next)
  {
  }

  lemma ReadIntsSkip(s: string, p: nat)
    requires p < |s| && IsSpace(s[p])
    ensures ReadInts(s, p) == ReadInts(s, p + 1)
  {
    ReadIntSkip(s, p);
  }

  /** A number, one space, then the numbers xs. */
  lemma ReadIntsStep(s: string, pos: nat, v: int, p1: nat, xs: seq<int>)
    requires pos <= |s| && ReadInt(s, pos) == Some((v, p1))
    requires p1 < |s| && IsSpace(s[p1]) && ReadInts(s, p1 + 1) == xs
    ensures ReadInts(s, pos) == [v] + xs
  {
    ReadIntsCons(s, pos, v, p1);
    ReadIntsSkip(s, p1);
  }

  lemma ReadIntsEnd(s: string)
    ensures ReadInts(s, |s|) == []
  {
  }

  /** s holds, from pos to its end, the numbers xs each followed by one space. */
  predicate NumbersAt(s: string, pos: nat, xs: seq<int>)
    requires pos <= |s|
    decreases |xs|
  {
    if xs == [] then pos == |s|
    else
      var w := IntToString(xs[0]);
      pos + |w| < |s| && s[pos..pos + |w|] == w && s[pos + |w|] == ' ' && NumbersAt(s, pos + |w| + 1, xs[1..])
  }

  lemma {:induction false} NumbersAtSuffix(s: string, pos: nat, xs: seq<int>)
    requires pos <= |s| && s[pos..] == Numbers(xs)
    ensures NumbersAt(s, pos, xs)
    decreases |xs|
  {
    if xs == [] {
      NumbersAtEnd(s, pos);
    } else {
      var p1 := pos + |IntToString(xs[0])|;
      NumbersSplit(s, pos, xs, p1);
      NumbersAtSuffix(s, p1 + 1, xs[1..]);
      NumbersAtCons(s, pos, xs, p1);
    }
  }

  lemma NumbersAtEnd(s: string, pos: nat)
    requires pos <= |s| && s[pos..] == Numbers([])
    ensures NumbersAt(s, pos, [])
  {
    assert |s[pos..]| == 0;
  }

  lemma NumbersSplit(s: string, pos: nat, xs: seq<int>, p1: nat)
    requires xs != [] && pos <= |s| && s[pos..] == Numbers(xs) && p1 == pos + |IntToString(xs[0])|
    ensures p1 < |s| && s[pos..p1] == IntToString(xs[0]) && s[p1] == ' ' && s[p1 + 1..] == Numbers(xs[1..])
  {
    var w := IntToString(xs[0]);
    assert Numbers(xs) == w + " " + Numbers(xs[1..]);
    SliceParts(s, pos, w, Numbers(xs[1..]));
  }

  lemma NumbersAtCons(s: string, pos: nat, xs: seq<int>, p1: nat)
    requires xs != [] && pos <= |s| && p1 == pos + |IntToString(xs[0])|
    requires p1 < |s| && s[pos..p1] == IntToString(xs[0]) && s[p1] == ' ' && NumbersAt(s, p1 + 1, xs[1..])
    ensures NumbersAt(s, pos, xs)
  {
  }

  lemma NumbersHead(s: string, pos: nat, x: int, ys: seq<int>, p1: nat)
    requires pos <= |s| && NumbersAt(s, pos, [x] + ys) && p1 == pos + |IntToString(x)|
    ensures p1 < |s| && s[p1] == ' ' && s[pos..p1] == IntToString(x)
  {
    assert ([x] + ys)[0] == x;
  }

  lemma ReadNumberAt(s: string, pos: nat, x: int, p1: nat)
    requires p1 == pos + |IntToString(x)| && p1 < |s| && s[p1] == ' ' && s[pos..p1] == IntToString(x)
    ensures ReadInt(s, pos) == Some((x, p1))
  {
    NotSpaceFirst(x);
    assert s[pos] == s[pos..p1][0];
    assert SkipSpaces(s, pos) == pos;
    ReadIntToString(x, s, pos);
  }

  lemma ReadNumbersStep(s: string, pos: nat, x: int, ys: seq<int>, p1: nat)
    requires pos <= |s| && NumbersAt(s, pos, [x] + ys) && p1 == pos + |IntToString(x)|
    requires p1 + 1 <= |s| && ReadInts(s, p1 + 1) == ys
    ensures ReadInts(s, pos) == [x] + ys
  {
    NumbersHead(s, pos, x, ys, p1);
    ReadNumberAt(s, pos, x, p1);
    ReadIntsStep(s, pos, x, p1, ys);
  }

  lemma {:induction false} ReadNumbersAt(s: string, pos: nat, xs: seq<int>)
    requires pos <= |s| && NumbersAt(s, pos, xs)
    ensures ReadInts(s, pos) == xs
    decreases |xs|
  {
    if xs == [] {
      ReadIntsEnd(s);
    } else {
      var x, ys := xs[0], xs[1..];
      var p1 := pos + |IntToString(x)|;
      assert xs == [x] + ys;
      ReadNumbersAt(s, p1 + 1, ys);
      ReadNumbersStep(s, pos, x, ys, p1);
    }
  }

  /** Reading the numbers back: all of them, in order. */
  lemma ReadNumbers(s: string, pos: nat, xs: seq<int>)
    requires pos <= |s| && s[pos..] == Numbers(xs)
    ensures ReadInts(s, pos) == xs
  {
    NumbersAtSuffix(s, pos, xs);
    ReadNumbersAt(s, pos, xs);
  }

  /** A line `<word> ` + Numbers(xs) reads as that word and those numbers. */
  lemma ReadTagged(tag: string, xs: seq<int>)
    requires |tag| == 1 && !IsSpace(tag[0])
    ensures ReadWord(tag + " " + Numbers(xs), 0) == Some((tag, 1))
    ensures ReadInts(tag + " " + Numbers(xs), 1) == xs
  {
    var line := tag + " " + Numbers(xs);
    assert line[0] == tag[0] && line[1] == ' ';
    assert WordEnd(line, 1) == 1;
    assert WordEnd(line, 0) == 1;
    assert line[0..1] == tag;
    ReadIntSkip(line, 1);
    assert line[2..] == Numbers(xs);
    ReadNumbers(line, 2, xs);
    assert ReadInts(line, 1) == ReadInts(line, 2);
  }

  /** The indices 0.. of a bool table, or nb_bool.. of an int table, declare those variables. */
  lemma {:induction false} DeclareIndices(from: nat, n: nat, nbBool: nat, nbInt: nat)
    requires (from == 0 && n <= nbBool) || (from == nbBool && n <= nbInt)
    ensures from == 0 && n <= nbBool ==> DeclareVars(Indices(from, n), nbBool, nbInt) == Some((Upto(n), []))
    ensures from == nbBool && n <= nbInt && !(from == 0 && n <= nbBool) ==>
              DeclareVars(Indices(from, n), nbBool, nbInt) == Some(([], Upto(n)))
    decreases n
  {
    if n > 0 {
      assert Indices(from, n)[..n - 1] == Indices(from, n - 1);
      assert Upto(n) == Upto(n - 1) + [n - 1];
      DeclareIndices(from, n - 1, nbBool, nbInt);
    }
  }

  /** A `t` line adds its numbers to the open table as one row. */
  lemma StepRow(r: Reader, c: Config, xs: seq<int>, lineNo: nat, midHook: Owner)
    requires r.table.Some?
    ensures Step(r, c, "t " + Numbers(xs), lineNo, midHook) ==
            Ok(r.(typ := "t", table := Some(r.table.value + [xs])))
  {
    var line := "t " + Numbers(xs);
    assert ReadWord(line, 0) == Some(("t", 1)) && ReadInts(line, 1) == xs by {
      assert line == "t" + " " + Numbers(xs);
      ReadTagged("t", xs);
    }
    StepTagged(r, c, line, lineNo, midHook, "t", xs);
  }

  /** A `v` line with valid indices posts the open table and opens an empty one. */
  lemma StepHeader(r: Reader, c: Config, xs: seq<int>, lineNo: nat, midHook: Owner)
    requires DeclareVars(xs, c.nbBool, c.nbInt).Some?
    ensures var vars := DeclareVars(xs, c.nbBool, c.nbInt).value;
            Step(r, c, "v " + Numbers(xs), lineNo, midHook) ==
            Ok(Reader("v", Some([]), vars.0, vars.1, r.posts + Close(r, c, midHook)))
  {
    var line := "v " + Numbers(xs);
    assert ReadWord(line, 0) == Some(("v", 1)) && ReadInts(line, 1) == xs by {
      assert line == "v" + " " + Numbers(xs);
      ReadTagged("v", xs);
    }
    StepTagged(r, c, line, lineNo, midHook, "v", xs);
  }

  /** Step on any line that starts with a one-letter tag followed by its numbers. */
  lemma StepTagged(r: Reader, c: Config, line: string, lineNo: nat, midHook: Owner, tag: string, xs: seq<int>)
    requires 1 <= |line| && ReadWord(line, 0) == Some((tag, 1)) && ReadInts(line, 1) == xs
    ensures tag == "v" ==>
              (Step(r, c, line, lineNo, midHook) ==
               match DeclareVars(xs, c.nbBool, c.nbInt)
               case None => Err(BadIndex(lineNo))
               case Some((bs, ks)) => Ok(Reader("v", Some([]), bs, ks, r.posts + Close(r, c, midHook))))
    ensures tag == "t" && r.table.Some? ==>
              Step(r, c, line, lineNo, midHook) == Ok(r.(typ := "t", table := Some(r.table.value + [xs])))
  {
    assert "t"[0] != "v"[0];
  }

  /** The `t` lines of a table add its rows to the open table. */
  lemma {:induction false} FoldRows(r: Reader, c: Config, rows: seq<seq<int>>, from: nat, midHook: Owner)
    requires r.table.Some?
    ensures Fold(r, c, RowLines(rows), from, midHook).Ok?
    ensures var r' := Fold(r, c, RowLines(rows), from, midHook).value;
            r'.table == Some(r.table.value + rows) && r'.boolVars == r.boolVars &&
            r'.intVars == r.intVars && r'.posts == r.posts
    decreases |rows|
  {
    if rows == [] {
      assert r.table.value + rows == r.table.value;
    } else {
      StepRow(r, c, rows[0], from, midHook);
      var r1 := r.(typ := "t", table := Some(r.table.value + [rows[0]]));
      assert RowLines(rows)[1..] == RowLines(rows[1..]);
      FoldRows(r1, c, rows[1..], from + 1, midHook);
      assert r.table.value + [rows[0]] + rows[1..] == r.table.value + rows;
    }
  }

  /** One table of the writer, read from r: the previous table is posted and this one is open. */
  lemma FoldTable(r: Reader, c: Config, rows: seq<seq<int>>, lo: nat, hi: nat, from: nat, k: nat, midHook: Owner)
    requires rows != [] && lo <= hi <= |rows|
    requires (from == 0 && |rows[0]| <= c.nbBool) || (from == c.nbBool && |rows[0]| <= c.nbInt)
    ensures Fold(r, c, TableLines(rows, lo, hi, from), k, midHook).Ok?
    ensures var r' := Fold(r, c, TableLines(rows, lo, hi, from), k, midHook).value;
            r'.table == Some(rows[lo..hi]) &&
            Some((r'.boolVars, r'.intVars)) == DeclareVars(Indices(from, |rows[0]|), c.nbBool, c.nbInt) &&
            r'.posts == r.posts + Close(r, c, midHook)
  {
    var n := |rows[0]|;
    var header := "v " + Numbers(Indices(from, n));
    DeclareIndices(from, n, c.nbBool, c.nbInt);
    StepHeader(r, c, Indices(from, n), k, midHook);
    var vars := DeclareVars(Indices(from, n), c.nbBool, c.nbInt).value;
    var r1 := Reader("v", Some([]), vars.0, vars.1, r.posts + Close(r, c, midHook));
    var lines := TableLines(rows, lo, hi, from);
    assert lines == [header] + RowLines(rows[lo..hi]);
    assert lines[0] == header && lines[1..] == RowLines(rows[lo..hi]);
    FoldRows(r1, c, rows[lo..hi], k + 1, midHook);
    assert [] + rows[lo..hi] == rows[lo..hi];
  }

  /**
   * What reading a group's file gives: the bool table over bool variables
   * 0.., then the int table over int variables 0.. (file indices nb_bool..),
   * each with the group's tuples in order, each posted on the main space and
   * on the hook.  The bool table's hook copy is posted when the int table's
   * `v` line arrives, so it names `midHook`'s variables when an int table follows.
   */
  function GroupPosts(c: Config, boolRows: seq<seq<int>>, intRows: seq<seq<int>>, lo: nat, hi: nat, midHook: Owner): seq<Post>
    requires boolRows != [] ==> lo <= hi <= |boolRows|
    requires intRows != [] ==> lo <= hi <= |intRows|
  {
    (if boolRows == [] then []
     else TablePosts(c, boolRows[lo..hi], Upto(|boolRows[0]|), [], if intRows == [] then Hook else midHook)) +
    (if intRows == [] then []
     else TablePosts(c, intRows[lo..hi], [], Upto(|intRows[0]|), Hook))
  }

  /** After the bool table's lines: nothing posted yet, the bool table open. */
  lemma BoolStage(c: Config, boolRows: seq<seq<int>>, lo: nat, hi: nat, midHook: Owner)
    requires boolRows != [] ==> lo <= hi <= |boolRows| && |boolRows[0]| <= c.nbBool
    ensures var f := Fold(Start, c, TableLines(boolRows, lo, hi, 0), 0, midHook);
            f.Ok? && f.value.posts == [] &&
            (boolRows == [] ==> f.value == Start) &&
            (boolRows != [] ==> f.value.table == Some(boolRows[lo..hi]) &&
                                f.value.boolVars == Upto(|boolRows[0]|) && f.value.intVars == [])
  {
    if boolRows != [] {
      FoldTable(Start, c, boolRows, lo, hi, 0, 0, midHook);
      DeclareIndices(0, |boolRows[0]|, c.nbBool, c.nbInt);
    }
  }

  /** After the int table's lines, from b: b's table posted, the int table open. */
  lemma IntStage(c: Config, b: Reader, intRows: seq<seq<int>>, lo: nat, hi: nat, k: nat, midHook: Owner)
    requires intRows != [] && lo <= hi <= |intRows| && |intRows[0]| <= c.nbInt
    ensures var f := Fold(b, c, TableLines(intRows, lo, hi, c.nbBool), k, midHook);
            f.Ok? && f.value.posts == b.posts + Close(b, c, midHook) &&
            f.value.table == Some(intRows[lo..hi]) &&
            f.value.boolVars == [] && f.value.intVars == Upto(|intRows[0]|)
  {
    FoldTable(b, c, intRows, lo, hi, c.nbBool, k, midHook);
    DeclareIndices(c.nbBool, |intRows[0]|, c.nbBool, c.nbInt);
  }

  /** Reading the lines of a group, with either treatment of mid-file hook tables. */
  lemma ReadGroupLines(c: Config, boolRows: seq<seq<int>>, intRows: seq<seq<int>>, lo: nat, hi: nat, midHook: Owner)
    requires boolRows != [] ==> lo <= hi <= |boolRows| && |boolRows[0]| <= c.nbBool
    requires intRows != [] ==> lo <= hi <= |intRows| && |intRows[0]| <= c.nbInt
    ensures Read(GroupLines(boolRows, intRows, lo, hi, c.nbBool), c, midHook) ==
            Ok(GroupPosts(c, boolRows, intRows, lo, hi, midHook))
  {
    var bl := TableLines(boolRows, lo, hi, 0);
    var il := TableLines(intRows, lo, hi, c.nbBool);
    BoolStage(c, boolRows, lo, hi, midHook);
    var b := Fold(Start, c, bl, 0, midHook).value;
    if intRows != [] {
      ReadWithInts(c, b, boolRows, intRows, lo, hi, |bl|, midHook);
    } else {
      ReadWithoutInts(c, b, boolRows, intRows, lo, hi, |bl|, midHook);
    }
    ReadAppend(c, bl, il, midHook, b, Fold(b, c, il, |bl|, midHook).value);
  }

  /** Reading two runs of lines: the second run is read from where the first left off. */
  lemma ReadAppend(c: Config, a: seq<string>, b: seq<string>, midHook: Owner, ra: Reader, rb: Reader)
    requires Fold(Start, c, a, 0, midHook) == Ok(ra) && Fold(ra, c, b, |a|, midHook) == Ok(rb)
    ensures Read(a + b, c, midHook) == Ok(rb.posts + Close(rb, c, Hook))
  {
    FoldAppend(Start, c, a, b, 0, midHook, ra, |a|);
    ReadOfFold(a + b, c, midHook, rb);
  }

  /** What Read returns once the lines are folded: the last table is posted at the end. */
  lemma ReadOfFold(lines: seq<string>, c: Config, midHook: Owner, r: Reader)
    requires Fold(Start, c, lines, 0, midHook) == Ok(r)
    ensures Read(lines, c, midHook) == Ok(r.posts + Close(r, c, Hook))
  {
  }

  lemma ReadWithInts(c: Config, b: Reader, boolRows: seq<seq<int>>, intRows: seq<seq<int>>, lo: nat, hi: nat, k: nat, midHook: Owner)
    requires boolRows != [] ==> lo <= hi <= |boolRows| && |boolRows[0]| <= c.nbBool
    requires intRows != [] && lo <= hi <= |intRows| && |intRows[0]| <= c.nbInt
    requires b.posts == [] && (boolRows == [] ==> b == Start)
    requires boolRows != [] ==> b.table == Some(boolRows[lo..hi]) && b.boolVars == Upto(|boolRows[0]|) && b.intVars == []
    ensures var f := Fold(b, c, TableLines(intRows, lo, hi, c.nbBool), k, midHook);
            f.Ok? && f.value.posts + Close(f.value, c, Hook) == GroupPosts(c, boolRows, intRows, lo, hi, midHook)
  {
    IntStage(c, b, intRows, lo, hi, k, midHook);
    var f := Fold(b, c, TableLines(intRows, lo, hi, c.nbBool), k, midHook).value;
    var boolPart := if boolRows == [] then [] else TablePosts(c, boolRows[lo..hi], Upto(|boolRows[0]|), [], midHook);
    assert Close(b, c, midHook) == boolPart;
    assert f.posts == boolPart;
    assert Close(f, c, Hook) == TablePosts(c, intRows[lo..hi], [], Upto(|intRows[0]|), Hook);
  }

  lemma ReadWithoutInts(c: Config, b: Reader, boolRows: seq<seq<int>>, intRows: seq<seq<int>>, lo: nat, hi: nat, k: nat, midHook: Owner)
    requires boolRows != [] ==> lo <= hi <= |boolRows| && |boolRows[0]| <= c.nbBool
    requires intRows == []
    requires b.posts == [] && (boolRows == [] ==> b == Start)
    requires boolRows != [] ==> b.table == Some(boolRows[lo..hi]) && b.boolVars == Upto(|boolRows[0]|) && b.intVars == []
    ensures var f := Fold(b, c, TableLines(intRows, lo, hi, c.nbBool), k, midHook);
            f.Ok? && f.value.posts + Close(f.value, c, Hook) == GroupPosts(c, boolRows, intRows, lo, hi, midHook)
  {
    var boolPosts := Close(b, c, Hook);
    assert boolPosts + [] == boolPosts;
  }

  /**
   * The round trip: getline over the writer's text of a group yields the
   * writer's lines, and the corrected reader posts the group's tables.
   */
  lemma RoundTrip(c: Config, boolRows: seq<seq<int>>, intRows: seq<seq<int>>, lo: nat, hi: nat)
    requires boolRows != [] ==> lo <= hi <= |boolRows| && |boolRows[0]| <= c.nbBool
    requires intRows != [] ==> lo <= hi <= |intRows| && |intRows[0]| <= c.nbInt
    ensures ReadCorrected(CompleteLines(GroupText(boolRows, intRows, lo, hi, c.nbBool)), c) ==
            Ok(GroupPosts(c, boolRows, intRows, lo, hi, Hook))
  {
    var lines := GroupLines(boolRows, intRows, lo, hi, c.nbBool);
    TableLinesNoNewline(boolRows, lo, hi, 0);
    TableLinesNoNewline(intRows, lo, hi, c.nbBool);
    NoNewlineAppend(TableLines(boolRows, lo, hi, 0), TableLines(intRows, lo, hi, c.nbBool));
    CompleteLinesJoin(lines, "");
    assert Join(lines) + "" == Join(lines);
    ReadGroupLines(c, boolRows, intRows, lo, hi, Hook);
  }

  /** The writer's lines of one table hold no newline. */
  lemma TableLinesNoNewline(rows: seq<seq<int>>, lo: nat, hi: nat, from: nat)
    requires rows != [] ==> lo <= hi <= |rows|
    ensures forall i :: 0 <= i < |TableLines(rows, lo, hi, from)| ==> '\n' !in TableLines(rows, lo, hi, from)[i]
  {
    if rows != [] {
      var ls := TableLines(rows, lo, hi, from);
      forall i | 0 <= i < |ls| ensures '\n' !in ls[i] {
        if i == 0 {
          NumbersNoNewline(Indices(from, |rows[0]|));
        } else {
          NumbersNoNewline(rows[lo..hi][i - 1]);
        }
      }
    }
  }

  lemma NoNewlineAppend(a: seq<string>, b: seq<string>)
    requires forall i :: 0 <= i < |a| ==> '\n' !in a[i]
    requires forall i :: 0 <= i < |b| ==> '\n' !in b[i]
    ensures forall i :: 0 <= i < |a + b| ==> '\n' !in (a + b)[i]
  {
    forall i | 0 <= i < |a + b| ensures '\n' !in (a + b)[i] {
      if i >= |a| {
        assert (a + b)[i] == b[i - |a|];
      }
    }
  }

  /**
   * As written, on a hook space, the bool table of a group that also has
   * an int table is posted on the hook over the main space's variables.
   */
  lemma AsWrittenHookUsesMainVars(c: Config, boolRows: seq<seq<int>>, intRows: seq<seq<int>>, lo: nat, hi: nat)
    requires c.hasHook && boolRows != [] && intRows != [] && |boolRows[0]| >= 1
    requires lo <= hi <= |boolRows| && |boolRows[0]| <= c.nbBool
    requires lo <= hi <= |intRows| && |intRows[0]| <= c.nbInt
    ensures SecondOnHookOverMain(ReadAsWritten(GroupLines(boolRows, intRows, lo, hi, c.nbBool), c))
  {
    var lines := GroupLines(boolRows, intRows, lo, hi, c.nbBool);
    ReadGroupLines(c, boolRows, intRows, lo, hi, Main);
    MidHookPost(c, boolRows, intRows, lo, hi);
    var all := GroupPosts(c, boolRows, intRows, lo, hi, Main);
    assert ReadAsWritten(lines, c) == Ok(all);
  }

  /**
   * With both readers, the table still open at the end is posted last, on
   * the hook, over the hook's own copies of the declared variables.
   */
  lemma FinalHookPost(lines: seq<string>, c: Config, midHook: Owner)
    requires c.hasHook
    ensures var f := Fold(Start, c, lines, 0, midHook);
            f.Ok? && f.value.table.Some? && (f.value.boolVars != [] || f.value.intVars != []) ==>
              var posts := Read(lines, c, midHook).value;
              |posts| >= 2 &&
              posts[|posts| - 1] ==
                Table(Hook, if f.value.boolVars != [] then BoolVars(Hook, f.value.boolVars)
                            else IntVars(Hook, f.value.intVars), f.value.table.value)
  {
    var f := Fold(Start, c, lines, 0, midHook);
    if f.Ok? && f.value.table.Some? && (f.value.boolVars != [] || f.value.intVars != []) {
      var r := f.value;
      var last := Close(r, c, Hook);
      assert |last| == 2;
      assert Read(lines, c, midHook).value == r.posts + last;
    }
  }

  /** The second constraint read is posted on the hook and its first variable is fg's bool variable 0. */
  predicate SecondOnHookOverMain(r: Result<seq<Post>, ReadError>)
  {
    r.Ok? && |r.value| >= 2 && r.value[1].Table? && r.value[1].on == Hook &&
    |r.value[1].vars| >= 1 && r.value[1].vars[0] == Var(Main, BoolAt(0))
  }

  /** The second post of a group with both tables is the bool table's hook copy, over midHook's variables. */
  lemma MidHookPost(c: Config, boolRows: seq<seq<int>>, intRows: seq<seq<int>>, lo: nat, hi: nat)
    requires c.hasHook && boolRows != [] && intRows != [] && |boolRows[0]| >= 1
    requires lo <= hi <= |boolRows| && lo <= hi <= |intRows|
    ensures SecondOnHookOverMain(Ok(GroupPosts(c, boolRows, intRows, lo, hi, Main)))
  {
    var n := |boolRows[0]|;
    var boolPosts := TablePosts(c, boolRows[lo..hi], Upto(n), [], Main);
    assert boolPosts == [Table(Main, BoolVars(Main, Upto(n)), boolRows[lo..hi]),
                         Table(Hook, BoolVars(Main, Upto(n)), boolRows[lo..hi])];
    var all := GroupPosts(c, boolRows, intRows, lo, hi, Main);
    assert all == boolPosts + TablePosts(c, intRows[lo..hi], [], Upto(|intRows[0]|), Hook);
    assert all[1] == boolPosts[1];
    assert BoolVars(Main, Upto(n))[0] == Var(Main, BoolAt(0));
  }
}
