/**
 * Decimal text as the C++ streams and the C library read and write it:
 * `os << n` for an int, `ss >> num` and `ss >> token` on a string stream,
 * `atoi`, and `getline` splitting.
 */
module Text {
  import opened Wrappers

  predicate IsSpace(c: char)
  {
    c == ' ' || c == '\t' || c == '\n' || c == '\r' || c as int == 11 || c as int == 12
  }

  predicate IsDigit(c: char)
  {
    '0' <= c <= '9'
  }

  function DigitChar(d: nat): (c: char)
    requires d < 10
    ensures IsDigit(c) && c as int - '0' as int == d
  {
    ('0' as int + d) as char
  }

  function DigitVal(c: char): nat
    requires IsDigit(c)
  {
    c as int - '0' as int
  }

  // ---------------------------------------------------------------------
  // Writing
  // ---------------------------------------------------------------------

  /** The decimal digits of n, most significant first, no leading zero. */
  function NatToString(n: nat): (s: string)
    ensures |s| >= 1 && forall k :: 0 <= k < |s| ==> IsDigit(s[k])
    decreases n
  {
    if n < 10 then [DigitChar(n)] else NatToString(n / 10) + [DigitChar(n % 10)]
  }

  /** `os << n`: a minus sign before the digits of a negative number. */
  function IntToString(n: int): (s: string)
    ensures |s| >= 1 && (s[0] == '-' <==> n < 0)
    ensures forall k :: (if n < 0 then 1 else 0) <= k < |s| ==> IsDigit(s[k])
  {
    if n < 0 then "-" + NatToString(-n) else NatToString(n)
  }

  // ---------------------------------------------------------------------
  // Reading
  // ---------------------------------------------------------------------

  /** The value of a run of digits. */
  function Value(ds: string): nat
    requires forall k :: 0 <= k < |ds| ==> IsDigit(ds[k])
  {
    if ds == [] then 0 else Value(ds[..|ds| - 1]) * 10 + DigitVal(ds[|ds| - 1])
  }

  /** The first position at or after pos that is not white space. */
  function SkipSpaces(s: string, pos: nat): (r: nat)
    requires pos <= |s|
    ensures pos <= r <= |s| && (r < |s| ==> !IsSpace(s[r]))
    ensures forall k :: pos <= k < r ==> IsSpace(s[k])
    decreases |s| - pos
  {
    if pos < |s| && IsSpace(s[pos]) then SkipSpaces(s, pos + 1) else pos
  }

  /** The end of the run of digits starting at pos. */
  function DigitEnd(s: string, pos: nat): (r: nat)
    requires pos <= |s|
    ensures pos <= r <= |s| && (r < |s| ==> !IsDigit(s[r]))
    ensures forall k :: pos <= k < r ==> IsDigit(s[k])
    decreases |s| - pos
  {
    if pos < |s| && IsDigit(s[pos]) then DigitEnd(s, pos + 1) else pos
  }

  /** The end of the run of non-space characters starting at pos. */
  function WordEnd(s: string, pos: nat): (r: nat)
    requires pos <= |s|
    ensures pos <= r <= |s| && (r < |s| ==> IsSpace(s[r]))
    ensures forall k :: pos <= k < r ==> !IsSpace(s[k])
    decreases |s| - pos
  {
    if pos < |s| && !IsSpace(s[pos]) then WordEnd(s, pos + 1) else pos
  }

  /**
   * `ss >> num` from pos: white space, an optional sign, then at least one
   * digit, as many as follow.  None when no digit follows (the stream fails).
   */
  function ReadInt(s: string, pos: nat): (r: Option<(int, nat)>)
    requires pos <= |s|
    ensures r.Some? ==> pos < r.value.1 <= |s|
  {
    var p := SkipSpaces(s, pos);
    var q := if p < |s| && (s[p] == '-' || s[p] == '+') then p + 1 else p;
    var e := DigitEnd(s, q);
    if e == q then None
    else
      var v: int := Value(s[q..e]);
      Some((if p < |s| && s[p] == '-' then -v else v, e))
  }

  /** `ss >> word` from pos: the next run of non-space characters, None at the end. */
  function ReadWord(s: string, pos: nat): (r: Option<(string, nat)>)
    requires pos <= |s|
    ensures r.Some? ==> pos < r.value.1 <= |s| && |r.value.0| >= 1
    ensures r.Some? ==> forall k :: 0 <= k < |r.value.0| ==> !IsSpace(r.value.0[k])
    ensures r.None? <==> SkipSpaces(s, pos) == |s|
  {
    var p := SkipSpaces(s, pos);
    if p == |s| then None else Some((s[p..WordEnd(s, p)], WordEnd(s, p)))
  }

  /** `while (ss >> num) out << num`: every integer up to the first that does not read. */
  function ReadInts(s: string, pos: nat): (r: seq<int>)
    requires pos <= |s|
    decreases |s| - pos
  {
    match ReadInt(s, pos)
    case None => []
    case Some((v, next)) => [v] + ReadInts(s, next)
  }

  /** C `atoi` (overflow aside): the integer at the start of s, 0 when there is none. */
  function Atoi(s: string): int
  {
    match ReadInt(s, 0)
    case None => 0
    case Some((v, _)) => v
  }

  // ---------------------------------------------------------------------
  // Round trips
  // ---------------------------------------------------------------------

  lemma {:induction false} ValueOfNatToString(n: nat)
    ensures Value(NatToString(n)) == n
    decreases n
  {
    var s := NatToString(n);
    if n >= 10 {
      ValueOfNatToString(n / 10);
      assert s[..|s| - 1] == NatToString(n / 10);
    } else {
      assert s[..0] == [];
    }
  }

  /** Reading back a written number that is followed by white space or the end. */
  lemma ReadIntToString(n: int, s: string, pos: nat)
    requires pos <= |s| && SkipSpaces(s, pos) == pos
    requires pos + |IntToString(n)| <= |s| && s[pos..pos + |IntToString(n)|] == IntToString(n)
    requires pos + |IntToString(n)| == |s| || IsSpace(s[pos + |IntToString(n)|])
    ensures ReadInt(s, pos) == Some((n, pos + |IntToString(n)|))
  {
    var w := IntToString(n);
    var q := if n < 0 then pos + 1 else pos;
    var e := pos + |w|;
    assert forall k :: pos <= k < e ==> s[k] == w[k - pos] by {
      forall k | pos <= k < e ensures s[k] == w[k - pos] {
        assert s[pos..pos + |w|][k - pos] == s[k];
      }
    }
    assert s[pos] == w[0];
    DigitEndAt(s, q, e);
    if n < 0 {
      assert s[q..e] == NatToString(-n);
      ValueOfNatToString(-n);
    } else {
      assert s[q..e] == NatToString(n);
      ValueOfNatToString(n);
    }
  }

  lemma {:induction false} DigitEndAt(s: string, q: nat, e: nat)
    requires q <= e <= |s|
    requires forall k :: q <= k < e ==> IsDigit(s[k])
    requires e == |s| || !IsDigit(s[e])
    ensures DigitEnd(s, q) == e
    decreases e - q
  {
    if q < e {
      DigitEndAt(s, q + 1, e);
    }
  }

  /** atoi reads back what `os << n` wrote. */
  lemma AtoiIntToString(n: int)
    ensures Atoi(IntToString(n)) == n
  {
    var s := IntToString(n);
    assert s[0..|s|] == s;
    ReadIntToString(n, s, 0);
  }

  // ---------------------------------------------------------------------
  // Lines
  // ---------------------------------------------------------------------

  /** The lines a getline loop that stops at end of file sees: only the ones ended by '\n'. */
  function CompleteLines(text: string): (r: seq<string>)
    ensures forall i :: 0 <= i < |r| ==> '\n' !in r[i]
    decreases |text|
  {
    if '\n' !in text then []
    else
      var i := FirstNewline(text, 0);
      [text[..i]] + CompleteLines(text[i + 1..])
  }

  function FirstNewline(text: string, from: nat): (i: nat)
    requires from <= |text| && '\n' in text[from..]
    ensures from <= i < |text| && text[i] == '\n' && '\n' !in text[from..i]
    decreases |text| - from
  {
    if text[from] == '\n' then from
    else
      assert text[from..] == [text[from]] + text[from + 1..];
      FirstNewline(text, from + 1)
  }

  /** Every line followed by '\n'. */
  function Join(ls: seq<string>): string
  {
    if ls == [] then "" else ls[0] + "\n" + Join(ls[1..])
  }

  /** Lines written with their newlines are read back one for one. */
  lemma {:induction false} CompleteLinesJoin(ls: seq<string>, tail: string)
    requires forall i :: 0 <= i < |ls| ==> '\n' !in ls[i]
    requires '\n' !in tail
    ensures CompleteLines(Join(ls) + tail) == ls
  {
    var text := Join(ls) + tail;
    if ls == [] {
      assert text == tail;
    } else {
      var l := ls[0];
      assert text == l + "\n" + (Join(ls[1..]) + tail);
      assert text[|l|] == '\n' && '\n' in text;
      assert text[0..] == text;
      assert text[0..|l|] == l;
      var i := FirstNewline(text, 0);
      assert text[..i] == l;
      assert text[i + 1..] == Join(ls[1..]) + tail;
      CompleteLinesJoin(ls[1..], tail);
    }
  }
}
