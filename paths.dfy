/**
 * Dotted path text: splitting and joining on the delimiter, decimal indices,
 * substring search. These are the string primitives the path algebra uses.
 */
module Paths {
  import opened Wrappers

  /** The path delimiter, fixed to the library's default. */
  const Delimiter: char := '.'

  /** No segment contains the delimiter. */
  predicate DotFree(segs: seq<string>) {
    forall j :: 0 <= j < |segs| ==> Delimiter !in segs[j]
  }

  /** Splitting on the delimiter: the pieces between delimiters; the empty text is one empty piece. */
  function Split(s: string): (segs: seq<string>)
    ensures |segs| >= 1
    ensures DotFree(segs)
  {
    if s == [] then [""]
    else
      var rest := Split(s[1..]);
      if s[0] == Delimiter then [""] + rest
      else
        assert Delimiter !in [s[0]] + rest[0];
        [[s[0]] + rest[0]] + rest[1..]
  }

  /** Joining with the delimiter; no segments join to the empty text. */
  function Join(segs: seq<string>): string
  {
    if segs == [] then ""
    else if |segs| == 1 then segs[0]
    else segs[0] + [Delimiter] + Join(segs[1..])
  }

  /** One character other than the delimiter splits into itself. */
  lemma SplitPlain(s: string)
    requires |s| == 1 && s[0] != Delimiter
    ensures Split(s) == [s]
  {
    assert s[1..] == [];
    assert [s[0]] + [] == s;
  }

  /** A one-character segment followed by the delimiter splits off as the first piece. */
  lemma SplitOneChar(c: char, rest: string)
    requires c != Delimiter
    ensures Split([c, Delimiter] + rest) == [[c]] + Split(rest)
  {
    var s := [c, Delimiter] + rest;
    assert s[1..] == [Delimiter] + rest && s[1..][1..] == rest;
    assert Split(s[1..]) == [""] + Split(rest);
    assert ([""] + Split(rest))[1..] == Split(rest);
    assert [s[0]] + "" == [c];
  }

  /** Joining the pieces of a text gives the text back. */
  lemma {:induction false} JoinSplit(s: string)
    ensures Join(Split(s)) == s
  {
    if s != [] {
      var rest := Split(s[1..]);
      assert Join(rest) == s[1..] by { JoinSplit(s[1..]); }
      assert s == [s[0]] + s[1..];
      if s[0] == Delimiter {
        assert Split(s) == [""] + rest;
        assert ([""] + rest)[1..] == rest;
      } else {
        var segs := Split(s);
        assert segs == [[s[0]] + rest[0]] + rest[1..];
        if |rest| > 1 {
          assert segs[1..] == rest[1..];
          assert Join(rest) == rest[0] + [Delimiter] + Join(rest[1..]);
        }
      }
    }
  }

  /** A text without a delimiter is a single piece. */
  lemma {:induction false} SplitDotFree(x: string)
    requires Delimiter !in x
    ensures Split(x) == [x]
  {
    if x != [] {
      assert Delimiter !in x[1..];
      SplitDotFree(x[1..]);
      assert [x[0]] + x[1..] == x;
    }
  }

  /** A delimiter-free head followed by the delimiter splits off as the first piece. */
  lemma {:induction false} SplitCons(x: string, y: string)
    requires Delimiter !in x
    ensures Split(x + [Delimiter] + y) == [x] + Split(y)
  {
    if x == [] {
      assert x + [Delimiter] + y == [Delimiter] + y;
      assert ([Delimiter] + y)[1..] == y;
    } else {
      var s := x + [Delimiter] + y;
      assert s[0] == x[0] && s[1..] == x[1..] + [Delimiter] + y;
      assert Delimiter !in x[1..];
      SplitCons(x[1..], y);
      assert [x[0]] + x[1..] == x;
    }
  }

  /** Splitting undoes joining delimiter-free segments. */
  lemma {:induction false} SplitJoin(segs: seq<string>)
    requires |segs| >= 1 && DotFree(segs)
    ensures Split(Join(segs)) == segs
  {
    if |segs| == 1 {
      SplitDotFree(segs[0]);
    } else {
      assert DotFree(segs[1..]);
      SplitJoin(segs[1..]);
      SplitCons(segs[0], Join(segs[1..]));
      assert [segs[0]] + segs[1..] == segs;
    }
  }

  /** Joining one more segment appends the delimiter and the segment. */
  lemma {:induction false} JoinSnoc(segs: seq<string>, s: string)
    requires |segs| >= 1
    ensures Join(segs + [s]) == Join(segs) + [Delimiter] + s
  {
    if |segs| == 1 {
      assert segs + [s] == [segs[0], s];
      assert [segs[0], s][1..] == [s];
    } else {
      assert (segs + [s])[1..] == segs[1..] + [s];
      JoinSnoc(segs[1..], s);
    }
  }

  /** Appending the delimiter and a delimiter-free segment appends one piece. */
  lemma SplitSnoc(p: string, s: string)
    requires Delimiter !in s
    ensures Split(p + [Delimiter] + s) == Split(p) + [s]
  {
    var segs := Split(p);
    JoinSplit(p);
    JoinSnoc(segs, s);
    assert DotFree(segs + [s]);
    SplitJoin(segs + [s]);
  }

  // Decimal digits and indices

  predicate IsDigit(c: char) { '0' <= c <= '9' }

  predicate AllDigits(s: string) {
    forall i :: 0 <= i < |s| ==> IsDigit(s[i])
  }

  function DigitChar(d: nat): (c: char)
    requires d < 10
    ensures IsDigit(c)
  {
    (48 + d) as char
  }

  function DigitValue(c: char): (d: nat)
    requires IsDigit(c)
    ensures d < 10 && DigitChar(d) == c
  {
    c as int - 48
  }

  /** The decimal text of a natural number (Go's strconv.Itoa on non-negative values). */
  function Itoa(n: nat): (r: string)
    ensures |r| >= 1 && AllDigits(r)
    ensures DigitValue(r[|r| - 1]) == n % 10
  {
    if n < 10 then [DigitChar(n)] else Itoa(n / 10) + [DigitChar(n % 10)]
  }

  /** The value of a text of decimal digits. */
  function DecimalValue(s: string): nat
    requires AllDigits(s)
  {
    if s == [] then 0 else 10 * DecimalValue(s[..|s| - 1]) + DigitValue(s[|s| - 1])
  }

  /** Reading back the decimal text of n gives n. */
  lemma {:induction false} DecimalItoa(n: nat)
    ensures DecimalValue(Itoa(n)) == n
  {
    if n >= 10 {
      DecimalItoa(n / 10);
      var r := Itoa(n);
      assert r[..|r| - 1] == Itoa(n / 10);
    }
  }

  /** Distinct numbers have distinct decimal texts. */
  lemma ItoaInjective(m: nat, n: nat)
    requires Itoa(m) == Itoa(n)
    ensures m == n
  {
    DecimalItoa(m);
    DecimalItoa(n);
  }

  /** The decimal text of a number contains no delimiter. */
  lemma ItoaDotFree(n: nat)
    ensures Delimiter !in Itoa(n)
  {
    var r := Itoa(n);
    forall i | 0 <= i < |r| ensures r[i] != Delimiter {
      assert IsDigit(r[i]);
    }
  }

  /** An array index segment, as the JSON accessor reads it: a non-empty run of digits. */
  function ParseIndex(s: string): (r: Option<nat>)
    ensures r.Some? <==> |s| > 0 && AllDigits(s)
  {
    if |s| > 0 && AllDigits(s) then Some(DecimalValue(s)) else None
  }

  /** Go's strconv.Atoi applied to a one-character text. */
  function AtoiChar(c: char): (r: Result<nat>)
    ensures r.Ok? <==> IsDigit(c)
    ensures r.Ok? ==> r.value < 10 && DigitChar(r.value) == c
  {
    if IsDigit(c) then Ok(DigitValue(c)) else Err(SyntaxError)
  }

  // Substrings and segment search

  /** Go's strings.Contains: sub occurs somewhere in s. */
  function Contains(s: string, sub: string): bool
  {
    sub <= s || (|s| > 0 && Contains(s[1..], sub))
  }

  /** An occurrence in a suffix is an occurrence in the whole. */
  lemma {:induction false} ContainsInSuffix(x: string, y: string, sub: string)
    requires Contains(y, sub)
    ensures Contains(x + y, sub)
  {
    if x != [] {
      assert (x + y)[1..] == x[1..] + y;
      ContainsInSuffix(x[1..], y, sub);
      assert |x + y| > 0 && Contains((x + y)[1..], sub);
    } else {
      assert x + y == y;
    }
  }

  /** Every segment of a joined path occurs in the joined text. */
  lemma {:induction false} JoinContainsSegment(segs: seq<string>, j: nat)
    requires j < |segs|
    ensures Contains(Join(segs), segs[j])
  {
    if |segs| > 1 {
      var rest := Join(segs[1..]);
      if j == 0 {
        assert segs[0] <= segs[0] + [Delimiter] + rest;
      } else {
        JoinContainsSegment(segs[1..], j - 1);
        assert segs[0] + [Delimiter] + rest == (segs[0] + [Delimiter]) + rest;
        ContainsInSuffix(segs[0] + [Delimiter], rest, segs[j]);
      }
    } else {
      assert segs[0] <= segs[0];
    }
  }

  /** The position of the first segment equal to id, or |segs| when there is none. */
  function FirstIndex(segs: seq<string>, id: string): (j: nat)
    ensures j <= |segs|
    ensures j < |segs| <==> id in segs
    ensures j < |segs| ==> segs[j] == id
    ensures forall i :: 0 <= i < j ==> segs[i] != id
  {
    if segs == [] then 0
    else if segs[0] == id then 0
    else 1 + FirstIndex(segs[1..], id)
  }

  /** The text a path builder holds after writing each segment followed by the delimiter. */
  function Terminated(segs: seq<string>): string
  {
    if segs == [] then "" else Terminated(segs[..|segs| - 1]) + segs[|segs| - 1] + [Delimiter]
  }

  /** Writing the final segment after the terminated ones gives the joined path. */
  lemma {:induction false} TerminatedJoin(segs: seq<string>, id: string)
    ensures Terminated(segs) + id == Join(segs + [id])
  {
    if segs != [] {
      var init := segs[..|segs| - 1];
      var last := segs[|segs| - 1];
      TerminatedJoin(init, last);
      assert init + [last] == segs;
      JoinSnoc(segs, id);
    }
  }
}
