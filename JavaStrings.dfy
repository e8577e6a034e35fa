/** The parts of `java.lang.String` and `Integer.parseInt` that the rule
    engine's own code relies on, written out so that its behaviour can be
    reasoned about: search, split, trim and decimal parsing. */
module JavaStrings {
  import opened Wrappers

  // ---------------------------------------------------------------------
  // Searching

  /** `p` occurs in `s` starting at index `i`. */
  predicate OccursAt(s: string, p: string, i: nat)
  {
    i + |p| <= |s| && s[i..i + |p|] == p
  }

  /** `p` occurs somewhere in `s`. */
  ghost predicate Occurs(s: string, p: string)
  {
    exists i: nat :: OccursAt(s, p, i)
  }

  /** The first index at or after `from` where `p` occurs, or -1. */
  function IndexFrom(s: string, p: string, from: nat): (r: int)
    requires from <= |s|
    ensures r == -1 || (from <= r && OccursAt(s, p, r))
    ensures forall j: nat :: from <= j && (r == -1 || j < r) ==> !OccursAt(s, p, j)
    decreases |s| - from
  {
    if OccursAt(s, p, from) then from
    else if from == |s| then -1
    else IndexFrom(s, p, from + 1)
  }

  /** `String.indexOf(String)`: the first index at which `p` occurs, or -1. */
  function IndexOf(s: string, p: string): (r: int)
    ensures r == -1 || (0 <= r && OccursAt(s, p, r))
    ensures forall j: nat :: (r == -1 || j < r) ==> !OccursAt(s, p, j)
  {
    IndexFrom(s, p, 0)
  }

  /** `String.contains`. */
  function Contains(s: string, p: string): (b: bool)
    ensures b <==> Occurs(s, p)
  {
    IndexOf(s, p) >= 0
  }

  /** `String.startsWith`. */
  predicate StartsWith(s: string, p: string)
  {
    OccursAt(s, p, 0)
  }

  /** `String.endsWith`. */
  predicate EndsWith(s: string, p: string)
  {
    |p| <= |s| && OccursAt(s, p, |s| - |p|)
  }

  /** `String.substring(begin, end)`; `None` where Java throws
      StringIndexOutOfBoundsException. */
  function Substring(s: string, begin: int, end: int): Option<string>
  {
    if 0 <= begin <= end <= |s| then Some(s[begin..end]) else None
  }

  // ---------------------------------------------------------------------
  // Trimming

  /** `String.trim` removes every character at or below U+0020. */
  predicate IsTrimmable(c: char)
  {
    c <= ' '
  }

  /** Neither end of `s` is a trimmable character. */
  predicate IsTrimmed(s: string)
  {
    s == [] || (!IsTrimmable(s[0]) && !IsTrimmable(s[|s| - 1]))
  }

  /** `s` without its leading trimmable characters. */
  function TrimStart(s: string): (r: string)
    ensures |r| <= |s| && r == s[|s| - |r|..]
    ensures forall k :: 0 <= k < |s| - |r| ==> IsTrimmable(s[k])
    ensures r == [] || !IsTrimmable(r[0])
  {
    if s != [] && IsTrimmable(s[0]) then TrimStart(s[1..]) else s
  }

  /** `s` without its trailing trimmable characters. */
  function TrimEnd(s: string): (r: string)
    ensures |r| <= |s| && r == s[..|r|]
    ensures forall k :: |r| <= k < |s| ==> IsTrimmable(s[k])
    ensures r == [] || !IsTrimmable(r[|r| - 1])
  {
    if s != [] && IsTrimmable(s[|s| - 1]) then TrimEnd(s[..|s| - 1]) else s
  }

  /** `String.trim`: what is left of `s` between its leading and its
      trailing runs of trimmable characters. */
  function Trim(s: string): (r: string)
    ensures |r| <= |TrimStart(s)| && r == TrimStart(s)[..|r|]
    ensures forall k :: |r| <= k < |TrimStart(s)| ==> IsTrimmable(TrimStart(s)[k])
    ensures IsTrimmed(r)
    ensures r == [] <==> forall k :: 0 <= k < |s| ==> IsTrimmable(s[k])
    ensures IsTrimmed(s) ==> r == s
  {
    TrimEnd(TrimStart(s))
  }

  /** `r` is `s[i..j]` and everything of `s` before `i` and from `j` on is
      trimmable. */
  predicate TrimmedSliceAt(s: string, r: string, i: int, j: int)
  {
    0 <= i <= j <= |s| && r == s[i..j] &&
    (forall k :: 0 <= k < i ==> IsTrimmable(s[k])) &&
    (forall k :: j <= k < |s| ==> IsTrimmable(s[k]))
  }

  /** The trimmed text is the slice of `s` left between a run of trimmable
      characters at the front and one at the back. */
  lemma TrimIsSlice(s: string)
    ensures exists i, j :: TrimmedSliceAt(s, Trim(s), i, j)
  {
    var front := TrimStart(s);
    var r := Trim(s);
    var i := |s| - |front|;
    var j := i + |r|;
    assert r == s[i..j] by {
      assert front == s[i..];
      assert r == front[..|r|];
    }
    TrimmedBack(s, front, r, i);
    assert TrimmedSliceAt(s, r, i, j);
  }

  /** What the back trim cut from the front-trimmed text is trimmable in
      `s` too. */
  lemma TrimmedBack(s: string, front: string, r: string, i: nat)
    requires i <= |s| && front == s[i..]
    requires |r| <= |front|
    requires forall k :: |r| <= k < |front| ==> IsTrimmable(front[k])
    ensures forall k :: i + |r| <= k < |s| ==> IsTrimmable(s[k])
  {
    forall k | i + |r| <= k < |s| ensures IsTrimmable(s[k]) {
      assert s[k] == front[k - i];
    }
  }

  /** One space added at either end of a trimmed text is trimmed away. */
  lemma TrimPadding(s: string)
    requires IsTrimmed(s)
    ensures Trim(s + " ") == s
    ensures Trim(" " + s) == s
  {
    TrimSpaceAfter(s);
    TrimSpaceBefore(s);
  }

  lemma TrimSpaceAfter(s: string)
    requires IsTrimmed(s)
    ensures Trim(s + " ") == s
  {
    var padded := s + " ";
    if s == [] {
      assert TrimStart(padded) == TrimStart(padded[1..]) == [];
    } else {
      assert padded[0] == s[0];
      assert TrimStart(padded) == padded;
      assert padded[..|padded| - 1] == s;
      assert TrimEnd(padded) == TrimEnd(s) == s;
    }
  }

  lemma TrimSpaceBefore(s: string)
    requires IsTrimmed(s)
    ensures Trim(" " + s) == s
  {
    var padded := " " + s;
    assert padded[1..] == s;
    assert TrimStart(padded) == TrimStart(s) == s;
    assert TrimEnd(s) == s;
  }

  // ---------------------------------------------------------------------
  // Splitting

  /** The pieces of `s` between the occurrences of `sep`, found left to
      right without overlap; trailing empty pieces are kept. */
  function Pieces(s: string, sep: string): (r: seq<string>)
    requires sep != []
    ensures |r| >= 1
    ensures forall k :: 0 <= k < |r| ==> !Occurs(r[k], sep)
    decreases |s|
  {
    var i := IndexOf(s, sep);
    if i < 0 then [s]
    else
      PrefixBeforeFirst(s, sep, i);
      [s[..i]] + Pieces(s[i + |sep|..], sep)
  }

  /** Nothing before the first occurrence holds an occurrence. */
  lemma PrefixBeforeFirst(s: string, sep: string, i: nat)
    requires sep != [] && i <= |s|
    requires forall j: nat :: j < i ==> !OccursAt(s, sep, j)
    ensures !Occurs(s[..i], sep)
  {
    forall j: nat | OccursAt(s[..i], sep, j) ensures false {
      assert j < i;
      assert s[..i][j..j + |sep|] == s[j..j + |sep|];
      assert OccursAt(s, sep, j);
    }
  }

  /** Drops the trailing empty strings, as `split` with limit 0 does. */
  function DropTrailingEmpty(ps: seq<string>): (r: seq<string>)
    ensures r <= ps
    ensures r == [] || r[|r| - 1] != []
    ensures forall k :: |r| <= k < |ps| ==> ps[k] == []
  {
    if ps != [] && ps[|ps| - 1] == [] then DropTrailingEmpty(ps[..|ps| - 1]) else ps
  }

  /** `String.split(regex)` for a regex that matches exactly the text `sep`:
      no match gives `[s]`, otherwise the pieces without the trailing empty
      ones. */
  function Split(s: string, sep: string): (r: seq<string>)
    requires sep != []
    ensures IndexOf(s, sep) < 0 ==> r == [s]
    ensures IndexOf(s, sep) >= 0 ==> r <= Pieces(s, sep) && (r == [] || r[|r| - 1] != [])
    ensures IndexOf(s, sep) >= 0 ==> forall k :: |r| <= k < |Pieces(s, sep)| ==> Pieces(s, sep)[k] == []
    ensures forall k :: 0 <= k < |r| ==> !Occurs(r[k], sep)
  {
    if IndexOf(s, sep) < 0 then [s] else DropTrailingEmpty(Pieces(s, sep))
  }

  /** When `sep` does not occur in `s` before the `sep` placed after `a`,
      that one is the first occurrence and `a` is the first piece. */
  lemma FirstPiece(a: string, sep: string, b: string)
    requires sep != []
    requires forall j: nat :: j < |a| ==> !OccursAt(a + sep + b, sep, j)
    ensures IndexOf(a + sep + b, sep) == |a|
    ensures Pieces(a + sep + b, sep) == [a] + Pieces(b, sep)
  {
    var s := a + sep + b;
    assert OccursAt(s, sep, |a|) by { assert s[|a|..|a| + |sep|] == sep; }
    assert s[..|a|] == a;
    assert s[|a| + |sep|..] == b;
  }

  /** An occurrence of `sep` cannot start inside `a` when `sep` does not
      occur in `a` and the first character of `sep` does not recur in it. */
  lemma NoEarlyOccurrence(a: string, sep: string, b: string)
    requires sep != []
    requires !Occurs(a, sep)
    requires forall d :: 0 < d < |sep| ==> sep[d] != sep[0]
    ensures forall j: nat :: j < |a| ==> !OccursAt(a + sep + b, sep, j)
  {
    var s := a + sep + b;
    forall j: nat | j < |a| && j + |sep| <= |a| ensures !OccursAt(s, sep, j) {
      assert !OccursAt(a, sep, j);
      assert a[j..j + |sep|] == s[j..j + |sep|];
    }
    forall j: nat | j < |a| < j + |sep| ensures !OccursAt(s, sep, j) {
      var d := |a| - j;
      assert s[|a|] == sep[0];
      assert s[j..j + |sep|][d] != sep[d];
    }
  }

  /** What occurs inside an occurrence occurs. */
  lemma OccursWithin(s: string, a: string, p: string, b: string)
    requires Occurs(s, a + p + b)
    ensures Occurs(s, p)
  {
    var q := a + p + b;
    var i: nat :| OccursAt(s, q, i);
    assert s[i..i + |q|] == q;
    forall k | 0 <= k < |p| ensures s[i + |a| + k] == p[k] {
      assert s[i + |a| + k] == s[i..i + |q|][|a| + k] == q[|a| + k];
    }
    assert s[i + |a|..i + |a| + |p|] == p;
    assert OccursAt(s, p, i + |a|);
  }

  /** A text in which `sep` does not occur is one piece. */
  lemma SinglePiece(s: string, sep: string)
    requires sep != []
    requires !Occurs(s, sep)
    ensures Pieces(s, sep) == [s]
    ensures Split(s, sep) == [s]
  {
  }

  /** Appending a character that cannot end `sep` creates no occurrence. */
  lemma NoOccurrenceExtended(a: string, c: char, sep: string)
    requires sep != []
    requires !Occurs(a, sep)
    requires sep[|sep| - 1] != c
    ensures !Occurs(a + [c], sep)
  {
    var s := a + [c];
    forall j: nat | OccursAt(s, sep, j) ensures false {
      if j + |sep| <= |a| {
        assert a[j..j + |sep|] == s[j..j + |sep|];
        assert OccursAt(a, sep, j);
      }
    }
  }

  /** Prepending a character that cannot start `sep` creates no occurrence. */
  lemma NoOccurrencePrefixed(c: char, b: string, sep: string)
    requires sep != []
    requires !Occurs(b, sep)
    requires sep[0] != c
    ensures !Occurs([c] + b, sep)
  {
    var s := [c] + b;
    forall j: nat | OccursAt(s, sep, j) ensures false {
      if j > 0 {
        assert b[j - 1..j - 1 + |sep|] == s[j..j + |sep|];
        assert OccursAt(b, sep, j - 1);
      }
    }
  }

  // ---------------------------------------------------------------------
  // Decimal integers

  /** An ASCII decimal digit. */
  predicate IsDigit(c: char)
  {
    '0' <= c <= '9'
  }

  predicate AllDigits(s: string)
  {
    forall k :: 0 <= k < |s| ==> IsDigit(s[k])
  }

  /** The value of a string of decimal digits, most significant first. */
  function DigitsValue(ds: string): nat
    requires AllDigits(ds)
  {
    if ds == [] then 0 else DigitsValue(ds[..|ds| - 1]) * 10 + (ds[|ds| - 1] as int - '0' as int)
  }

  /** The range of a Java `int`. */
  const MinInt: int := -0x8000_0000
  const MaxInt: int := 0x7fff_ffff

  /** The text after an optional leading sign. */
  function Unsigned(s: string): (u: string)
    ensures |u| <= |s| && u == s[|s| - |u|..]
  {
    if s != [] && (s[0] == '-' || s[0] == '+') then s[1..] else s
  }

  /** The value of a sign followed by decimal digits. */
  function SignedValue(s: string): int
    requires s != [] && AllDigits(Unsigned(s))
  {
    var magnitude: int := DigitsValue(Unsigned(s));
    if s[0] == '-' then -magnitude else magnitude
  }

  /** `Integer.parseInt(s)`: an optional `-` or `+` followed by at least one
      digit, whose value fits in an `int`; `None` where Java throws
      NumberFormatException. */
  function ParseInt(s: string): (r: Option<int>)
    ensures r.Some? ==> MinInt <= r.value <= MaxInt
    ensures r.Some? ==> s != [] && (IsDigit(s[0]) || s[0] == '-' || s[0] == '+')
    ensures r.Some? <==> s != [] && Unsigned(s) != [] && AllDigits(Unsigned(s)) &&
                         MinInt <= SignedValue(s) <= MaxInt
    ensures r.Some? ==> r.value == SignedValue(s)
  {
    if s == [] then None
    else
      var digits := if s[0] == '-' || s[0] == '+' then s[1..] else s;
      if digits == [] || !AllDigits(digits) then None
      else
        var magnitude: int := DigitsValue(digits);
        var v := if s[0] == '-' then -magnitude else magnitude;
        if MinInt <= v <= MaxInt then Some(v) else None
  }

  function DigitChar(d: nat): char
    requires d < 10
  {
    ('0' as int + d) as char
  }

  /** `Integer.toString(n)` for a non-negative `n`. */
  function DecimalString(n: nat): (r: string)
    ensures r != [] && AllDigits(r)
  {
    if n < 10 then [DigitChar(n)] else DecimalString(n / 10) + [DigitChar(n % 10)]
  }

  lemma {:induction false} DigitsValueOfDecimal(n: nat)
    ensures DigitsValue(DecimalString(n)) == n
  {
    var s := DecimalString(n);
    if n >= 10 {
      DigitsValueOfDecimal(n / 10);
      assert s[..|s| - 1] == DecimalString(n / 10);
    }
  }

  /** Parsing the decimal text of a non-negative `int` gives it back. */
  lemma ParseDecimal(n: nat)
    requires n <= MaxInt
    ensures ParseInt(DecimalString(n)) == Some(n)
  {
    DigitsValueOfDecimal(n);
  }
}
