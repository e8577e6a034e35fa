/** The null-tolerant string functions rules call by name (the class
    SpelFunctionUtils).  A Java `String` that may be null is an
    `Option<string>`; every function is total and degrades instead of
    throwing. */
module SpelFunctionUtils {
  import opened Wrappers
  import JavaStrings

  // ---------------------------------------------------------------------
  // Case mapping (ASCII letters; every other character is left alone)

  predicate IsLower(c: char)
  {
    'a' <= c <= 'z'
  }

  predicate IsUpper(c: char)
  {
    'A' <= c <= 'Z'
  }

  function UpperChar(c: char): char
  {
    if IsLower(c) then (c as int - 32) as char else c
  }

  function LowerChar(c: char): char
  {
    if IsUpper(c) then (c as int + 32) as char else c
  }

  /** `String.toUpperCase`: each character mapped on its own. */
  function UpperString(s: string): (r: string)
    ensures |r| == |s|
    ensures forall k :: 0 <= k < |s| ==> r[k] == UpperChar(s[k])
  {
    if s == [] then [] else [UpperChar(s[0])] + UpperString(s[1..])
  }

  /** `String.toLowerCase`: each character mapped on its own. */
  function LowerString(s: string): (r: string)
    ensures |r| == |s|
    ensures forall k :: 0 <= k < |s| ==> r[k] == LowerChar(s[k])
  {
    if s == [] then [] else [LowerChar(s[0])] + LowerString(s[1..])
  }

  /** `toUpperCase`: null stays null; otherwise no lower-case letter is left
      and the length is kept. */
  function ToUpperCase(input: Option<string>): (r: Option<string>)
    ensures r.None? <==> input.None?
    ensures r.Some? ==> |r.value| == |input.value|
    ensures r.Some? ==> forall k :: 0 <= k < |r.value| ==> !IsLower(r.value[k])
    ensures r.Some? ==> forall k :: 0 <= k < |r.value| ==> r.value[k] == UpperChar(input.value[k])
  {
    match input
    case None => None
    case Some(s) => Some(UpperString(s))
  }

  /** `toLowerCase`: null stays null; otherwise no upper-case letter is left
      and the length is kept. */
  function ToLowerCase(input: Option<string>): (r: Option<string>)
    ensures r.None? <==> input.None?
    ensures r.Some? ==> |r.value| == |input.value|
    ensures r.Some? ==> forall k :: 0 <= k < |r.value| ==> !IsUpper(r.value[k])
    ensures r.Some? ==> forall k :: 0 <= k < |r.value| ==> r.value[k] == LowerChar(input.value[k])
  {
    match input
    case None => None
    case Some(s) => Some(LowerString(s))
  }

  /** Upper-casing twice is upper-casing once. */
  lemma UpperCaseIdempotent(input: Option<string>)
    ensures ToUpperCase(ToUpperCase(input)) == ToUpperCase(input)
  {
    if input.Some? {
      var u := UpperString(input.value);
      assert UpperString(u) == u;
    }
  }

  /** Lower-casing forgets an earlier upper-casing: both functions agree on
      which strings are equal up to case.  This holds for the ASCII mapping
      modelled here; Java's full mapping breaks it ("ß" upper-cases to "SS",
      which lower-cases to "ss"). */
  lemma LowerCaseOfUpperCase(input: Option<string>)
    ensures ToLowerCase(ToUpperCase(input)) == ToLowerCase(input)
  {
    if input.Some? {
      var s := input.value;
      assert LowerString(UpperString(s)) == LowerString(s);
    }
  }

  // ---------------------------------------------------------------------
  // Substring and length

  /** `substring(s, start, end)`: null stays null; the slice when
      0 <= start <= end <= |s|; otherwise `s` itself, because the
      StringIndexOutOfBoundsException is caught. */
  function Substring(input: Option<string>, start: int, end: int): (r: Option<string>)
    ensures input.None? ==> r.None?
    ensures input.Some? && 0 <= start <= end <= |input.value| ==> r == Some(input.value[start..end])
    ensures input.Some? && !(0 <= start <= end <= |input.value|) ==> r == input
  {
    match input
    case None => None
    case Some(s) =>
      match JavaStrings.Substring(s, start, end)
      case Some(t) => Some(t)
      case None => input
  }

  /** `length`: 0 for null, otherwise the number of characters. */
  function Length(input: Option<string>): (n: nat)
    ensures n == 0 <==> input.None? || input.value == []
    ensures input.Some? ==> n == |input.value|
  {
    match input
    case None => 0
    case Some(s) => |s|
  }

  /** How the other functions change the length: case mapping keeps it,
      trimming and cutting never increase it, and a null input stays at 0. */
  lemma LengthAfterFunctions(input: Option<string>, start: int, end: int)
    ensures Length(ToUpperCase(input)) == Length(input)
    ensures Length(ToLowerCase(input)) == Length(input)
    ensures Length(Trim(input)) <= Length(input)
    ensures Length(Substring(input, start, end)) <= Length(input)
  {
    if input.Some? {
      assert Trim(input) == Some(JavaStrings.Trim(input.value));
    }
  }

  /** Cutting a string from 0 to its own length gives it back. */
  lemma SubstringWhole(s: string)
    ensures Substring(Some(s), 0, Length(Some(s))) == Some(s)
  {
    assert s[0..|s|] == s;
  }

  // ---------------------------------------------------------------------
  // Concatenation

  /** A null argument contributes the empty string. */
  function OrEmpty(s: Option<string>): string
  {
    match s
    case None => ""
    case Some(t) => t
  }

  /** The arguments run together in order, a null one counting as "". */
  function Joined(strings: seq<Option<string>>): string
  {
    if strings == [] then "" else Joined(strings[..|strings| - 1]) + OrEmpty(strings[|strings| - 1])
  }

  /** The sum of the arguments' lengths, a null one counting as 0. */
  function TotalLength(strings: seq<Option<string>>): nat
  {
    if strings == [] then 0 else TotalLength(strings[..|strings| - 1]) + Length(strings[|strings| - 1])
  }

  lemma {:induction false} JoinedLength(strings: seq<Option<string>>)
    ensures |Joined(strings)| == TotalLength(strings)
  {
    if strings != [] {
      JoinedLength(strings[..|strings| - 1]);
    }
  }

  /** Joining is compositional: the arguments of `a` come before those of `b`. */
  lemma {:induction false} JoinedAppend(a: seq<Option<string>>, b: seq<Option<string>>)
    ensures Joined(a + b) == Joined(a) + Joined(b)
  {
    if b == [] {
      assert a + b == a;
    } else {
      assert (a + b)[..|a + b| - 1] == a + b[..|b| - 1];
      JoinedAppend(a, b[..|b| - 1]);
    }
  }

  /** A null argument leaves no trace in the result. */
  lemma NullArgumentIgnored(a: seq<Option<string>>, b: seq<Option<string>>)
    ensures Joined(a + [None] + b) == Joined(a + b)
  {
    JoinedAppend(a + [None], b);
    JoinedAppend(a, [None]);
    JoinedAppend(a, b);
    assert a + [None] + b == (a + [None]) + b;
  }

  /** `concat(strings...)`: "" for a null or empty argument array, otherwise
      the non-null arguments in order, whose lengths add up. */
  method Concat(strings: Option<seq<Option<string>>>) returns (r: string)
    ensures strings.None? ==> r == ""
    ensures strings.Some? ==> r == Joined(strings.value)
    ensures strings.Some? ==> |r| == TotalLength(strings.value)
  {
    if strings.None? || |strings.value| == 0 {
      return "";
    }
    var args := strings.value;
    var result := "";
    for i := 0 to |args|
      invariant result == Joined(args[..i])
    {
      assert args[..i + 1][..i] == args[..i];
      result := result + OrEmpty(args[i]);
    }
    assert args[..|args|] == args;
    JoinedLength(args);
    r := result;
  }

  // ---------------------------------------------------------------------
  // Searching and trimming

  /** `contains`: false when either argument is null, otherwise whether
      `search` occurs in `input`. */
  function Contains(input: Option<string>, search: Option<string>): (b: bool)
    ensures b <==> input.Some? && search.Some? && JavaStrings.Occurs(input.value, search.value)
  {
    input.Some? && search.Some? && JavaStrings.Contains(input.value, search.value)
  }

  /** `startsWith`: false when either argument is null, otherwise whether
      `prefix` is a prefix of `input`. */
  function StartsWith(input: Option<string>, prefix: Option<string>): (b: bool)
    ensures b <==> input.Some? && prefix.Some? && prefix.value <= input.value
  {
    input.Some? && prefix.Some? && JavaStrings.StartsWith(input.value, prefix.value)
  }

  /** `endsWith`: false when either argument is null, otherwise whether
      `suffix` is a suffix of `input`. */
  function EndsWith(input: Option<string>, suffix: Option<string>): (b: bool)
    ensures b <==> input.Some? && suffix.Some? && |suffix.value| <= |input.value|
                   && input.value[|input.value| - |suffix.value|..] == suffix.value
  {
    input.Some? && suffix.Some? && JavaStrings.EndsWith(input.value, suffix.value)
  }

  /** A prefix or a suffix is in particular contained. */
  lemma AffixIsContained(input: Option<string>, affix: Option<string>)
    ensures StartsWith(input, affix) ==> Contains(input, affix)
    ensures EndsWith(input, affix) ==> Contains(input, affix)
  {
    if StartsWith(input, affix) {
      assert JavaStrings.OccursAt(input.value, affix.value, 0);
    }
    if EndsWith(input, affix) {
      assert JavaStrings.OccursAt(input.value, affix.value, |input.value| - |affix.value|);
    }
  }

  /** `trim`: null stays null; otherwise neither end is a character at or
      below U+0020, nothing but such characters was removed, and the result
      is empty exactly when the input held nothing else. */
  function Trim(input: Option<string>): (r: Option<string>)
    ensures r.None? <==> input.None?
    ensures r.Some? ==> r.value == JavaStrings.Trim(input.value)
    ensures r.Some? ==> JavaStrings.IsTrimmed(r.value)
    ensures r.Some? ==> |r.value| <= |input.value|
    ensures r.Some? ==> exists i, j :: JavaStrings.TrimmedSliceAt(input.value, r.value, i, j)
    ensures r.Some? ==> (r.value == [] <==> forall k :: 0 <= k < |input.value| ==> JavaStrings.IsTrimmable(input.value[k]))
  {
    match input
    case None => None
    case Some(s) =>
      JavaStrings.TrimIsSlice(s);
      Some(JavaStrings.Trim(s))
  }

  /** Trimming twice is trimming once. */
  lemma TrimIdempotent(input: Option<string>)
    ensures Trim(Trim(input)) == Trim(input)
  {
  }
}
