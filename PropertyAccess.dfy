/** The two-layer property resolver rules read through (the class
    PropertyAccessWrapper): the output variables written by earlier rules
    are searched first, the input facts second, each along a dotted path
    whose segments may index a list as `name[i]`. */
module PropertyAccess {
  import opened Wrappers
  import opened Values
  import JavaStrings

  /** `part.contains("[") && part.contains("]")`: such a segment goes to
      `handleArrayAccess`, whatever the order of the brackets. */
  predicate IsIndexed(part: string)
  {
    JavaStrings.Contains(part, "[") && JavaStrings.Contains(part, "]")
  }

  /** `handleArrayAccess(current, part)` for `part` of the form
      `name[index]`.  A non-null result is element `index` of the list held
      under `name` in the map `current`; every failure (no map, brackets
      missing or out of order, an index that is not an `int`, nothing or no
      list under `name`, an index out of range) gives null. */
  function HandleArrayAccess(current: Value, part: string): (r: Value)
    ensures !current.Map? ==> r == Null
    ensures !(0 <= JavaStrings.IndexOf(part, "[") < JavaStrings.IndexOf(part, "]")) ==> r == Null
    ensures r != Null ==>
      var open, close := JavaStrings.IndexOf(part, "["), JavaStrings.IndexOf(part, "]");
      var list := Get(current.entries, part[..open]);
      var index := JavaStrings.ParseInt(part[open + 1..close]);
      list.List? && index.Some? && 0 <= index.value < |list.items| && r == list.items[index.value]
    ensures current.Map? && 0 <= JavaStrings.IndexOf(part, "[") < JavaStrings.IndexOf(part, "]") ==>
      var open, close := JavaStrings.IndexOf(part, "["), JavaStrings.IndexOf(part, "]");
      var list := Get(current.entries, part[..open]);
      var index := JavaStrings.ParseInt(part[open + 1..close]);
      list.List? && index.Some? && 0 <= index.value < |list.items| ==> r == list.items[index.value]
  {
    if !current.Map? then Null
    else
      var open := JavaStrings.IndexOf(part, "[");
      var close := JavaStrings.IndexOf(part, "]");
      if open == -1 || close == -1 || open >= close then Null
      else
        var propertyName := part[..open];
        var indexText := part[open + 1..close];
        match JavaStrings.ParseInt(indexText)
        case None => Null
        case Some(index) =>
          var arrayProperty := Get(current.entries, propertyName);
          if arrayProperty.List? && 0 <= index < |arrayProperty.items| then arrayProperty.items[index]
          else Null
  }

  /** The loop of `getNestedValue`: from `current`, follow the remaining
      segments, stopping with null as soon as the value is null or a plain
      segment meets something that is not a map. */
  function Walk(current: Value, parts: seq<string>): Value
    decreases |parts|
  {
    if parts == [] then current
    else if current == Null then Null
    else if IsIndexed(parts[0]) then Walk(HandleArrayAccess(current, parts[0]), parts[1..])
    else if current.Map? then Walk(Get(current.entries, parts[0]), parts[1..])
    else Null
  }

  /** `getNestedValue(source, path)`: null for an empty path, otherwise the
      walk from the whole map along the pieces of `path` split at '.'. */
  function NestedValue(source: map<string, Value>, path: string): Value
  {
    if path == [] then Null else Walk(Map(source), JavaStrings.Split(path, "."))
  }

  /** Walking a path in two goes is walking it in one: a null reached on the
      first part stays null. */
  lemma {:induction false} WalkAppend(current: Value, a: seq<string>, b: seq<string>)
    ensures Walk(current, a + b) == Walk(Walk(current, a), b)
    decreases |a|
  {
    if a == [] {
      assert a + b == b;
    } else {
      assert (a + b)[0] == a[0] && (a + b)[1..] == a[1..] + b;
      if current == Null {
      } else if IsIndexed(a[0]) {
        WalkAppend(HandleArrayAccess(current, a[0]), a[1..], b);
      } else if current.Map? {
        WalkAppend(Get(current.entries, a[0]), a[1..], b);
      }
    }
  }

  /** A one-character text occurs exactly where that character is. */
  lemma OccursChar(s: string, c: char)
    ensures JavaStrings.Occurs(s, [c]) <==> c in s
  {
    if c in s {
      var j :| 0 <= j < |s| && s[j] == c;
      assert JavaStrings.OccursAt(s, [c], j);
    }
    forall j: nat | JavaStrings.OccursAt(s, [c], j) ensures c in s {
      assert s[j..j + 1][0] == s[j];
    }
  }

  /** A single segment without '.' and without brackets is a plain map
      lookup. */
  lemma PlainNameIsMapLookup(source: map<string, Value>, name: string)
    requires name != []
    requires '.' !in name && '[' !in name && ']' !in name
    ensures NestedValue(source, name) == Get(source, name)
  {
    OccursChar(name, '.');
    OccursChar(name, '[');
    JavaStrings.SinglePiece(name, ".");
    assert JavaStrings.Split(name, ".") == [name];
    assert !JavaStrings.Contains(name, "[");
    assert !IsIndexed(name);
    assert Walk(Map(source), [name]) == Walk(Get(source, name), []);
  }

  /** Two plain segments `a.b`: the entry `b` of the map held under `a`;
      null when `a` holds null or anything but a map. */
  lemma DottedPath(source: map<string, Value>, a: string, b: string)
    requires a != [] && b != []
    requires '.' !in a && '[' !in a && ']' !in a
    requires '.' !in b && '[' !in b && ']' !in b
    ensures NestedValue(source, a + "." + b) ==
      match Get(source, a)
      case Map(inner) => Get(inner, b)
      case _ => Null
  {
    var path := a + "." + b;
    OccursChar(a, '.');
    OccursChar(b, '.');
    OccursChar(a, '[');
    OccursChar(b, '[');
    JavaStrings.NoEarlyOccurrence(a, ".", b);
    JavaStrings.FirstPiece(a, ".", b);
    JavaStrings.SinglePiece(b, ".");
    assert JavaStrings.Split(path, ".") == [a, b];
    assert !JavaStrings.Contains(a, "[") && !JavaStrings.Contains(b, "[");
    assert Walk(Map(source), [a, b]) == Walk(Get(source, a), [b]);
    var held := Get(source, a);
    if held.Map? {
      assert Walk(held, [b]) == Walk(Get(held.entries, b), []);
    }
  }

  /** In `name[digits]` the first '[' and the first ']' are the ones
      around the digits. */
  lemma BracketPositions(name: string, digits: string)
    requires '[' !in name && ']' !in name
    requires JavaStrings.AllDigits(digits)
    ensures JavaStrings.IndexOf(name + "[" + digits + "]", "[") == |name|
    ensures JavaStrings.IndexOf(name + "[" + digits + "]", "]") == |name| + 1 + |digits|
  {
    var head := name + "[" + digits;
    assert ']' !in head by {
      forall k | 0 <= k < |digits| ensures digits[k] != ']' {
        assert JavaStrings.IsDigit(digits[k]);
      }
    }
    OccursChar(name, '[');
    OccursChar(head, ']');
    JavaStrings.NoEarlyOccurrence(name, "[", digits + "]");
    assert name + "[" + digits + "]" == name + "[" + (digits + "]");
    JavaStrings.FirstPiece(name, "[", digits + "]");
    JavaStrings.NoEarlyOccurrence(head, "]", "");
    assert name + "[" + digits + "]" == head + "]" + "";
    JavaStrings.FirstPiece(head, "]", "");
  }

  /** `handleArrayAccess` on `name[i]`, with `i` written in decimal, yields
      element `i` of the list under `name` when `i` is in range. */
  lemma ArrayAccessAtDecimal(source: map<string, Value>, name: string, i: nat)
    requires '[' !in name && ']' !in name
    requires Get(source, name).List? && i < |Get(source, name).items|
    requires i <= JavaStrings.MaxInt
    ensures HandleArrayAccess(Map(source), name + "[" + JavaStrings.DecimalString(i) + "]") == Get(source, name).items[i]
  {
    var digits := JavaStrings.DecimalString(i);
    var part := name + "[" + digits + "]";
    BracketPositions(name, digits);
    assert part[..|name|] == name;
    assert part[|name| + 1..|name| + 1 + |digits|] == digits;
    JavaStrings.ParseDecimal(i);
  }

  /** The path `name[i]`, with `i` written in decimal, yields element `i` of
      the list under `name` when `i` is in range. */
  lemma IndexedSegment(source: map<string, Value>, name: string, i: nat)
    requires '.' !in name && '[' !in name && ']' !in name
    requires Get(source, name).List? && i < |Get(source, name).items|
    requires i <= JavaStrings.MaxInt
    ensures NestedValue(source, name + "[" + JavaStrings.DecimalString(i) + "]") == Get(source, name).items[i]
  {
    var digits := JavaStrings.DecimalString(i);
    var part := name + "[" + digits + "]";
    assert '.' !in part by {
      forall k | 0 <= k < |digits| ensures digits[k] != '.' {
        assert JavaStrings.IsDigit(digits[k]);
      }
    }
    BracketPositions(name, digits);
    IndexedPathIsOneAccess(source, part);
    ArrayAccessAtDecimal(source, name, i);
  }

  /** A path without '.' that holds both brackets is one array access. */
  lemma IndexedPathIsOneAccess(source: map<string, Value>, part: string)
    requires '.' !in part
    requires JavaStrings.IndexOf(part, "[") >= 0 && JavaStrings.IndexOf(part, "]") >= 0
    ensures NestedValue(source, part) == HandleArrayAccess(Map(source), part)
  {
    OccursChar(part, '.');
    JavaStrings.SinglePiece(part, ".");
    assert IsIndexed(part);
    assert JavaStrings.Split(part, ".") == [part];
    assert Walk(Map(source), [part]) == Walk(HandleArrayAccess(Map(source), part), []);
  }

  /** A path made of dots only splits into no segments at all, so the walk
      never starts and the whole layer comes back as a map. */
  lemma PathOfDotsYieldsLayer(source: map<string, Value>)
    ensures NestedValue(source, ".") == Map(source)
  {
    var path := ".";
    assert JavaStrings.OccursAt(path, ".", 0);
    assert path == "" + "." + "";
    JavaStrings.FirstPiece("", ".", "");
    JavaStrings.SinglePiece("", ".");
    assert JavaStrings.Pieces(path, ".") == ["", ""];
    assert JavaStrings.DropTrailingEmpty(["", ""]) == [];
    assert JavaStrings.Split(path, ".") == [];
  }

  /** The resolver object of one ruleset execution. */
  class PropertyAccessWrapper {
    /** The input facts, copied when the wrapper is built. */
    const properties: map<string, Value>
    /** The outputs written so far by fired rules. */
    var outputVariables: map<string, Value>

    /** Copies the facts; no output is known yet.  The copy is a value, so
        later changes to the caller's map are not seen. */
    constructor (properties: map<string, Value>)
      ensures this.properties == properties
      ensures outputVariables == map[]
    {
      this.properties := properties;
      outputVariables := map[];
    }

    /** `addOutputVariable(name, value)`: the last write for a name wins;
        every other output and the facts stay as they were. */
    method AddOutputVariable(name: string, value: Value)
      modifies this
      ensures outputVariables == old(outputVariables)[name := value]
    {
      outputVariables := outputVariables[name := value];
    }

    /** `getNestedValue`, walking the path segment by segment. */
    static method GetNestedValue(source: map<string, Value>, path: string) returns (r: Value)
      ensures r == NestedValue(source, path)
    {
      if path == [] {
        return Null;
      }
      var parts := JavaStrings.Split(path, ".");
      var current := Map(source);
      for i := 0 to |parts|
        invariant Walk(current, parts[i..]) == NestedValue(source, path)
      {
        if current == Null {
          return Null;
        }
        if IsIndexed(parts[i]) {
          current := HandleArrayAccess(current, parts[i]);
        } else if current.Map? {
          current := Values.Get(current.entries, parts[i]);
        } else {
          return Null;
        }
      }
      return current;
    }

    /** `get(propertyName)`: the output layer's value when it is not null,
        otherwise the facts' value.  An output holding null therefore does
        not hide a fact of the same name. */
    method Get(propertyName: string) returns (v: Value)
      ensures NestedValue(outputVariables, propertyName) != Null ==> v == NestedValue(outputVariables, propertyName)
      ensures NestedValue(outputVariables, propertyName) == Null ==> v == NestedValue(properties, propertyName)
    {
      v := GetNestedValue(outputVariables, propertyName);
      if v == Null {
        v := GetNestedValue(properties, propertyName);
      }
    }

    /** `getOutputVariables()`: a snapshot of the output layer, unaffected
        by later writes. */
    method GetOutputVariables() returns (snapshot: map<string, Value>)
      ensures snapshot == outputVariables
    {
      snapshot := outputVariables;
    }
  }
}
