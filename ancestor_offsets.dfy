/** parse_ancestor_offsets of src/jrnl/journal.py: peel trailing "^" and
    "~N" suffixes off a date argument, adding up the ancestor offset they
    ask for. */
module AncestorOffsets {
  import opened Wrappers
  import opened Text

  /** The position of the last occurrence of c in s (str.rfind). */
  function LastIndexOf(s: string, c: char): (r: Option<nat>)
    ensures r.Some? ==> r.value < |s|
  {
    if s == [] then None
    else if s[|s| - 1] == c then Some(|s| - 1)
    else LastIndexOf(s[..|s| - 1], c)
  }

  /** LastIndexOf finds a c with no c after it, and None means there is no c. */
  lemma {:induction false} LastIndexOfSpec(s: string, c: char)
    ensures LastIndexOf(s, c).Some? ==>
      var i := LastIndexOf(s, c).value;
      s[i] == c && forall j :: i < j < |s| ==> s[j] != c
    ensures LastIndexOf(s, c).None? ==> forall j :: 0 <= j < |s| ==> s[j] != c
  {
    if s != [] && s[|s| - 1] != c {
      LastIndexOfSpec(s[..|s| - 1], c);
    }
  }

  predicate NoNewline(s: string) {
    forall j :: 0 <= j < |s| ==> s[j] != '\n'
  }

  lemma NoNewlineFound(s: string)
    ensures LastIndexOf(s, '\n').None? <==> NoNewline(s)
  {
    LastIndexOfSpec(s, '\n');
  }

  /** What -?\d* matches as a whole. */
  predicate IsSignedDigits(g: string) {
    AllDigits(g) || (|g| > 0 && g[0] == '-' && AllDigits(g[1..]))
  }

  /** re.match(r".*~(-?\d*)$", s) and its group(1), or None when it does
      not match.  The "." does not cross a newline, so the "~" must lie
      on the first line; greedy ".*" picks the last "~" (any earlier one
      is followed by a "~", which the group cannot hold); and "$" matches
      at the very end or just before a final newline. */
  function TildeGroup(s: string): (g: Option<string>)
    ensures g.Some? ==> IsSignedDigits(g.value) && |g.value| + 1 <= |s|
  {
    match LastIndexOf(s, '~')
    case None => None
    case Some(i) =>
      if LastIndexOf(s[..i], '\n').Some? then None
      else
        var rest := s[i + 1..];
        var body := if |rest| > 0 && rest[|rest| - 1] == '\n' then rest[..|rest| - 1] else rest;
        if IsSignedDigits(body) then Some(body) else None
  }

  /** One turn of the loop: a caret, a non-empty tilde group, or neither. */
  datatype Step = Caret | Tilde(group: string) | Finished

  function NextStep(s: string): (st: Step)
    ensures st.Caret? <==> EndsWithChar(s, '^')
    ensures st.Tilde? ==> IsSignedDigits(st.group) && st.group != [] && |st.group| + 1 <= |s|
  {
    if EndsWithChar(s, '^') then Caret
    else
      match TildeGroup(s)
      case Some(g) => if g != [] then Tilde(g) else Finished
      case None => Finished
  }

  /** int(g) for a group that -?\d* matched: a lone "-" (or nothing) is
      not a number. */
  function GroupValue(g: string): (v: Option<int>)
    requires IsSignedDigits(g)
  {
    if AllDigits(g) then (if g == [] then None else Some(DigitsValue(g) as int))
    else if |g| == 1 then None
    else Some(-(DigitsValue(g[1..]) as int))
  }

  /** GroupValue is Python's int() on every string the group can hold. */
  lemma GroupValueIsPyInt(g: string)
    requires IsSignedDigits(g)
    ensures GroupValue(g) == PyInt(g)
  {
    if g == [] {
      EmptyIsNotInt();
      assert PyInt(g) == None == GroupValue(g);
    } else if AllDigits(g) {
      var v := Some(DigitsValue(g) as int);
      PyIntOfDigits(g);
      assert PyInt(g) == v == GroupValue(g);
    } else if |g| == 1 {
      assert g == "-";
      MinusIsNotInt();
      assert PyInt(g) == None == GroupValue(g);
    } else {
      assert g[0] == '-' && AllDigits(g[1..]);
      var v := Some(-(DigitsValue(g[1..]) as int));
      PyIntOfNegatedDigits(g);
      assert PyInt(g) == v == GroupValue(g);
    }
  }

  lemma EmptyIsNotInt()
    ensures PyInt("") == None
  {
    assert Strip("") == [];
  }

  lemma MinusIsNotInt()
    ensures PyInt("-") == None
  {
    assert Strip("-") == "-";
  }

  /** The loop from a given state: the remaining argument and the offset
      so far.  int() of a group that is a lone "-" raises ValueError. */
  function OffsetsFrom(s: string, offset: int): (r: Result<(string, int)>)
    decreases |s|
  {
    match NextStep(s)
    case Caret => OffsetsFrom(s[..|s| - 1], offset + 1)
    case Tilde(g) =>
      (match GroupValue(g)
       case None => Err(ValueError)
       case Some(k) => OffsetsFrom(s[..|s| - (|g| + 1)], offset + k))
    case Finished => Ok((s, offset))
  }

  /** parse_ancestor_offsets (specification). */
  function AncestorOffsets(dateArg: string): Result<(string, int)> {
    OffsetsFrom(dateArg, 0)
  }

  /** parse_ancestor_offsets: the while-True loop. */
  method ParseAncestorOffsets(dateArg: string) returns (r: Result<(string, int)>)
    ensures r == AncestorOffsets(dateArg)
  {
    var s := dateArg;
    var offset := 0;
    while true
      invariant OffsetsFrom(s, offset) == AncestorOffsets(dateArg)
      decreases |s|
    {
      if EndsWithChar(s, '^') {
        CaretTurn(s, offset);
        offset := offset + 1;
        s := s[..|s| - 1];
        continue;
      }
      var g := TildeGroup(s);
      if g.Some? && g.value != [] {
        var k := IntOfGroup(g.value);
        TildeTurn(s, offset, g.value, k);
        if k.None? {
          return Err(ValueError);
        }
        offset := offset + k.value;
        s := s[..|s| - (|g.value| + 1)];
        continue;
      }
      FinishedTurn(s, offset);
      return Ok((s, offset));
    }
  }

  lemma CaretTurn(s: string, offset: int)
    requires EndsWithChar(s, '^')
    ensures OffsetsFrom(s, offset) == OffsetsFrom(s[..|s| - 1], offset + 1)
  {
  }

  /** int(offset_str) on the matched group. */
  method IntOfGroup(g: string) returns (k: Option<int>)
    requires IsSignedDigits(g)
    ensures k == GroupValue(g)
  {
    k := PyInt(g);
    GroupValueIsPyInt(g);
  }

  lemma TildeTurn(s: string, offset: int, g: string, k: Option<int>)
    requires !EndsWithChar(s, '^') && TildeGroup(s) == Some(g) && g != [] && k == GroupValue(g)
    ensures |g| + 1 <= |s|
    ensures k.None? ==> OffsetsFrom(s, offset) == Err(ValueError)
    ensures k.Some? ==> OffsetsFrom(s, offset) == OffsetsFrom(s[..|s| - (|g| + 1)], offset + k.value)
  {
    NextIsTilde(s, g);
  }

  lemma NextIsTilde(s: string, g: string)
    requires !EndsWithChar(s, '^') && TildeGroup(s) == Some(g) && g != []
    ensures NextStep(s) == Tilde(g)
  {
  }

  lemma FinishedTurn(s: string, offset: int)
    requires !EndsWithChar(s, '^')
    requires TildeGroup(s).None? || TildeGroup(s).value == []
    ensures OffsetsFrom(s, offset) == Ok((s, offset))
  {
    assert NextStep(s) == Finished;
  }

  /** The returned argument is always a prefix of the input. */
  lemma {:induction false} OffsetsFromPrefix(s: string, offset: int)
    ensures OffsetsFrom(s, offset).Ok? ==> StartsWith(s, OffsetsFrom(s, offset).value.0)
    decreases |s|
  {
    match NextStep(s)
    case Caret =>
      OffsetsFromPrefix(s[..|s| - 1], offset + 1);
      PrefixOfPrefix(s, s[..|s| - 1], OffsetsFrom(s, offset));
    case Tilde(g) =>
      if GroupValue(g).Some? {
        OffsetsFromPrefix(s[..|s| - (|g| + 1)], offset + GroupValue(g).value);
        PrefixOfPrefix(s, s[..|s| - (|g| + 1)], OffsetsFrom(s, offset));
      }
    case Finished =>
  }

  lemma PrefixOfPrefix(s: string, t: string, r: Result<(string, int)>)
    requires StartsWith(s, t)
    requires r.Ok? ==> StartsWith(t, r.value.0)
    ensures r.Ok? ==> StartsWith(s, r.value.0)
  {
    if r.Ok? {
      assert s[..|r.value.0|] == t[..|r.value.0|];
    }
  }

  /** The offset accumulates by addition: two starting offsets lead to the
      same outcome, the same remaining argument, and final offsets that
      differ by what the starting ones did. */
  lemma {:induction false} OffsetsFromShift(s: string, a: int, b: int)
    ensures OffsetsFrom(s, a).Err? <==> OffsetsFrom(s, b).Err?
    ensures OffsetsFrom(s, a).Ok? ==> OffsetsFrom(s, a).value.0 == OffsetsFrom(s, b).value.0
    ensures OffsetsFrom(s, a).Ok? ==> OffsetsFrom(s, a).value.1 - a == OffsetsFrom(s, b).value.1 - b
    decreases |s|
  {
    match NextStep(s)
    case Caret =>
      OffsetsFromShift(s[..|s| - 1], a + 1, b + 1);
    case Tilde(g) =>
      if GroupValue(g).Some? {
        var k := GroupValue(g).value;
        OffsetsFromShift(s[..|s| - (|g| + 1)], a + k, b + k);
      }
    case Finished =>
  }

  lemma AncestorOffsetsPrefix(dateArg: string)
    ensures AncestorOffsets(dateArg).Ok? ==> StartsWith(dateArg, AncestorOffsets(dateArg).value.0)
  {
    OffsetsFromPrefix(dateArg, 0);
  }

  /** An argument with no "^" at the end and no "~" at all comes back
      unchanged with offset 0. */
  lemma NoSuffixUnchanged(s: string)
    requires !EndsWithChar(s, '^')
    requires forall j :: 0 <= j < |s| ==> s[j] != '~'
    ensures AncestorOffsets(s) == Ok((s, 0))
  {
    LastIndexOfSpec(s, '~');
    assert LastIndexOf(s, '~').None?;
  }

  /** Each trailing caret removes one character and adds exactly 1. */
  lemma CaretAddsOne(s: string)
    ensures AncestorOffsets(s + "^").Err? <==> AncestorOffsets(s).Err?
    ensures AncestorOffsets(s + "^").Ok? ==> AncestorOffsets(s + "^").value.0 == AncestorOffsets(s).value.0
    ensures AncestorOffsets(s + "^").Ok? ==> AncestorOffsets(s + "^").value.1 == AncestorOffsets(s).value.1 + 1
  {
    var t := s + "^";
    assert t[..|t| - 1] == s;
    CaretTurn(t, 0);
    ShiftedParse(t, s, 1);
  }

  /** A c with no c after it is the last one. */
  lemma LastIndexAt(s: string, c: char, i: nat)
    requires i < |s| && s[i] == c
    requires forall j :: i < j < |s| ==> s[j] != c
    ensures LastIndexOf(s, c) == Some(i)
  {
    var r := LastIndexOf(s, c);
    LastIndexOfSpec(s, c);
    assert r.Some?;
    assert !(r.value < i);
  }

  lemma LastTildeAfter(base: string, suffix: string)
    requires forall j :: 0 <= j < |suffix| ==> suffix[j] != '~'
    ensures LastIndexOf(base + "~" + suffix, '~') == Some(|base|)
  {
    var s := base + "~" + suffix;
    forall j | |base| < j < |s| ensures s[j] != '~' {
      assert s[j] == suffix[j - |base| - 1];
    }
    LastIndexAt(s, '~', |base|);
  }

  lemma TildeGroupOf(base: string, g: string)
    requires NoNewline(base) && IsSignedDigits(g)
    ensures TildeGroup(base + "~" + g) == Some(g)
  {
    var s := base + "~" + g;
    forall j | 0 <= j < |g| ensures g[j] != '~' {
      if j > 0 || AllDigits(g) {
        assert IsDigit(g[j]) by {
          if !AllDigits(g) {
            assert g[1..][j - 1] == g[j];
          }
        }
      }
    }
    LastTildeAfter(base, g);
    assert s[..|base|] == base;
    NoNewlineFound(base);
    assert s[|base| + 1..] == g;
    if |g| > 0 {
      assert g[|g| - 1] != '\n' by {
        if !AllDigits(g) && |g| > 1 {
          assert g[1..][|g| - 2] == g[|g| - 1];
        }
      }
    }
  }

  /** One tilde step: a non-empty group after a first-line "~" is
      stripped with the tilde, and int() of it is added. */
  lemma TildeStep(base: string, g: string, c: int)
    requires NoNewline(base) && IsSignedDigits(g) && g != []
    ensures OffsetsFrom(base + "~" + g, c) ==
      match GroupValue(g)
      case None => Err(ValueError)
      case Some(k) => OffsetsFrom(base, c + k)
  {
    var s := base + "~" + g;
    TildeGroupOf(base, g);
    assert s[|s| - 1] == g[|g| - 1];
    assert g[|g| - 1] != '^' by {
      if !AllDigits(g) && |g| > 1 {
        assert g[1..][|g| - 2] == g[|g| - 1];
      }
    }
    assert NextStep(s) == Tilde(g);
    assert s[..|s| - (|g| + 1)] == base;
  }

  lemma TildeStepAdds(base: string, g: string, k: int)
    requires NoNewline(base) && IsSignedDigits(g) && g != [] && GroupValue(g) == Some(k)
    ensures OffsetsFrom(base + "~" + g, 0) == OffsetsFrom(base, k)
  {
    TildeStep(base, g, 0);
  }

  /** When a string's parse is another's parse from offset k, the two agree
      on failure and their offsets differ by k. */
  lemma ShiftedParse(t: string, base: string, k: int)
    requires OffsetsFrom(t, 0) == OffsetsFrom(base, k)
    ensures AncestorOffsets(t).Err? <==> AncestorOffsets(base).Err?
    ensures AncestorOffsets(t).Ok? ==> AncestorOffsets(t).value.0 == AncestorOffsets(base).value.0
    ensures AncestorOffsets(t).Ok? ==> AncestorOffsets(t).value.1 == AncestorOffsets(base).value.1 + k
  {
    OffsetsFromShift(base, k, 0);
  }

  /** A trailing "~" and digits adds their value and strips them with the
      tilde, when the tilde is on the first line. */
  lemma TildeDigitsAdd(base: string, digits: string)
    requires NoNewline(base) && |digits| > 0 && AllDigits(digits)
    ensures AncestorOffsets(base + "~" + digits).Err? <==> AncestorOffsets(base).Err?
    ensures AncestorOffsets(base + "~" + digits).Ok? ==>
      AncestorOffsets(base + "~" + digits).value.0 == AncestorOffsets(base).value.0
    ensures AncestorOffsets(base + "~" + digits).Ok? ==>
      AncestorOffsets(base + "~" + digits).value.1 == AncestorOffsets(base).value.1 + DigitsValue(digits)
  {
    var k := DigitsValue(digits) as int;
    assert GroupValue(digits) == Some(k);
    TildeStepAdds(base, digits, k);
    ShiftedParse(base + "~" + digits, base, k);
  }

  /** A trailing "~-" and digits subtracts their value. */
  lemma TildeNegativeDigitsSubtract(base: string, digits: string)
    requires NoNewline(base) && |digits| > 0 && AllDigits(digits)
    ensures AncestorOffsets(base + "~-" + digits).Err? <==> AncestorOffsets(base).Err?
    ensures AncestorOffsets(base + "~-" + digits).Ok? ==>
      AncestorOffsets(base + "~-" + digits).value.0 == AncestorOffsets(base).value.0
    ensures AncestorOffsets(base + "~-" + digits).Ok? ==>
      AncestorOffsets(base + "~-" + digits).value.1 == AncestorOffsets(base).value.1 - DigitsValue(digits)
  {
    var k := -(DigitsValue(digits) as int);
    TildeMinusStep(base, digits, k);
    ShiftedParse(base + "~-" + digits, base, k);
  }

  lemma TildeMinusStep(base: string, digits: string, k: int)
    requires NoNewline(base) && |digits| > 0 && AllDigits(digits)
    requires k == -(DigitsValue(digits) as int)
    ensures OffsetsFrom(base + "~-" + digits, 0) == OffsetsFrom(base, k)
  {
    var g := "-" + digits;
    assert base + "~-" + digits == base + "~" + g;
    assert g[1..] == digits;
    assert !AllDigits(g) by {
      assert !IsDigit(g[0]);
    }
    assert GroupValue(g) == Some(k);
    TildeStepAdds(base, g, k);
  }

  /** A bare trailing "~" ends the loop and stays in place. */
  lemma BareTildeStays(base: string)
    ensures AncestorOffsets(base + "~") == Ok((base + "~", 0))
  {
    var s := base + "~";
    assert s[|s| - 1] == '~';
    LastTildeAfter(base, "");
    assert s[|base| + 1..] == [];
  }

  /** A trailing "~-" on the first line reaches int("-"), which raises
      ValueError out of the whole parse. */
  lemma TildeMinusRaises(base: string)
    requires NoNewline(base)
    ensures AncestorOffsets(base + "~-") == Err(ValueError)
  {
    assert base + "~-" == base + "~" + "-";
    TildeStep(base, "-", 0);
  }
}
