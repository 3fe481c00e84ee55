/** parse_dates of src/jrnl/journal.py: turn each date argument into the
    date of the entry to open, or drop it with a message, or let an
    exception escape. */
module DateParsing {
  import opened Wrappers
  import opened Text
  import opened Calendar
  import opened Helpers
  import opened EntryIndex
  import opened AncestorOffsets

  /** The messages parse_dates prints to stderr when it drops an argument. */
  datatype Diagnostic =
    | NoExistingEntry            // "No existing journal entry found!"
    | TooLargeOffset(offset: int) // "<offset> is too large an offset!"
    | NotAValidDate(text: string) // "<text> is not a valid date!"
    | BaseNotAnEntry(arg: string) // "Base of <arg> does not correspond to an existing entry!"
    | AncestorMissing(arg: string) // "Ancestor <arg> does not exist!"

  /** What becomes of one argument: a date to open, a dropped argument and
      its message, or an exception that leaves parse_dates. */
  datatype Resolution = Resolved(date: Date) | Dropped(diag: Diagnostic) | Raised(error: PyError)

  /** date_string.lower() in ("head", "last", "latest"). */
  predicate IsHeadKeyword(s: string) {
    Lower(s) == "head" || Lower(s) == "last" || Lower(s) == "latest"
  }

  /** today + timedelta(days=k) + late_night_date_offset, either sum of
      which may overflow. */
  function OffsetDate(today: Date, k: int, late: int): (r: Result<Date>)
    ensures r.Ok? <==> 1 <= today + k <= MaxOrdinal && 1 <= today + k + late <= MaxOrdinal
    ensures r.Ok? ==> r.value == today + k + late
    ensures r.Err? ==> r.error == OverflowError
  {
    var shifted :- AddDays(today, k);
    AddDays(shifted, late)
  }

  /** The date an argument names once "@" and the ancestor offsets are off:
      the journal head for a head keyword, a day offset for an integer that
      is not positive, and otherwise what the fuzzy date parser makes of it.
      The fuzzy parser stands for dateutil.parser.parse(s, fuzzy=True).date()
      on the day of the run; it raises ValueError for text that names no
      date. */
  function BaseDate(s: string, today: Date, late: int, fuzzy: string -> Result<Date>, tree: Tree): Resolution {
    if IsHeadKeyword(s) then
      match LatestExistingEntry(tree)
      case Ok(d) => Resolved(d)
      case Err(e) => if e == JournalHeadNotFound then Dropped(NoExistingEntry) else Raised(e)
    else
      var k := PyInt(s);
      if k.Some? && k.value <= 0 then
        match OffsetDate(today, k.value, late)
        case Ok(d) => Resolved(d)
        case Err(_) => Dropped(TooLargeOffset(k.value))
      else
        match fuzzy(s)
        case Ok(d) => Resolved(d)
        case Err(e) => if e == ValueError then Dropped(NotAValidDate(s)) else Raised(e)
  }

  /** The "@" step: the existing entry closest to the date.  Its handler
      catches EntryNeighbourNotFoundException, which the lookup never
      raises, so every error of the lookup escapes. */
  function ClosestStep(d: Date, tree: Tree): Resolution {
    match FindClosestExistingEntry(tree, d)
    case Ok(c) => Resolved(c)
    case Err(e) => if e == EntryNeighbourNotFound then Resolved(d) else Raised(e)
  }

  /** The ancestor step, taken only for a non-zero offset. */
  function AncestorStep(arg: string, d: Date, offset: int, tree: Tree): Resolution {
    if offset == 0 then Resolved(d)
    else
      match FindEntrysNthAncestor(tree, d, offset)
      case Ok(a) => Resolved(a)
      case Err(e) =>
        if e == EntryArgumentNotFound then Dropped(BaseNotAnEntry(arg))
        else if e == EntryAncestorNotFound then Dropped(AncestorMissing(arg))
        else Raised(e)
  }

  /** One turn of parse_dates' loop (specification). */
  function ResolveArgument(arg: string, today: Date, late: int, fuzzy: string -> Result<Date>, tree: Tree): Resolution {
    match AncestorOffsets.AncestorOffsets(arg)
    case Err(e) => Raised(e)
    case Ok(parsed) =>
      var closest := StartsWithChar(parsed.0, '@');
      var s := if closest then parsed.0[1..] else parsed.0;
      match BaseDate(s, today, late, fuzzy, tree)
      case Resolved(d) =>
        var c := if closest then ClosestStep(d, tree) else Resolved(d);
        if c.Resolved? then AncestorStep(arg, c.date, parsed.1, tree) else c
      case other => other
  }

  /** Everything parse_dates produces: the dates so far, the messages
      printed so far, and the exception that ended it, if one did. */
  datatype Parse = Parse(dates: seq<Date>, messages: seq<Diagnostic>, raised: Option<PyError>)

  /** parse_dates (specification): the arguments in order, each resolved
      by one turn of the loop, stopping at the first exception. */
  function ParseDatesSpec(args: seq<string>, resolve: string -> Resolution): (p: Parse)
    ensures |p.dates| + |p.messages| <= |args|
  {
    if args == [] then Parse([], [], None)
    else
      var p := ParseDatesSpec(args[..|args| - 1], resolve);
      if p.raised.Some? then p
      else
        match resolve(args[|args| - 1])
        case Resolved(d) => Parse(p.dates + [d], p.messages, None)
        case Dropped(m) => Parse(p.dates, p.messages + [m], None)
        case Raised(e) => Parse(p.dates, p.messages, Some(e))
  }

  /** One turn of parse_dates' loop, step by step as the code takes it. */
  method ResolveOne(arg: string, today: Date, late: int, fuzzy: string -> Result<Date>, tree: Tree)
    returns (res: Resolution)
    ensures res == ResolveArgument(arg, today, late, fuzzy, tree)
  {
    var offsets := ParseAncestorOffsets(arg);
    if offsets.Err? {
      return Raised(offsets.error);
    }
    var dateString := offsets.value.0;
    var ancestorOffset := offsets.value.1;
    var doFindClosestEntry := StartsWithChar(dateString, '@');
    if doFindClosestEntry {
      dateString := dateString[1..];
    }
    var base := ParseBaseDate(dateString, today, late, fuzzy, tree);
    if !base.Resolved? {
      return base;
    }
    var date := base.date;
    if doFindClosestEntry {
      var closest := FindClosestExistingEntry(tree, date);
      if closest.Ok? {
        date := closest.value;
      } else if closest.error != EntryNeighbourNotFound {
        return Raised(closest.error);
      }
    }
    if ancestorOffset != 0 {
      var ancestor := FindEntrysNthAncestor(tree, date, ancestorOffset);
      if ancestor.Err? {
        if ancestor.error == EntryArgumentNotFound {
          return Dropped(BaseNotAnEntry(arg));
        }
        if ancestor.error == EntryAncestorNotFound {
          return Dropped(AncestorMissing(arg));
        }
        return Raised(ancestor.error);
      }
      date := ancestor.value;
    }
    return Resolved(date);
  }

  /** The head, day-offset and fuzzy checks of one turn, in the code's order. */
  method ParseBaseDate(dateString: string, today: Date, late: int, fuzzy: string -> Result<Date>, tree: Tree)
    returns (res: Resolution)
    ensures res == BaseDate(dateString, today, late, fuzzy, tree)
  {
    var parsedDate: Option<Date> := None;
    if IsHeadKeyword(dateString) {
      var head := FindLatestExistingEntry(tree);
      if head.Err? {
        if head.error == JournalHeadNotFound {
          return Dropped(NoExistingEntry);
        }
        return Raised(head.error);
      }
      parsedDate := Some(head.value);
    }
    if parsedDate.None? {
      var dateOffset := PyInt(dateString);
      if dateOffset.Some? && dateOffset.value <= 0 {
        var shifted := OffsetDate(today, dateOffset.value, late);
        if shifted.Err? {
          return Dropped(TooLargeOffset(dateOffset.value));
        }
        parsedDate := Some(shifted.value);
      }
    }
    if parsedDate.None? {
      var fuzzed := fuzzy(dateString);
      if fuzzed.Ok? {
        parsedDate := Some(fuzzed.value);
      } else if fuzzed.error != ValueError {
        return Raised(fuzzed.error);
      }
    }
    if parsedDate.None? {
      return Dropped(NotAValidDate(dateString));
    }
    return Resolved(parsedDate.value);
  }

  /** parse_dates: the loop over the arguments.  The ghost resolve names
      one turn of the loop for this run, so that the result can be stated
      with the generic ParseDatesSpec. */
  method ParseDates(args: seq<string>, today: Date, late: int, fuzzy: string -> Result<Date>, tree: Tree, ghost resolve: string -> Resolution)
    returns (p: Parse)
    requires forall a :: resolve(a) == ResolveArgument(a, today, late, fuzzy, tree)
    ensures p == ParseDatesSpec(args, resolve)
  {
    var dates: seq<Date> := [];
    var messages: seq<Diagnostic> := [];
    for i := 0 to |args|
      invariant ParseDatesSpec(args[..i], resolve) == Parse(dates, messages, None)
    {
      var res := ResolveOne(args[i], today, late, fuzzy, tree);
      assert resolve(args[i]) == res;
      ParseDatesStep(args, i, resolve, Parse(dates, messages, None));
      match res
      case Resolved(d) =>
        dates := dates + [d];
      case Dropped(m) =>
        messages := messages + [m];
      case Raised(e) =>
        RaisedStops(args, i + 1, resolve);
        return Parse(dates, messages, Some(e));
    }
    assert args[..|args|] == args;
    return Parse(dates, messages, None);
  }

  /** One more argument, after a prefix that raised nothing, adds its
      date, its message or its exception. */
  lemma ParseDatesStep(args: seq<string>, i: nat, resolve: string -> Resolution, p: Parse)
    requires i < |args| && ParseDatesSpec(args[..i], resolve) == p && p.raised.None?
    ensures resolve(args[i]).Resolved? ==> ParseDatesSpec(args[..i + 1], resolve) == Parse(p.dates + [resolve(args[i]).date], p.messages, None)
    ensures resolve(args[i]).Dropped? ==> ParseDatesSpec(args[..i + 1], resolve) == Parse(p.dates, p.messages + [resolve(args[i]).diag], None)
    ensures resolve(args[i]).Raised? ==> ParseDatesSpec(args[..i + 1], resolve) == Parse(p.dates, p.messages, Some(resolve(args[i]).error))
  {
    assert args[..i + 1][..i] == args[..i];
  }

  /** Arguments after one that raises are never looked at. */
  lemma {:induction false} RaisedStops(args: seq<string>, j: nat, resolve: string -> Resolution)
    requires j <= |args|
    requires ParseDatesSpec(args[..j], resolve).raised.Some?
    ensures ParseDatesSpec(args, resolve) == ParseDatesSpec(args[..j], resolve)
    decreases |args|
  {
    if j < |args| {
      var init := args[..|args| - 1];
      assert init[..j] == args[..j];
      RaisedStops(init, j, resolve);
    } else {
      assert args[..j] == args;
    }
  }

  /** Parsing a list in two parts: the second part continues from where
      the first left off, unless the first raised. */
  lemma {:induction false} ParseDatesAppend(a: seq<string>, b: seq<string>, resolve: string -> Resolution)
    ensures ParseDatesSpec(a, resolve).raised.Some? ==>
      ParseDatesSpec(a + b, resolve) == ParseDatesSpec(a, resolve)
    ensures ParseDatesSpec(a, resolve).raised.None? ==>
      var pa := ParseDatesSpec(a, resolve);
      var pb := ParseDatesSpec(b, resolve);
      ParseDatesSpec(a + b, resolve) == Parse(pa.dates + pb.dates, pa.messages + pb.messages, pb.raised)
    decreases |b|
  {
    if b == [] {
      assert a + b == a;
    } else {
      var init := b[..|b| - 1];
      ParseDatesAppend(a, init, resolve);
      assert (a + b)[..|a + b| - 1] == a + init;
      assert (a + b)[|a + b| - 1] == b[|b| - 1];
    }
  }

  /** A single argument contributes its own date or message. */
  lemma ParseDatesSingle(x: string, resolve: string -> Resolution)
    ensures resolve(x).Resolved? ==> ParseDatesSpec([x], resolve) == Parse([resolve(x).date], [], None)
    ensures resolve(x).Dropped? ==> ParseDatesSpec([x], resolve) == Parse([], [resolve(x).diag], None)
    ensures resolve(x).Raised? ==> ParseDatesSpec([x], resolve) == Parse([], [], Some(resolve(x).error))
  {
    assert [x][..0] == [];
  }

  /** Every date parse_dates returns is what one of the arguments resolved to. */
  lemma {:induction false} ParsedDatesComeFromArguments(args: seq<string>, resolve: string -> Resolution, d: Date)
    requires d in ParseDatesSpec(args, resolve).dates
    ensures exists i :: 0 <= i < |args| && resolve(args[i]) == Resolved(d)
    decreases |args|
  {
    var init := args[..|args| - 1];
    var p := ParseDatesSpec(init, resolve);
    if d in p.dates {
      ParsedDatesComeFromArguments(init, resolve, d);
      var i :| 0 <= i < |init| && resolve(init[i]) == Resolved(d);
      assert args[i] == init[i];
    } else {
      assert resolve(args[|args| - 1]) == Resolved(d);
    }
  }

  /** Lower-casing leaves a first character that is not a capital alone. */
  lemma LowerKeepsFirst(s: string)
    requires |s| > 0 && !('A' <= s[0] <= 'Z')
    ensures |Lower(s)| > 0 && Lower(s)[0] == s[0]
  {
  }

  /** An argument that starts with a digit or a minus sign is no head keyword. */
  lemma NumberIsNoKeyword(s: string)
    requires |s| > 0 && (IsDigit(s[0]) || s[0] == '-')
    ensures !IsHeadKeyword(s)
  {
    LowerKeepsFirst(s);
  }

  /** The head keywords name the latest entry: the last date of the index
      when the whole index builds, and no date at all on an empty journal. */
  lemma HeadIsLatestEntry(s: string, today: Date, late: int, fuzzy: string -> Result<Date>, tree: Tree)
    requires IsHeadKeyword(s) && AllEntryDates(tree).Ok?
    ensures AllEntryDates(tree).value == [] ==> BaseDate(s, today, late, fuzzy, tree) == Dropped(NoExistingEntry)
    ensures AllEntryDates(tree).value != [] ==>
      BaseDate(s, today, late, fuzzy, tree) == Resolved(AllEntryDates(tree).value[|AllEntryDates(tree).value| - 1])
  {
    LatestIsLastEntry(tree);
  }

  /** "-N" counts N days back from today, shifted by the late-night offset,
      and is dropped as too large an offset when that leaves the calendar. */
  lemma NegativeDayOffset(s: string, today: Date, late: int, fuzzy: string -> Result<Date>, tree: Tree)
    requires |s| > 1 && s[0] == '-' && AllDigits(s[1..])
    ensures var k := -(DigitsValue(s[1..]) as int);
      BaseDate(s, today, late, fuzzy, tree) ==
        if 1 <= today + k && 1 <= today + k + late <= MaxOrdinal then Resolved(today + k + late)
        else Dropped(TooLargeOffset(k))
  {
    var k := -(DigitsValue(s[1..]) as int);
    PyIntOfNegatedDigits(s);
    NumberIsNoKeyword(s);
    DayOffset(s, k, today, late, fuzzy, tree);
  }

  /** An integer that is not positive is a day offset. */
  lemma DayOffset(s: string, k: int, today: Date, late: int, fuzzy: string -> Result<Date>, tree: Tree)
    requires !IsHeadKeyword(s) && PyInt(s) == Some(k) && k <= 0
    ensures BaseDate(s, today, late, fuzzy, tree) ==
      if 1 <= today + k && 1 <= today + k + late <= MaxOrdinal then Resolved(today + k + late)
      else Dropped(TooLargeOffset(k))
  {
  }

  /** "0" is today, shifted by the late-night offset. */
  lemma ZeroIsToday(today: Date, late: int, fuzzy: string -> Result<Date>, tree: Tree)
    requires 1 <= today + late <= MaxOrdinal
    ensures BaseDate("0", today, late, fuzzy, tree) == Resolved(today + late)
  {
    PyIntOfDigits("0");
    NumberIsNoKeyword("0");
  }

  /** A positive number is not a day offset: it goes to the fuzzy parser. */
  lemma PositiveNumberIsFuzzy(digits: string, today: Date, late: int, fuzzy: string -> Result<Date>, tree: Tree)
    requires |digits| > 0 && AllDigits(digits) && DigitsValue(digits) > 0
    ensures fuzzy(digits).Ok? ==> BaseDate(digits, today, late, fuzzy, tree) == Resolved(fuzzy(digits).value)
    ensures fuzzy(digits) == Err(ValueError) ==> BaseDate(digits, today, late, fuzzy, tree) == Dropped(NotAValidDate(digits))
  {
    PyIntOfDigits(digits);
    NumberIsNoKeyword(digits);
  }

  /** Only text that is neither a keyword nor an integer reaches the fuzzy
      parser, and the late-night offset is not applied to what it returns. */
  lemma FuzzyOnlyForOtherText(s: string, today: Date, late: int, fuzzy: string -> Result<Date>, tree: Tree)
    requires !IsHeadKeyword(s) && PyInt(s).None?
    ensures fuzzy(s).Ok? ==> BaseDate(s, today, late, fuzzy, tree) == Resolved(fuzzy(s).value)
    ensures fuzzy(s).Err? && fuzzy(s).error != ValueError ==> BaseDate(s, today, late, fuzzy, tree) == Raised(fuzzy(s).error)
  {
  }

  /** The ancestor step resolves to the ancestor it finds, drops the
      argument when its date is not an entry, and drops it when the entry
      has no ancestor that far back; a zero offset skips the step, entry
      or not. */
  lemma AncestorStepOutcomes(arg: string, d: Date, offset: int, tree: Tree)
    ensures offset == 0 ==> AncestorStep(arg, d, offset, tree) == Resolved(d)
    ensures AncestorStep(arg, d, offset, tree) == Dropped(BaseNotAnEntry(arg)) <==>
      offset != 0 && AllEntryDates(tree).Ok? && !EntryOn(tree, d)
    ensures AncestorStep(arg, d, offset, tree) == Raised(ValueError) <==>
      offset != 0 && AllEntryDates(tree).Err?
    ensures offset != 0 && AncestorStep(arg, d, offset, tree).Resolved? ==>
      EntryOn(tree, AncestorStep(arg, d, offset, tree).date)
    ensures offset != 0 ==> (AncestorStep(arg, d, offset, tree) == Dropped(AncestorMissing(arg)) <==>
      FindEntrysNthAncestor(tree, d, offset) == Err(EntryAncestorNotFound))
    ensures offset != 0 && FindEntrysNthAncestor(tree, d, offset).Ok? ==>
      AncestorStep(arg, d, offset, tree) == Resolved(FindEntrysNthAncestor(tree, d, offset).value)
  {
    if offset != 0 {
      var r := FindEntrysNthAncestor(tree, d, offset);
      var step := AncestorStep(arg, d, offset, tree);
      if r.Ok? {
        assert step == Resolved(r.value);
      } else if r.error == EntryArgumentNotFound {
        assert step == Dropped(BaseNotAnEntry(arg));
      } else if r.error == EntryAncestorNotFound {
        assert step == Dropped(AncestorMissing(arg));
      } else {
        assert step == Raised(r.error);
      }
    }
  }

  /** The "@" step never keeps the date it was given: its handler is for
      an exception the lookup does not raise, so the step either lands on
      an existing entry or lets the lookup's exception escape. */
  lemma ClosestStepOutcomes(d: Date, tree: Tree)
    ensures ClosestStep(d, tree).Resolved? <==> FindClosestExistingEntry(tree, d).Ok?
    ensures ClosestStep(d, tree).Resolved? ==> EntryOn(tree, ClosestStep(d, tree).date)
    ensures ClosestStep(d, tree) == Raised(EntryAncestorNotFound) <==> AllEntryDates(tree) == Ok([])
    ensures !ClosestStep(d, tree).Dropped?
  {
  }

  /** "@" on a journal without entries raises EntryAncestorNotFoundException
      out of parse_dates instead of printing that no entry exists. */
  lemma ClosestOnEmptyJournalRaises(arg: string, today: Date, late: int, fuzzy: string -> Result<Date>, tree: Tree)
    requires AncestorOffsets.AncestorOffsets(arg).Ok?
    requires StartsWithChar(AncestorOffsets.AncestorOffsets(arg).value.0, '@')
    requires BaseDate(AncestorOffsets.AncestorOffsets(arg).value.0[1..], today, late, fuzzy, tree).Resolved?
    requires AllEntryDates(tree) == Ok([])
    ensures ResolveArgument(arg, today, late, fuzzy, tree) == Raised(EntryAncestorNotFound)
  {
    var d := BaseDate(AncestorOffsets.AncestorOffsets(arg).value.0[1..], today, late, fuzzy, tree).date;
    ClosestStepOutcomes(d, tree);
  }

  /** Without "@" and with offsets that add up to zero, the argument is its
      base date, whether or not an entry exists for it. */
  lemma ZeroOffsetIsBaseDate(arg: string, today: Date, late: int, fuzzy: string -> Result<Date>, tree: Tree)
    requires AncestorOffsets.AncestorOffsets(arg).Ok?
    requires AncestorOffsets.AncestorOffsets(arg).value.1 == 0
    requires !StartsWithChar(AncestorOffsets.AncestorOffsets(arg).value.0, '@')
    ensures ResolveArgument(arg, today, late, fuzzy, tree) ==
      BaseDate(AncestorOffsets.AncestorOffsets(arg).value.0, today, late, fuzzy, tree)
  {
  }

  /** "~0" after an argument without offsets changes nothing. */
  lemma TildeZeroChangesNothing(base: string, today: Date, late: int, fuzzy: string -> Result<Date>, tree: Tree)
    requires NoNewline(base) && AncestorOffsets.AncestorOffsets(base) == Ok((base, 0))
    ensures ResolveArgument(base + "~0", today, late, fuzzy, tree) == ResolveArgument(base, today, late, fuzzy, tree)
  {
    var t := base + "~0";
    assert t == base + "~" + "0";
    assert DigitsValue("0") == 0;
    TildeDigitsAdd(base, "0");
    var v := AncestorOffsets.AncestorOffsets(t).value;
    assert v.0 == base && v.1 == 0;
    assert AncestorOffsets.AncestorOffsets(t) == Ok((base, 0));
  }

  /** An argument that asks for "@" or a non-zero offset resolves only to
      dates that have entries. */
  lemma StepsLandOnEntries(arg: string, today: Date, late: int, fuzzy: string -> Result<Date>, tree: Tree)
    requires AncestorOffsets.AncestorOffsets(arg).Ok?
    requires AncestorOffsets.AncestorOffsets(arg).value.1 != 0 || StartsWithChar(AncestorOffsets.AncestorOffsets(arg).value.0, '@')
    requires ResolveArgument(arg, today, late, fuzzy, tree).Resolved?
    ensures EntryOn(tree, ResolveArgument(arg, today, late, fuzzy, tree).date)
  {
    var parsed := AncestorOffsets.AncestorOffsets(arg).value;
    var closest := StartsWithChar(parsed.0, '@');
    var s := if closest then parsed.0[1..] else parsed.0;
    var d := BaseDate(s, today, late, fuzzy, tree).date;
    ClosestStepOutcomes(d, tree);
    var c := if closest then ClosestStep(d, tree) else Resolved(d);
    AncestorStepOutcomes(arg, c.date, parsed.1, tree);
  }

  /** An argument whose base is "head" resolves from the latest entry. */
  lemma HeadResolvesFromLatest(arg: string, n: int, today: Date, late: int, fuzzy: string -> Result<Date>, tree: Tree)
    requires AncestorOffsets.AncestorOffsets(arg) == Ok(("head", n))
    ensures LatestExistingEntry(tree).Ok? ==>
      ResolveArgument(arg, today, late, fuzzy, tree) == AncestorStep(arg, LatestExistingEntry(tree).value, n, tree)
    ensures LatestExistingEntry(tree) == Err(JournalHeadNotFound) ==>
      ResolveArgument(arg, today, late, fuzzy, tree) == Dropped(NoExistingEntry)
  {
    assert IsHeadKeyword("head");
  }

  /** One step back from the last entry of an index without repeats. */
  lemma StepBackFromLast(arg: string, tree: Tree, e: seq<Date>)
    requires AllEntryDates(tree) == Ok(e) && StrictlyIncreasing(e) && e != []
    ensures |e| >= 2 ==> AncestorStep(arg, e[|e| - 1], 1, tree) == Resolved(e[|e| - 2])
    ensures |e| == 1 ==> AncestorStep(arg, e[|e| - 1], 1, tree) == Dropped(AncestorMissing(arg))
  {
    StepBackFromLastDate(e);
    AncestorInListing(tree, e[|e| - 1], 1);
  }

  /** "head^" parses as "head" one step back. */
  lemma HeadCaretOffsets()
    ensures AncestorOffsets.AncestorOffsets("head^") == Ok(("head", 1))
  {
    assert "head^" == "head" + "^";
    NoSuffixUnchanged("head");
    CaretAddsOne("head");
  }

  /** An argument that parses as "head" one step back, on an index without
      repeated dates: the entry before the latest one, a message when there
      is only one entry, and the "no existing entry" message on an empty
      journal. */
  lemma HeadOneBack(arg: string, today: Date, late: int, fuzzy: string -> Result<Date>, tree: Tree, e: seq<Date>)
    requires AncestorOffsets.AncestorOffsets(arg) == Ok(("head", 1))
    requires AllEntryDates(tree) == Ok(e) && StrictlyIncreasing(e)
    ensures |e| >= 2 ==> ResolveArgument(arg, today, late, fuzzy, tree) == Resolved(e[|e| - 2])
    ensures |e| == 1 ==> ResolveArgument(arg, today, late, fuzzy, tree) == Dropped(AncestorMissing(arg))
    ensures e == [] ==> ResolveArgument(arg, today, late, fuzzy, tree) == Dropped(NoExistingEntry)
  {
    HeadResolvesFromLatest(arg, 1, today, late, fuzzy, tree);
    LatestIsLastEntry(tree);
    if e != [] {
      var last := e[|e| - 1];
      assert LatestExistingEntry(tree) == Ok(last);
      StepBackFromLast(arg, tree, e);
      assert ResolveArgument(arg, today, late, fuzzy, tree) == AncestorStep(arg, last, 1, tree);
    }
  }

  /** "head^" is the entry before the latest one. */
  lemma HeadCaretIsPreviousEntry(today: Date, late: int, fuzzy: string -> Result<Date>, tree: Tree, e: seq<Date>)
    requires AllEntryDates(tree) == Ok(e) && StrictlyIncreasing(e)
    ensures |e| >= 2 ==> ResolveArgument("head^", today, late, fuzzy, tree) == Resolved(e[|e| - 2])
    ensures |e| == 1 ==> ResolveArgument("head^", today, late, fuzzy, tree) == Dropped(AncestorMissing("head^"))
    ensures e == [] ==> ResolveArgument("head^", today, late, fuzzy, tree) == Dropped(NoExistingEntry)
  {
    HeadCaretOffsets();
    HeadOneBack("head^", today, late, fuzzy, tree, e);
  }
}
