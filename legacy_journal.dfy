/** The date parsing of the older jrnl/journal.py: the same index helpers
    and latest-entry scan as src/jrnl/journal.py, and a parse_dates without
    "@", "^" or "~" whose day offsets let an OverflowError escape. */
module LegacyJournal {
  import opened Wrappers
  import opened Text
  import opened Calendar
  import opened EntryIndex
  import opened AncestorOffsets
  import opened DateParsing

  /** One turn of the old parse_dates loop: a head keyword, then a day
      offset, then the fuzzy parser, then "is not a valid date". */
  function LegacyResolve(s: string, today: Date, late: int, fuzzy: string -> Result<Date>, tree: Tree): Resolution {
    if IsHeadKeyword(s) then
      match LatestExistingEntry(tree)
      case Ok(d) => Resolved(d)
      case Err(e) => if e == JournalHeadNotFound then Dropped(NoExistingEntry) else Raised(e)
    else
      var k := PyInt(s);
      if k.Some? && k.value <= 0 then
        match OffsetDate(today, k.value, late)
        case Ok(d) => Resolved(d)
        case Err(e) => Raised(e)
      else
        match fuzzy(s)
        case Ok(d) => Resolved(d)
        case Err(e) => if e == ValueError then Dropped(NotAValidDate(s)) else Raised(e)
  }

  /** One turn of the loop, in the order of its try blocks. */
  method ParseOne(dateString: string, today: Date, late: int, fuzzy: string -> Result<Date>, tree: Tree)
    returns (res: Resolution)
    ensures res == LegacyResolve(dateString, today, late, fuzzy, tree)
  {
    if IsHeadKeyword(dateString) {
      var head := FindLatestExistingEntry(tree);
      if head.Ok? {
        return Resolved(head.value);
      }
      if head.error == JournalHeadNotFound {
        return Dropped(NoExistingEntry);
      }
      return Raised(head.error);
    }
    var offset := PyInt(dateString);
    if offset.Some? && offset.value <= 0 {
      var shifted := OffsetDate(today, offset.value, late);
      if shifted.Err? {
        return Raised(shifted.error);
      }
      return Resolved(shifted.value);
    }
    var fuzzed := fuzzy(dateString);
    if fuzzed.Ok? {
      return Resolved(fuzzed.value);
    }
    if fuzzed.error != ValueError {
      return Raised(fuzzed.error);
    }
    return Dropped(NotAValidDate(dateString));
  }

  /** The old parse_dates: the loop over the arguments; resolve names one
      turn of it for this run. */
  method ParseDates(args: seq<string>, today: Date, late: int, fuzzy: string -> Result<Date>, tree: Tree, ghost resolve: string -> Resolution)
    returns (p: Parse)
    requires forall a :: resolve(a) == LegacyResolve(a, today, late, fuzzy, tree)
    ensures p == ParseDatesSpec(args, resolve)
  {
    var parsedDates: seq<Date> := [];
    var messages: seq<Diagnostic> := [];
    for i := 0 to |args|
      invariant ParseDatesSpec(args[..i], resolve) == Parse(parsedDates, messages, None)
    {
      var res := ParseOne(args[i], today, late, fuzzy, tree);
      assert resolve(args[i]) == res;
      ParseDatesStep(args, i, resolve, Parse(parsedDates, messages, None));
      match res
      case Resolved(d) =>
        parsedDates := parsedDates + [d];
      case Dropped(m) =>
        messages := messages + [m];
      case Raised(e) =>
        RaisedStops(args, i + 1, resolve);
        return Parse(parsedDates, messages, Some(e));
    }
    assert args[..|args|] == args;
    return Parse(parsedDates, messages, None);
  }

  /** The old and the new base-date rules agree on every string, except
      that the old one crashes with OverflowError on an offset the new one
      drops as too large. */
  lemma LegacyAgreesWithBaseDate(s: string, today: Date, late: int, fuzzy: string -> Result<Date>, tree: Tree)
    ensures BaseDate(s, today, late, fuzzy, tree).Dropped? && BaseDate(s, today, late, fuzzy, tree).diag.TooLargeOffset? ==>
      LegacyResolve(s, today, late, fuzzy, tree) == Raised(OverflowError)
    ensures !(BaseDate(s, today, late, fuzzy, tree).Dropped? && BaseDate(s, today, late, fuzzy, tree).diag.TooLargeOffset?) ==>
      LegacyResolve(s, today, late, fuzzy, tree) == BaseDate(s, today, late, fuzzy, tree)
    ensures LegacyResolve(s, today, late, fuzzy, tree) == Raised(OverflowError) <==>
      (BaseDate(s, today, late, fuzzy, tree).Dropped? && BaseDate(s, today, late, fuzzy, tree).diag.TooLargeOffset?) ||
      BaseDate(s, today, late, fuzzy, tree) == Raised(OverflowError)
  {
  }

  /** An argument with no "~", no trailing "^" and no leading "@" means
      to the new parse_dates what it meant to the old one, up to the
      overflow case above. */
  lemma PlainArgumentKeepsMeaning(s: string, today: Date, late: int, fuzzy: string -> Result<Date>, tree: Tree)
    requires !EndsWithChar(s, '^') && !StartsWithChar(s, '@')
    requires forall j :: 0 <= j < |s| ==> s[j] != '~'
    ensures ResolveArgument(s, today, late, fuzzy, tree) == BaseDate(s, today, late, fuzzy, tree)
  {
    NoSuffixUnchanged(s);
    ZeroOffsetIsBaseDate(s, today, late, fuzzy, tree);
  }

  /** Text that is neither a head keyword nor an integer is the fuzzy
      parser's to read. */
  lemma OtherTextIsFuzzy(s: string, today: Date, late: int, fuzzy: string -> Result<Date>, tree: Tree)
    requires !IsHeadKeyword(s) && PyInt(s).None?
    ensures fuzzy(s).Ok? ==> LegacyResolve(s, today, late, fuzzy, tree) == Resolved(fuzzy(s).value)
    ensures fuzzy(s) == Err(ValueError) ==> LegacyResolve(s, today, late, fuzzy, tree) == Dropped(NotAValidDate(s))
    ensures fuzzy(s).Err? && fuzzy(s) != Err(ValueError) ==> LegacyResolve(s, today, late, fuzzy, tree) == Raised(fuzzy(s).error)
  {
  }

  /** The old code knows no ancestor syntax: "head^" is neither a head
      keyword nor an integer, so OtherTextIsFuzzy hands it to the fuzzy
      parser as it stands. */
  lemma HeadCaretIsOtherText()
    ensures !IsHeadKeyword("head^") && PyInt("head^").None?
  {
    var s := "head^";
    assert Lower(s) == "head^";
    NothingToStrip(s);
    assert !IsDigit(s[0]) && s[0] != '-' && s[0] != '+';
  }
}
