/** The entry point of the older jrnl/jrnl.py from the clock reading on:
    the late-night setting, the date arguments, the timestamp and read-mode
    decisions, and the loop that opens each date's entry. */
module LegacyMain {
  import opened Wrappers
  import opened Text
  import opened Calendar
  import opened DateParsing
  import opened EntryFiles
  import LegacyJournal

  /** The configuration values main consults here. */
  datatype Settings = Settings(hoursPastMidnight: int, timestampsByDefault: bool, createNewWithDates: bool)

  /** The command-line values main consults here. */
  datatype Flags = Flags(dates: seq<string>, timestamp: bool, noTimestamp: bool)

  /** What main goes on to do: exit with status 1 after "No valid dates
      given! Aborting.", stop on an exception, or open the entries of the
      dates found, in order.  Each carries the messages printed before. */
  datatype Plan =
    | Abort(messages: seq<Diagnostic>)
    | Crash(messages: seq<Diagnostic>, error: PyError)
    | Open(dates: seq<Date>, messages: seq<Diagnostic>, writeTimestamp: bool, readMode: bool)

  /** The late-night offset in days: one day back while the clock shows an
      hour before the configured one, none otherwise. */
  function LateNightOffset(hour: Hour, hoursPastMidnight: int): (late: int)
    ensures late == -1 || late == 0
    ensures late == -1 <==> hour < hoursPastMidnight
  {
    if hour < hoursPastMidnight then -1 else 0
  }

  /** One turn of main's date loop: an integer that is not positive is a
      day offset from now; anything else is read by the fuzzy parser and
      shifted by the late-night offset.  Only a ValueError of the fuzzy
      parser is caught; an overflow on either path escapes. */
  function MainResolve(s: string, today: Date, late: int, fuzzy: string -> Result<Date>): Resolution {
    var k := PyInt(s);
    if k.Some? && k.value <= 0 then
      match OffsetDate(today, k.value, late)
      case Ok(d) => Resolved(d)
      case Err(e) => Raised(e)
    else
      match fuzzy(s)
      case Ok(d) =>
        (match AddDays(d, late)
         case Ok(r) => Resolved(r)
         case Err(e) => Raised(e))
      case Err(e) => if e == ValueError then Dropped(NotAValidDate(s)) else Raised(e)
  }

  /** One turn of the date loop, in the order of its try blocks. */
  method ResolveDateString(datestring: string, today: Date, late: int, fuzzy: string -> Result<Date>)
    returns (res: Resolution)
    ensures res == MainResolve(datestring, today, late, fuzzy)
  {
    var offset := PyInt(datestring);
    if offset.Some? && offset.value <= 0 {
      var shifted := OffsetDate(today, offset.value, late);
      if shifted.Err? {
        return Raised(shifted.error);
      }
      return Resolved(shifted.value);
    }
    var fuzzed := fuzzy(datestring);
    if fuzzed.Err? {
      if fuzzed.error == ValueError {
        return Dropped(NotAValidDate(datestring));
      }
      return Raised(fuzzed.error);
    }
    var shifted := AddDays(fuzzed.value, late);
    if shifted.Err? {
      return Raised(shifted.error);
    }
    return Resolved(shifted.value);
  }

  /** The date loop over the arguments; resolve names one turn of it. */
  method CollectDates(args: seq<string>, today: Date, late: int, fuzzy: string -> Result<Date>, ghost resolve: string -> Resolution)
    returns (p: Parse)
    requires forall a :: resolve(a) == MainResolve(a, today, late, fuzzy)
    ensures p == ParseDatesSpec(args, resolve)
  {
    var dates: seq<Date> := [];
    var messages: seq<Diagnostic> := [];
    for i := 0 to |args|
      invariant ParseDatesSpec(args[..i], resolve) == Parse(dates, messages, None)
    {
      var res := ResolveDateString(args[i], today, late, fuzzy);
      assert resolve(args[i]) == res;
      ParseDatesStep(args, i, resolve, Parse(dates, messages, None));
      match res
      case Resolved(d) =>
        dates := dates + [d];
      case Dropped(m) =>
        messages := messages + [m];
      case Raised(e) =>
        RaisedStops(args, i + 1, resolve);
        return Parse(dates, messages, Some(e));
    }
    assert args[..|args|] == args;
    return Parse(dates, messages, None);
  }

  /** Whether timestamps are written: --timestamp always asks for them;
      otherwise the configured default holds unless --no-timestamp. */
  function WriteTimestampWanted(flags: Flags, settings: Settings): (r: bool)
    ensures flags.timestamp ==> r
    ensures !flags.timestamp && flags.noTimestamp ==> !r
    ensures !flags.timestamp && !flags.noTimestamp ==> r == settings.timestampsByDefault
  {
    flags.timestamp || (settings.timestampsByDefault && !flags.noTimestamp)
  }

  /** Whether only existing entries are opened: only when date arguments
      were given, and creating new entries for them is not configured. */
  function ReadModeWanted(flags: Flags, settings: Settings): (r: bool)
    ensures r ==> flags.dates != []
    ensures flags.dates != [] ==> r == !settings.createNewWithDates
  {
    flags.dates != [] && !settings.createNewWithDates
  }

  /** main's decision, given what the date loop produced: with no date
      arguments the one date is now shifted by the late-night offset. */
  function PlanOf(flags: Flags, settings: Settings, today: Date, late: int, parse: Parse): Plan {
    var writeTimestamp := WriteTimestampWanted(flags, settings);
    var readMode := ReadModeWanted(flags, settings);
    if flags.dates == [] then
      match AddDays(today, late)
      case Ok(d) => Open([d], [], writeTimestamp, readMode)
      case Err(e) => Crash([], e)
    else if parse.raised.Some? then Crash(parse.messages, parse.raised.value)
    else if parse.dates == [] then Abort(parse.messages)
    else Open(parse.dates, parse.messages, writeTimestamp, readMode)
  }

  /** main from the clock reading up to the opening loop. */
  method Decide(flags: Flags, settings: Settings, now: Moment, fuzzy: string -> Result<Date>, ghost resolve: string -> Resolution)
    returns (plan: Plan)
    requires forall a :: resolve(a) == MainResolve(a, now.date, LateNightOffset(now.hour, settings.hoursPastMidnight), fuzzy)
    ensures plan == PlanOf(flags, settings, now.date, LateNightOffset(now.hour, settings.hoursPastMidnight), ParseDatesSpec(flags.dates, resolve))
  {
    var today := now.date;
    var latenightDateOffset := 0;
    if now.hour < settings.hoursPastMidnight {
      latenightDateOffset := -1;
    }
    var dates: seq<Date>;
    var messages: seq<Diagnostic> := [];
    if flags.dates != [] {
      var p := CollectDates(flags.dates, today, latenightDateOffset, fuzzy, resolve);
      if p.raised.Some? {
        return Crash(p.messages, p.raised.value);
      }
      if p.dates == [] {
        return Abort(p.messages);
      }
      dates := p.dates;
      messages := p.messages;
    } else {
      var shifted := AddDays(today, latenightDateOffset);
      if shifted.Err? {
        return Crash([], shifted.error);
      }
      dates := [shifted.value];
    }
    var writetimestamp := flags.timestamp || (settings.timestampsByDefault && !flags.noTimestamp);
    var readmode := flags.dates != [] && !settings.createNewWithDates;
    return Open(dates, messages, writetimestamp, readmode);
  }

  /** main: decide, then open every date's entry in the journal; the
      timestamps written are those of stampTime, the moment the module was
      loaded (write_timestamp's default argument). */
  method Run(journal: Journal, flags: Flags, settings: Settings, now: Moment, stampTime: Moment, fuzzy: string -> Result<Date>,
             editor: string, ghost resolve: string -> Resolution)
    returns (plan: Plan, openings: seq<Opening>)
    requires forall a :: resolve(a) == MainResolve(a, now.date, LateNightOffset(now.hour, settings.hoursPastMidnight), fuzzy)
    modifies journal
    ensures plan == PlanOf(flags, settings, now.date, LateNightOffset(now.hour, settings.hoursPastMidnight), ParseDatesSpec(flags.dates, resolve))
    ensures plan.Open? ==>
      && journal.tree == OpenedAll(old(journal.tree), LocationsOf(plan.dates), plan.writeTimestamp, plan.readMode, StampOf(stampTime))
      && openings == OpeningsOf(journal.root, editor, old(journal.tree), LocationsOf(plan.dates), plan.writeTimestamp, plan.readMode, StampOf(stampTime))
    ensures !plan.Open? ==> journal.tree == old(journal.tree) && openings == []
  {
    plan := Decide(flags, settings, now, fuzzy, resolve);
    openings := [];
    if plan.Open? {
      openings := journal.OpenEntries(plan.dates, editor, plan.writeTimestamp, plan.readMode, stampTime);
    }
  }

  /** Arguments that are all dropped leave no date and one message each. */
  lemma {:induction false} AllDroppedLeavesNothing(args: seq<string>, resolve: string -> Resolution)
    requires forall i :: 0 <= i < |args| ==> resolve(args[i]).Dropped?
    ensures ParseDatesSpec(args, resolve).dates == []
    ensures ParseDatesSpec(args, resolve).raised.None?
    ensures |ParseDatesSpec(args, resolve).messages| == |args|
    decreases |args|
  {
    if args != [] {
      var init := args[..|args| - 1];
      assert forall i :: 0 <= i < |init| ==> init[i] == args[i];
      AllDroppedLeavesNothing(init, resolve);
    }
  }

  /** main aborts exactly when date arguments were given and the loop ran
      to the end without a date. */
  lemma AbortsWhenNoDate(flags: Flags, settings: Settings, today: Date, late: int, parse: Parse)
    ensures PlanOf(flags, settings, today, late, parse).Abort? <==>
      flags.dates != [] && parse.raised.None? && parse.dates == []
    ensures PlanOf(flags, settings, today, late, parse).Abort? ==> PlanOf(flags, settings, today, late, parse).messages == parse.messages
  {
  }

  /** When no argument names a date, main aborts after one message per argument. */
  lemma AllInvalidAborts(flags: Flags, settings: Settings, today: Date, late: int, resolve: string -> Resolution)
    requires flags.dates != []
    requires forall i :: 0 <= i < |flags.dates| ==> resolve(flags.dates[i]).Dropped?
    ensures PlanOf(flags, settings, today, late, ParseDatesSpec(flags.dates, resolve)).Abort?
    ensures |PlanOf(flags, settings, today, late, ParseDatesSpec(flags.dates, resolve)).messages| == |flags.dates|
  {
    AllDroppedLeavesNothing(flags.dates, resolve);
  }

  /** With no date arguments main opens the one entry of now, shifted by
      the late-night offset, never in read mode, and crashes only when that
      shift leaves the calendar. */
  lemma NoArgumentsOpensToday(flags: Flags, settings: Settings, today: Date, late: int, parse: Parse)
    requires flags.dates == []
    ensures 1 <= today + late <= MaxOrdinal ==>
      PlanOf(flags, settings, today, late, parse) == Open([today + late], [], WriteTimestampWanted(flags, settings), false)
    ensures !(1 <= today + late <= MaxOrdinal) ==> PlanOf(flags, settings, today, late, parse) == Crash([], OverflowError)
  {
  }

  /** Every date main opens after date arguments is what one of them
      resolved to. */
  lemma OpenedDatesAreResolved(flags: Flags, settings: Settings, today: Date, late: int, resolve: string -> Resolution, d: Date)
    requires flags.dates != []
    requires PlanOf(flags, settings, today, late, ParseDatesSpec(flags.dates, resolve)).Open?
    requires d in PlanOf(flags, settings, today, late, ParseDatesSpec(flags.dates, resolve)).dates
    ensures exists i :: 0 <= i < |flags.dates| && resolve(flags.dates[i]) == Resolved(d)
  {
    ParsedDatesComeFromArguments(flags.dates, resolve, d);
  }

  /** A day offset means the same in main as in the old parse_dates,
      crash on overflow included. */
  lemma OffsetsAgreeWithParseDates(s: string, today: Date, late: int, fuzzy: string -> Result<Date>, tree: EntryIndex.Tree)
    requires !IsHeadKeyword(s)
    requires PyInt(s).Some? && PyInt(s).value <= 0
    ensures MainResolve(s, today, late, fuzzy) == LegacyJournal.LegacyResolve(s, today, late, fuzzy, tree)
  {
  }

  /** Unlike parse_dates, main shifts a fuzzy date by the late-night
      offset too, and has no head keyword: after midnight, within the
      configured hours, a date text names the day before. */
  lemma FuzzyDatesShiftLate(s: string, today: Date, fuzzy: string -> Result<Date>, tree: EntryIndex.Tree)
    requires !IsHeadKeyword(s) && PyInt(s).None?
    requires fuzzy(s).Ok? && fuzzy(s).value >= 2
    ensures MainResolve(s, today, -1, fuzzy) == Resolved(fuzzy(s).value - 1)
    ensures LegacyJournal.LegacyResolve(s, today, -1, fuzzy, tree) == Resolved(fuzzy(s).value)
  {
  }

  /** Date arguments without the create-new setting put main in read mode,
      and then opening the entries creates no file and removes none. */
  lemma ArgumentsWithoutCreateNewCreateNothing(flags: Flags, settings: Settings, today: Date, late: int, parse: Parse,
                                               tree: EntryIndex.Tree, stamp: Stamp, other: Location)
    requires flags.dates != [] && !settings.createNewWithDates
    requires PlanOf(flags, settings, today, late, parse).Open?
    ensures var plan := PlanOf(flags, settings, today, late, parse);
      FileExists(OpenedAll(tree, LocationsOf(plan.dates), plan.writeTimestamp, plan.readMode, stamp), other) <==> FileExists(tree, other)
  {
    var plan := PlanOf(flags, settings, today, late, parse);
    assert plan.readMode;
    ReadModeCreatesNothing(tree, LocationsOf(plan.dates), plan.writeTimestamp, stamp, other);
  }

  /** With no date arguments and timestamps wanted, main leaves the entry
      of the (late-night shifted) day in the index, from the year 1000 on. */
  lemma PlainRunWritesToday(flags: Flags, settings: Settings, today: Date, late: int, parse: Parse, tree: EntryIndex.Tree, stamp: Stamp)
    requires flags.dates == [] && WriteTimestampWanted(flags, settings)
    requires 1 <= today + late <= MaxOrdinal && YearOf(today + late) >= 1000
    ensures var plan := PlanOf(flags, settings, today, late, parse);
      plan.Open? && EntryIndex.EntryOn(OpenedAll(tree, LocationsOf(plan.dates), plan.writeTimestamp, plan.readMode, stamp), today + late)
  {
    var d: Date := today + late;
    NoArgumentsOpensToday(flags, settings, today, late, parse);
    TimestampedRunIndexesAll(tree, [d], stamp, d);
  }
}
