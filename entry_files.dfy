/** The entry files of the journal: write_timestamp and open_entry, which
    the three copies of src/jrnl/journal.py, jrnl/journal.py and
    jrnl/jrnl.py spell out identically.  The journal directory is a Tree
    held by a Journal object whose methods update it in place. */
module EntryFiles {
  import opened Wrappers
  import opened Text
  import opened Calendar
  import opened EntryIndex

  type Hour = h: int | 0 <= h < 24
  type Minute = m: int | 0 <= m < 60

  /** The datetime.datetime a timestamp is written for: its date and its
      hour and minute (strftime "%H:%M" shows nothing finer). */
  datatype Moment = Moment(date: Date, hour: Hour, minute: Minute)

  /** The line break write_timestamp puts before a new timestamp: none when
      the text already ends with an empty line. */
  function Separator(text: string): (r: string)
    ensures r == [] <==> EndsWith(text, "\n\n")
    ensures r == [] || r == "\n"
  {
    if EndsWith(text, "\n\n") then "" else "\n"
  }

  /** The text of an entry file after write_timestamp: a new file holds
      the date and the time on a line each; an existing one keeps its text
      and gets a separating line break, the date line only if the date is
      nowhere in the text yet, the time line and an empty line. */
  function Timestamped(existing: Option<string>, date: string, time: string): (r: string)
    ensures existing.None? ==> r == date + "\n" + time + "\n"
  {
    match existing
    case None => date + "\n" + time + "\n"
    case Some(text) =>
      text + Separator(text) + (if Occurs(date, text) then "" else date + "\n") + time + "\n\n"
  }

  /** The text of a file of a directory, None when there is no such file. */
  function FileText(files: map<string, string>, name: string): (r: Option<string>)
    ensures r.Some? <==> name in files
    ensures r.Some? ==> r.value == files[name]
  {
    if name in files then Some(files[name]) else None
  }

  /** os.path.join(a, b) for a relative b: a separator unless a is empty or
      already ends with one. */
  function Join(a: string, b: string): string {
    if a == [] || EndsWithChar(a, '/') then a + b else a + "/" + b
  }

  /** The joined path starts with the first part and ends with the second,
      with exactly one separator between them when the first is not empty. */
  lemma JoinKeepsParts(a: string, b: string)
    ensures StartsWith(Join(a, b), a) && EndsWith(Join(a, b), b)
    ensures a != [] ==> EndsWithChar(Join(a, b)[..|Join(a, b)| - |b|], '/')
    ensures a != [] && !EndsWithChar(a, '/') ==> |Join(a, b)| == |a| + 1 + |b|
  {
    var r := Join(a, b);
    assert r[..|a|] == a;
    assert r[|r| - |b|..] == b;
  }

  /** str(date.year): the year directory of an entry. */
  function EntryDirectory(d: Date): (r: string)
    ensures |r| > 0 && AllDigits(r)
  {
    Decimal(YearOf(d))
  }

  /** date.strftime("%Y-%m-%d") + ".txt": the file name of an entry. */
  function EntryFileName(d: Date): (r: string)
    ensures |r| == 14
  {
    IsoDate(d) + ".txt"
  }

  /** Where an entry lives: its directory under the journal root and its
      file name there. */
  datatype Location = Location(dir: string, name: string)

  /** The location open_entry computes for a date. */
  function LocationOf(d: Date): (r: Location)
    ensures |r.name| == 14
  {
    Location(EntryDirectory(d), EntryFileName(d))
  }

  /** The path open_entry builds for an entry under the journal root. */
  function EntryPath(root: string, loc: Location): string {
    Join(Join(root, loc.dir), loc.name)
  }

  /** The date and time lines a timestamp writes: strftime "%Y-%m-%d" and "%H:%M". */
  datatype Stamp = Stamp(date: string, time: string)

  function StampOf(now: Moment): (r: Stamp)
    ensures |r.date| == 10 && StartsIsoShape(r.date) && StrptimeIso(r.date) == Ok(now.date)
    ensures |r.time| == 5 && r.time[2] == ':'
    ensures IsDigit(r.time[0]) && IsDigit(r.time[1]) && DigitValue(r.time[0]) * 10 + DigitValue(r.time[1]) == now.hour
    ensures IsDigit(r.time[3]) && IsDigit(r.time[4]) && DigitValue(r.time[3]) * 10 + DigitValue(r.time[4]) == now.minute
  {
    IsoDateRoundTrip(now.date);
    Stamp(IsoDate(now.date), ClockTime(now.hour, now.minute))
  }

  /** os.path.exists(entry_path) for the files the tree holds. */
  predicate FileExists(tree: Tree, loc: Location) {
    loc.dir in tree && loc.name in tree[loc.dir]
  }

  /** The tree after write_timestamp for a file; a missing directory makes
      open() raise FileNotFoundError. */
  function StampedTree(tree: Tree, loc: Location, stamp: Stamp): (r: Result<Tree>)
    ensures r.Ok? <==> loc.dir in tree
    ensures r.Err? ==> r.error == FileNotFoundError
  {
    if loc.dir !in tree then Err(FileNotFoundError)
    else
      var text := Timestamped(FileText(tree[loc.dir], loc.name), stamp.date, stamp.time);
      Ok(tree[loc.dir := tree[loc.dir][loc.name := text]])
  }

  /** write_timestamp touches one file: every other directory and every
      other file keep their text, and the file gets the timestamped text. */
  lemma StampTouchesOnlyItsFile(tree: Tree, loc: Location, stamp: Stamp)
    requires loc.dir in tree
    ensures var r := StampedTree(tree, loc, stamp).value;
      && r.Keys == tree.Keys
      && (forall y :: y in tree && y != loc.dir ==> r[y] == tree[y])
      && r[loc.dir].Keys == tree[loc.dir].Keys + {loc.name}
      && (forall n :: n in tree[loc.dir] && n != loc.name ==> r[loc.dir][n] == tree[loc.dir][n])
      && r[loc.dir][loc.name] == Timestamped(FileText(tree[loc.dir], loc.name), stamp.date, stamp.time)
  {
  }

  /** What open_entry ends with: the message that the entry does not exist,
      or the editor command it runs on the entry. */
  datatype Opening = Missing(path: string) | Edited(command: seq<string>)

  /** Whether open_entry stops at the read-mode check. */
  predicate StopsInReadMode(tree: Tree, loc: Location, readMode: bool) {
    readMode && !FileExists(tree, loc)
  }

  /** The tree after open_entry, before the editor runs: nothing in read
      mode when the entry is missing; otherwise the directory made if it is
      missing and, when asked for, the timestamp. */
  function OpenedTree(tree: Tree, loc: Location, doTimestamp: bool, readMode: bool, stamp: Stamp): (r: Tree)
    ensures !StopsInReadMode(tree, loc, readMode) ==> loc.dir in r
  {
    if StopsInReadMode(tree, loc, readMode) then tree
    else
      var made := if loc.dir in tree then tree else tree[loc.dir := map[]];
      if doTimestamp then StampedTree(made, loc, stamp).value else made
  }

  lemma OpenedTreeMade(tree: Tree, made: Tree, loc: Location, doTimestamp: bool, readMode: bool, stamp: Stamp)
    requires !StopsInReadMode(tree, loc, readMode)
    requires made == if loc.dir in tree then tree else tree[loc.dir := map[]]
    ensures loc.dir in made
    ensures OpenedTree(tree, loc, doTimestamp, readMode, stamp) == if doTimestamp then StampedTree(made, loc, stamp).value else made
  {
  }

  /** What open_entry reports or runs. */
  function OpeningOf(root: string, editor: string, tree: Tree, loc: Location, readMode: bool): (r: Opening)
    ensures r.Missing? <==> StopsInReadMode(tree, loc, readMode)
    ensures r.Missing? ==> r.path == EntryPath(root, loc)
    ensures r.Edited? ==> r.command == [editor, EntryPath(root, loc)]
  {
    if StopsInReadMode(tree, loc, readMode) then Missing(EntryPath(root, loc))
    else Edited([editor, EntryPath(root, loc)])
  }

  /** The locations of a list of dates, in order. */
  function LocationsOf(ds: seq<Date>): (r: seq<Location>)
    ensures |r| == |ds|
  {
    if ds == [] then [] else LocationsOf(ds[..|ds| - 1]) + [LocationOf(ds[|ds| - 1])]
  }

  lemma {:induction false} LocationsOfAt(ds: seq<Date>, i: nat)
    requires i < |ds|
    ensures LocationsOf(ds)[i] == LocationOf(ds[i])
  {
    if i < |ds| - 1 {
      var init := ds[..|ds| - 1];
      LocationsOfAt(init, i);
      assert init[i] == ds[i];
    }
  }

  lemma PrefixGrows<T>(s: seq<T>, i: nat)
    requires i < |s|
    ensures s[..i + 1] == s[..i] + [s[i]]
  {
  }

  /** The loop of the entry point over the entries to open, in order; each
      call sees the tree the previous one left. */
  function OpenedAll(tree: Tree, locs: seq<Location>, doTimestamp: bool, readMode: bool, stamp: Stamp): Tree
  {
    if locs == [] then tree
    else OpenedTree(OpenedAll(tree, locs[..|locs| - 1], doTimestamp, readMode, stamp), locs[|locs| - 1], doTimestamp, readMode, stamp)
  }

  function OpeningsOf(root: string, editor: string, tree: Tree, locs: seq<Location>, doTimestamp: bool, readMode: bool, stamp: Stamp): (r: seq<Opening>)
    ensures |r| == |locs|
  {
    if locs == [] then []
    else
      var init := locs[..|locs| - 1];
      OpeningsOf(root, editor, tree, init, doTimestamp, readMode, stamp)
        + [OpeningOf(root, editor, OpenedAll(tree, init, doTimestamp, readMode, stamp), locs[|locs| - 1], readMode)]
  }

  /** One more entry opened, from the tree the earlier ones left. */
  lemma OpenedAllStep(root: string, editor: string, tree: Tree, locs: seq<Location>, loc: Location, doTimestamp: bool, readMode: bool, stamp: Stamp)
    ensures OpenedAll(tree, locs + [loc], doTimestamp, readMode, stamp) ==
      OpenedTree(OpenedAll(tree, locs, doTimestamp, readMode, stamp), loc, doTimestamp, readMode, stamp)
    ensures OpeningsOf(root, editor, tree, locs + [loc], doTimestamp, readMode, stamp) ==
      OpeningsOf(root, editor, tree, locs, doTimestamp, readMode, stamp)
        + [OpeningOf(root, editor, OpenedAll(tree, locs, doTimestamp, readMode, stamp), loc, readMode)]
  {
    assert (locs + [loc])[..|locs|] == locs;
  }

  /** The journal's base directory, changed in place by the entry operations. */
  class Journal {
    const root: string
    var tree: Tree

    constructor (root: string, tree: Tree)
      ensures this.root == root && this.tree == tree
    {
      this.root := root;
      this.tree := tree;
    }

    /** write_timestamp on the file at loc. */
    method WriteTimestamp(loc: Location, now: Moment) returns (error: Option<PyError>)
      modifies this
      ensures var s := StampedTree(old(tree), loc, StampOf(now));
        if s.Ok? then error.None? && tree == s.value else error == Some(s.error) && tree == old(tree)
    {
      var thisDate := IsoDate(now.date);
      var thisTime := ClockTime(now.hour, now.minute);
      if loc.dir !in tree {
        return Some(FileNotFoundError);
      }
      var files := tree[loc.dir];
      if loc.name !in files {
        files := files[loc.name := thisDate + "\n" + thisTime + "\n"];
      } else {
        var entryText := files[loc.name];
        var printDate := !Occurs(thisDate, entryText);
        var printNewline := !EndsWith(entryText, "\n\n");
        var newText := entryText + (if printNewline then "\n" else "")
          + (if printDate then thisDate + "\n" else "") + thisTime + "\n\n";
        files := files[loc.name := newText];
      }
      tree := tree[loc.dir := files];
      return None;
    }

    /** open_entry, up to the editor it starts; the timestamp is that of
        `now`, which stands for the default argument of write_timestamp. */
    method OpenEntry(d: Date, editor: string, doTimestamp: bool, readMode: bool, now: Moment)
      returns (opening: Opening)
      modifies this
      ensures tree == OpenedTree(old(tree), LocationOf(d), doTimestamp, readMode, StampOf(now))
      ensures opening == OpeningOf(root, editor, old(tree), LocationOf(d), readMode)
    {
      opening := OpenAt(LocationOf(d), editor, doTimestamp, readMode, now);
    }

    /** The steps of open_entry once the entry's location is known. */
    method OpenAt(loc: Location, editor: string, doTimestamp: bool, readMode: bool, now: Moment)
      returns (opening: Opening)
      modifies this
      ensures tree == OpenedTree(old(tree), loc, doTimestamp, readMode, StampOf(now))
      ensures opening == OpeningOf(root, editor, old(tree), loc, readMode)
    {
      var yearDirPath := Join(root, loc.dir);
      var entryPath := Join(yearDirPath, loc.name);
      var entryExists := loc.dir in tree && loc.name in tree[loc.dir];
      if readMode && !entryExists {
        return Missing(entryPath);
      }
      if loc.dir !in tree {
        tree := tree[loc.dir := map[]];
      }
      ghost var made := tree;
      ghost var stamp := StampOf(now);
      assert made == if loc.dir in old(tree) then old(tree) else old(tree)[loc.dir := map[]];
      OpenedTreeMade(old(tree), made, loc, doTimestamp, readMode, stamp);
      if doTimestamp {
        var error := WriteTimestamp(loc, now);
      }
      return Edited([editor, entryPath]);
    }

    /** The entry point's loop that opens each date's entry in turn. */
    method OpenEntries(ds: seq<Date>, editor: string, doTimestamp: bool, readMode: bool, now: Moment)
      returns (openings: seq<Opening>)
      modifies this
      ensures tree == OpenedAll(old(tree), LocationsOf(ds), doTimestamp, readMode, StampOf(now))
      ensures openings == OpeningsOf(root, editor, old(tree), LocationsOf(ds), doTimestamp, readMode, StampOf(now))
    {
      ghost var locs := LocationsOf(ds);
      ghost var stamp := StampOf(now);
      openings := [];
      assert locs[..0] == [];
      for i := 0 to |ds|
        invariant tree == OpenedAll(old(tree), locs[..i], doTimestamp, readMode, stamp)
        invariant openings == OpeningsOf(root, editor, old(tree), locs[..i], doTimestamp, readMode, stamp)
      {
        PrefixGrows(locs, i);
        LocationsOfAt(ds, i);
        OpenedAllStep(root, editor, old(tree), locs[..i], locs[i], doTimestamp, readMode, stamp);
        ghost var before := tree;
        var opening := OpenEntry(ds[i], editor, doTimestamp, readMode, now);
        assert tree == OpenedTree(before, locs[i], doTimestamp, readMode, stamp);
        assert opening == OpeningOf(root, editor, before, locs[i], readMode);
        openings := openings + [opening];
      }
      assert locs[..|ds|] == locs;
    }
  }

  /** write_timestamp only appends: the old text stays in front. */
  lemma StampKeepsText(text: string, date: string, time: string)
    ensures StartsWith(Timestamped(Some(text), date, time), text)
  {
    var r := Timestamped(Some(text), date, time);
    assert r == text + (Separator(text) + (if Occurs(date, text) then "" else date + "\n") + time + "\n\n");
  }

  /** A timestamped file ends its last line, and an existing one ends with
      an empty line. */
  lemma StampEndsLines(existing: Option<string>, date: string, time: string)
    ensures EndsWithChar(Timestamped(existing, date, time), '\n')
    ensures existing.Some? ==> EndsWith(Timestamped(existing, date, time), "\n\n")
  {
    var r := Timestamped(existing, date, time);
    if existing.Some? {
      var text := existing.value;
      var head := text + Separator(text) + (if Occurs(date, text) then "" else date + "\n") + time;
      assert r == head + "\n\n";
      assert r[|r| - 2..] == "\n\n";
    }
  }

  /** After a timestamp the file names the date. */
  lemma StampNamesDate(existing: Option<string>, date: string, time: string)
    ensures Occurs(date, Timestamped(existing, date, time))
  {
    match existing
    case None =>
      OccursBetween(date, "", "\n" + time + "\n");
      assert "" + date + ("\n" + time + "\n") == Timestamped(existing, date, time);
    case Some(text) =>
      var r := Timestamped(existing, date, time);
      if Occurs(date, text) {
        OccursInPrefix(date, text, r[|text|..]);
        assert text + r[|text|..] == r;
      } else {
        var before := text + Separator(text);
        OccursBetween(date, before, "\n" + time + "\n\n");
        assert before + date + ("\n" + time + "\n\n") == r;
      }
  }

  /** The date line is left out exactly when the date is in the text already. */
  lemma DateLineOnlyWhenAbsent(text: string, date: string, time: string)
    ensures Timestamped(Some(text), date, time) == text + Separator(text) + time + "\n\n" <==> Occurs(date, text)
  {
    if !Occurs(date, text) {
      assert |Timestamped(Some(text), date, time)| == |text + Separator(text) + time + "\n\n"| + |date| + 1;
    }
  }

  /** A second timestamp for the same day writes no second date line; after
      a stamp on an existing file it adds no line break either. */
  lemma SecondStampAddsNoDate(existing: Option<string>, date: string, first: string, second: string)
    ensures var t := Timestamped(existing, date, first);
      Timestamped(Some(t), date, second) == t + Separator(t) + second + "\n\n"
    ensures existing.Some? ==> Separator(Timestamped(existing, date, first)) == []
  {
    StampNamesDate(existing, date, first);
    StampEndsLines(existing, date, first);
  }

  /** An empty line separates the old text from the new timestamp exactly
      when the old text ends its last line; text without a final line break
      gets the timestamp on the very next line. */
  lemma BlankLineBeforeStamp(text: string)
    ensures EndsWith(text + Separator(text), "\n\n") <==> EndsWithChar(text, '\n')
  {
    var t := text + Separator(text);
    if EndsWith(text, "\n\n") {
      assert t == text;
      assert text[|text| - 2..][1] == text[|text| - 1];
    } else {
      assert t == text + "\n";
      if EndsWith(t, "\n\n") {
        assert t[|t| - 2] == text[|text| - 1];
      }
      if EndsWithChar(text, '\n') {
        assert t[|t| - 2..] == [text[|text| - 1], '\n'];
      }
    }
  }

  /** The file name of an entry spells its date the way the index reads it. */
  lemma EntryNameSpellsDate(d: Date)
    ensures MatchesEntryPattern(EntryFileName(d))
    ensures EntryNameDate(EntryFileName(d)) == Ok(d)
  {
    IsoDateRoundTrip(d);
    var name := EntryFileName(d);
    assert name[..|name| - 4] == IsoDate(d);
  }

  /** The year directory of a year from 1000 on is one the index looks in;
      that of an earlier year (str() writes no leading zeros) is not. */
  lemma YearDirectoryIsIndexed(d: Date)
    ensures IsYearDirectoryName(EntryDirectory(d)) <==> YearOf(d) >= 1000
  {
    DecimalLength(YearOf(d));
  }

  /** In read mode a missing entry is reported and the journal is left as it was. */
  lemma ReadModeLeavesMissingEntryAlone(root: string, editor: string, tree: Tree, loc: Location, doTimestamp: bool, stamp: Stamp)
    requires !FileExists(tree, loc)
    ensures OpenedTree(tree, loc, doTimestamp, true, stamp) == tree
    ensures OpeningOf(root, editor, tree, loc, true) == Missing(EntryPath(root, loc))
  {
  }

  /** open_entry touches the entry's directory and, with a timestamp, its
      file; everything else keeps its text. */
  lemma OpenTouchesOnlyItsEntry(tree: Tree, loc: Location, doTimestamp: bool, readMode: bool, stamp: Stamp)
    ensures var r := OpenedTree(tree, loc, doTimestamp, readMode, stamp);
      r.Keys == if StopsInReadMode(tree, loc, readMode) then tree.Keys else tree.Keys + {loc.dir}
    ensures var r := OpenedTree(tree, loc, doTimestamp, readMode, stamp);
      forall y :: y in tree && y != loc.dir ==> r[y] == tree[y]
    ensures var r := OpenedTree(tree, loc, doTimestamp, readMode, stamp);
      forall n :: loc.dir in tree && n in tree[loc.dir] && n != loc.name ==> r[loc.dir][n] == tree[loc.dir][n]
    ensures var r := OpenedTree(tree, loc, doTimestamp, readMode, stamp);
      loc.dir in tree ==> r[loc.dir].Keys <= tree[loc.dir].Keys + {loc.name}
    ensures !doTimestamp ==> var r := OpenedTree(tree, loc, doTimestamp, readMode, stamp);
      forall y :: y in tree ==> r[y] == tree[y]
  {
    if !StopsInReadMode(tree, loc, readMode) && doTimestamp {
      var made := if loc.dir in tree then tree else tree[loc.dir := map[]];
      StampTouchesOnlyItsFile(made, loc, stamp);
    }
  }

  /** With a timestamp, open_entry leaves the entry's file in place with
      the stamp appended, whatever date the entry is for. */
  lemma TimestampWritesEntry(tree: Tree, loc: Location, readMode: bool, stamp: Stamp)
    requires !StopsInReadMode(tree, loc, readMode)
    ensures FileExists(OpenedTree(tree, loc, true, readMode, stamp), loc)
    ensures var before := if loc.dir in tree then FileText(tree[loc.dir], loc.name) else None;
      OpenedTree(tree, loc, true, readMode, stamp)[loc.dir][loc.name] == Timestamped(before, stamp.date, stamp.time)
  {
    var made := if loc.dir in tree then tree else tree[loc.dir := map[]];
    StampTouchesOnlyItsFile(made, loc, stamp);
  }

  /** A file at a date's location, from the year 1000 on, is an entry the
      index lists for that date. */
  lemma LocatedFileIsEntry(tree: Tree, d: Date)
    requires FileExists(tree, LocationOf(d)) && YearOf(d) >= 1000
    ensures EntryOn(tree, d)
  {
    YearDirectoryIsIndexed(d);
    EntryNameSpellsDate(d);
    assert NamedIn(tree[LocationOf(d).dir], d);
  }

  /** A timestamped entry from the year 1000 on is one the index lists. */
  lemma TimestampedEntryIsIndexed(tree: Tree, d: Date, readMode: bool, stamp: Stamp)
    requires !StopsInReadMode(tree, LocationOf(d), readMode) && YearOf(d) >= 1000
    ensures EntryOn(OpenedTree(tree, LocationOf(d), true, readMode, stamp), d)
  {
    TimestampWritesEntry(tree, LocationOf(d), readMode, stamp);
    LocatedFileIsEntry(OpenedTree(tree, LocationOf(d), true, readMode, stamp), d);
  }

  /** No file disappears when an entry is opened. */
  lemma OpenKeepsFiles(tree: Tree, loc: Location, doTimestamp: bool, readMode: bool, stamp: Stamp, other: Location)
    requires FileExists(tree, other)
    ensures FileExists(OpenedTree(tree, loc, doTimestamp, readMode, stamp), other)
  {
    OpenTouchesOnlyItsEntry(tree, loc, doTimestamp, readMode, stamp);
    if other.dir == loc.dir && !StopsInReadMode(tree, loc, readMode) && doTimestamp {
      var made := if loc.dir in tree then tree else tree[loc.dir := map[]];
      StampTouchesOnlyItsFile(made, loc, stamp);
    }
  }

  /** In read mode open_entry creates no file and no directory. */
  lemma ReadModeStepCreatesNothing(tree: Tree, loc: Location, doTimestamp: bool, stamp: Stamp, other: Location)
    ensures OpenedTree(tree, loc, doTimestamp, true, stamp).Keys == tree.Keys
    ensures FileExists(OpenedTree(tree, loc, doTimestamp, true, stamp), other) <==> FileExists(tree, other)
  {
    if FileExists(tree, loc) && doTimestamp {
      StampTouchesOnlyItsFile(tree, loc, stamp);
    }
  }

  /** Read mode creates no entry file and no directory, however many
      entries are opened. */
  lemma {:induction false} ReadModeCreatesNothing(tree: Tree, locs: seq<Location>, doTimestamp: bool, stamp: Stamp, other: Location)
    ensures OpenedAll(tree, locs, doTimestamp, true, stamp).Keys == tree.Keys
    ensures FileExists(OpenedAll(tree, locs, doTimestamp, true, stamp), other) <==> FileExists(tree, other)
  {
    if locs != [] {
      var init := locs[..|locs| - 1];
      ReadModeCreatesNothing(tree, init, doTimestamp, stamp, other);
      ReadModeStepCreatesNothing(OpenedAll(tree, init, doTimestamp, true, stamp), locs[|locs| - 1], doTimestamp, stamp, other);
    }
  }

  /** Outside read mode, with timestamps, every entry opened ends up with
      a file. */
  lemma {:induction false} TimestampedRunWritesAll(tree: Tree, locs: seq<Location>, stamp: Stamp, loc: Location)
    requires loc in locs
    ensures FileExists(OpenedAll(tree, locs, true, false, stamp), loc)
  {
    var init := locs[..|locs| - 1];
    var last := locs[|locs| - 1];
    var before := OpenedAll(tree, init, true, false, stamp);
    if loc == last {
      TimestampWritesEntry(before, loc, false, stamp);
    } else {
      assert loc in init by {
        var i :| 0 <= i < |locs| && locs[i] == loc;
        assert init[i] == loc;
      }
      TimestampedRunWritesAll(tree, init, stamp, loc);
      OpenKeepsFiles(before, last, true, false, stamp, loc);
    }
  }

  lemma LocationOfMember(ds: seq<Date>, d: Date)
    requires d in ds
    ensures LocationOf(d) in LocationsOf(ds)
  {
    var i :| 0 <= i < |ds| && ds[i] == d;
    LocationsOfAt(ds, i);
  }

  /** A run that opens dates outside read mode with timestamps leaves every
      one of them, from the year 1000 on, in the index. */
  lemma TimestampedRunIndexesAll(tree: Tree, ds: seq<Date>, stamp: Stamp, d: Date)
    requires d in ds && YearOf(d) >= 1000
    ensures EntryOn(OpenedAll(tree, LocationsOf(ds), true, false, stamp), d)
  {
    LocationOfMember(ds, d);
    TimestampedRunWritesAll(tree, LocationsOf(ds), stamp, LocationOf(d));
    LocatedFileIsEntry(OpenedAll(tree, LocationsOf(ds), true, false, stamp), d);
  }
}
