/** The order of the entry index.  get_all_entry_dates documents its list as
    "sorted in ascending order" (src/jrnl/journal.py:96), and
    find_closest_date relies on that (src/jrnl/helpers.py:12).  The code
    keeps the promise on every journal laid out the way open_entry lays
    it out, and open_entry keeps that layout; a year directory with a
    longer name, or a second name that spells the same date, breaks it. */
module JournalOrder {
  import opened Wrappers
  import opened Text
  import opened Calendar
  import opened Helpers
  import opened EntryIndex
  import opened EntryFiles
  import opened DateParsing

  /** Each matching name of a directory names a date, is the file name
      open_entry gives that date, and y is that date's year directory. */
  ghost predicate PlacedIn(files: map<string, string>, y: string) {
    forall n :: n in files && MatchesEntryPattern(n) ==>
      && EntryNameDate(n).Ok?
      && n == EntryFileName(EntryNameDate(n).value)
      && EntryDirectory(EntryNameDate(n).value) == y
  }

  /** The layout open_entry gives a journal: every year directory the index
      reads has a four-character name and holds only its own entries. */
  ghost predicate PlacedByOpenEntry(tree: Tree) {
    forall y :: y in tree && IsYearDirectoryName(y) ==> |y| == 4 && PlacedIn(tree[y], y)
  }

  /** Four digits compare as strings the way their values compare. */
  lemma LexLessFourDigits(s: string, t: string)
    requires |s| == 4 && |t| == 4 && AllDigits(s) && AllDigits(t) && LexLess(s, t)
    ensures DigitValue(s[0]) * 1000 + DigitValue(s[1]) * 100 + DigitValue(s[2]) * 10 + DigitValue(s[3])
          < DigitValue(t[0]) * 1000 + DigitValue(t[1]) * 100 + DigitValue(t[2]) * 10 + DigitValue(t[3])
  {
    if s[0] == t[0] {
      assert LexLess(s[1..], t[1..]);
      if s[1] == t[1] {
        assert LexLess(s[2..], t[2..]) by {
          assert s[1..][1..] == s[2..] && t[1..][1..] == t[2..];
        }
        if s[2] == t[2] {
          assert LexLess(s[3..], t[3..]) by {
            assert s[2..][1..] == s[3..] && t[2..][1..] == t[3..];
          }
          assert s[3..] == [s[3]] && t[3..] == [t[3]];
          assert !LexLess(s[3..][1..], t[3..][1..]);
          assert s[3] < t[3];
        }
      }
    }
  }

  /** A four-character year directory is the %Y spelling of a year from
      1000 on. */
  lemma FourDigitDirectory(d: Date)
    requires |EntryDirectory(d)| == 4
    ensures 1000 <= YearOf(d) <= MaxYear
    ensures EntryDirectory(d) == Pad4(YearOf(d))
  {
    DecimalLength(YearOf(d));
    DecimalOfFourDigits(YearOf(d));
  }

  /** The dates of a four-character year directory that sorts first come
      first. */
  lemma EarlierYearDirectory(d: Date, e: Date)
    requires |EntryDirectory(d)| == 4 && |EntryDirectory(e)| == 4
    requires LexLess(EntryDirectory(d), EntryDirectory(e))
    ensures d < e
  {
    FourDigitDirectory(d);
    FourDigitDirectory(e);
    LexLessFourDigits(EntryDirectory(d), EntryDirectory(e));
    EarlierYearEarlierDate(FromOrdinal(d), FromOrdinal(e));
    ToFromOrdinal(d);
    ToFromOrdinal(e);
  }

  /** A date that a directory laid out by open_entry names lives in that
      directory. */
  lemma NamedDateIsPlaced(files: map<string, string>, y: string, d: Date)
    requires PlacedIn(files, y) && NamedIn(files, d)
    ensures EntryDirectory(d) == y
  {
    var n :| n in files && MatchesEntryPattern(n) && EntryNameDate(n) == Ok(d);
  }

  /** On a journal laid out by open_entry the index can be read, and it is
      in ascending order without repeats. */
  lemma PlacedIndexIncreasing(tree: Tree)
    requires PlacedByOpenEntry(tree)
    ensures AllEntryDates(tree).Ok?
    ensures StrictlyIncreasing(AllEntryDates(tree).value)
  {
    AllEntryDatesRaises(tree);
    assert forall y :: y in tree && IsYearDirectoryName(y) ==> NamesSpellDistinctDates(tree[y]);
    forall y, z, d, e | y in tree && z in tree && IsYearDirectoryName(y) && IsYearDirectoryName(z) &&
      LexLess(y, z) && NamedIn(tree[y], d) && NamedIn(tree[z], e)
      ensures d < e
    {
      NamedDateIsPlaced(tree[y], y, d);
      NamedDateIsPlaced(tree[z], z, e);
      EarlierYearDirectory(d, e);
    }
    AllEntryDatesIncreasing(tree);
  }

  /** open_entry keeps the layout: the directory it makes is that of the
      date (a year below 1000 gets one the index never reads), and the
      file it writes is the date's. */
  lemma OpenKeepsPlaced(tree: Tree, d: Date, doTimestamp: bool, readMode: bool, stamp: Stamp)
    requires PlacedByOpenEntry(tree)
    ensures PlacedByOpenEntry(OpenedTree(tree, LocationOf(d), doTimestamp, readMode, stamp))
  {
    var loc := LocationOf(d);
    var r := OpenedTree(tree, loc, doTimestamp, readMode, stamp);
    OpenTouchesOnlyItsEntry(tree, loc, doTimestamp, readMode, stamp);
    if !StopsInReadMode(tree, loc, readMode) && loc.dir !in tree {
      var made := tree[loc.dir := map[]];
      if doTimestamp {
        StampTouchesOnlyItsFile(made, loc, stamp);
      }
      assert r[loc.dir].Keys <= {loc.name};
    }
    forall y | y in r && IsYearDirectoryName(y) ensures |y| == 4 && PlacedIn(r[y], y) {
      if y == loc.dir {
        YearDirectoryIsIndexed(d);
        FourDigitDirectory(d) by {
          DecimalLength(YearOf(d));
        }
        EntryNameSpellsDate(d);
        forall n | n in r[y] && MatchesEntryPattern(n)
          ensures EntryNameDate(n).Ok? && n == EntryFileName(EntryNameDate(n).value)
          ensures EntryDirectory(EntryNameDate(n).value) == y
        {
          if n != loc.name {
            assert y in tree && n in tree[y];
          }
        }
      }
    }
  }

  /** Opening any number of entries keeps the layout. */
  lemma {:induction false} OpenedAllKeepsPlaced(tree: Tree, ds: seq<Date>, doTimestamp: bool, readMode: bool, stamp: Stamp)
    requires PlacedByOpenEntry(tree)
    ensures PlacedByOpenEntry(OpenedAll(tree, LocationsOf(ds), doTimestamp, readMode, stamp))
  {
    if ds != [] {
      var init := ds[..|ds| - 1];
      var locs := LocationsOf(ds);
      assert locs[..|locs| - 1] == LocationsOf(init);
      OpenedAllKeepsPlaced(tree, init, doTimestamp, readMode, stamp);
      OpenKeepsPlaced(OpenedAll(tree, LocationsOf(init), doTimestamp, readMode, stamp), ds[|ds| - 1], doTimestamp, readMode, stamp);
    }
  }

  /** A journal that open_entry built from an empty directory, however
      many entries it opened, has an index in ascending order without
      repeats. */
  lemma OpenedJournalIsOrdered(ds: seq<Date>, doTimestamp: bool, readMode: bool, stamp: Stamp)
    ensures AllEntryDates(OpenedAll(map[], LocationsOf(ds), doTimestamp, readMode, stamp)).Ok?
    ensures StrictlyIncreasing(AllEntryDates(OpenedAll(map[], LocationsOf(ds), doTimestamp, readMode, stamp)).value)
  {
    OpenedAllKeepsPlaced(map[], ds, doTimestamp, readMode, stamp);
    PlacedIndexIncreasing(OpenedAll(map[], LocationsOf(ds), doTimestamp, readMode, stamp));
  }

  /** On a journal laid out by open_entry, find_closest_existing_entry
      finds the entry nearest to the date, the older one of two equally
      near, and fails only on an empty journal. */
  lemma ClosestOnPlacedJournal(tree: Tree, date: Date)
    requires PlacedByOpenEntry(tree)
    ensures AllEntryDates(tree).Ok?
    ensures FindClosestExistingEntry(tree, date).Ok? <==> AllEntryDates(tree).value != []
    ensures FindClosestExistingEntry(tree, date).Err? ==> FindClosestExistingEntry(tree, date).error == EntryAncestorNotFound
    ensures var r := FindClosestExistingEntry(tree, date);
      r.Ok? ==> forall e :: e in AllEntryDates(tree).value ==> Distance(r.value, date) <= Distance(e, date)
    ensures var r := FindClosestExistingEntry(tree, date);
      r.Ok? ==> forall e :: e in AllEntryDates(tree).value && Distance(e, date) == Distance(r.value, date) ==> r.value <= e
  {
    PlacedIndexIncreasing(tree);
    var entries := AllEntryDates(tree).value;
    if entries != [] {
      assert FindClosestExistingEntry(tree, date) == Ok(FindClosestDate(entries, date));
    }
  }

  /** On a journal laid out by open_entry, whose index e can be read
      (PlacedIndexIncreasing), "head^" names the entry before the latest
      one. */
  lemma HeadCaretOnPlacedJournal(today: Date, late: int, fuzzy: string -> Result<Date>, tree: Tree, e: seq<Date>)
    requires PlacedByOpenEntry(tree) && AllEntryDates(tree) == Ok(e)
    ensures |e| >= 2 ==> ResolveArgument("head^", today, late, fuzzy, tree) == Resolved(e[|e| - 2])
    ensures |e| == 1 ==> ResolveArgument("head^", today, late, fuzzy, tree) == Dropped(AncestorMissing("head^"))
    ensures e == [] ==> ResolveArgument("head^", today, late, fuzzy, tree) == Dropped(NoExistingEntry)
  {
    PlacedIndexIncreasing(tree);
    HeadCaretIsPreviousEntry(today, late, fuzzy, tree, e);
  }

  /** On such a journal get_latest_existing_entry names the latest entry
      date, and raises JournalHeadNotFound exactly when there is none. */
  lemma HeadIsMaxOnPlacedJournal(tree: Tree)
    requires PlacedByOpenEntry(tree)
    ensures LatestExistingEntry(tree).Ok? <==> AllEntryDates(tree).Ok? && AllEntryDates(tree).value != []
    ensures LatestExistingEntry(tree).Err? ==> LatestExistingEntry(tree).error == JournalHeadNotFound
    ensures LatestExistingEntry(tree).Ok? ==>
      EntryOn(tree, LatestExistingEntry(tree).value) &&
      forall e: Date :: EntryOn(tree, e) ==> e <= LatestExistingEntry(tree).value
  {
    PlacedIndexIncreasing(tree);
    LatestIsLastEntry(tree);
    var entries := AllEntryDates(tree).value;
    if entries != [] {
      var last := entries[|entries| - 1];
      ListedIsEntry(tree, last);
      LastIsGreatest(entries);
      forall e: Date | EntryOn(tree, e) ensures e <= last {
        AllEntryDatesMembers(tree, e);
      }
    }
  }

  lemma LastIsGreatest(s: seq<Date>)
    requires StrictlyIncreasing(s) && s != []
    ensures forall e :: e in s ==> e <= s[|s| - 1]
  {
  }

  /** A name of fourteen characters that starts with a valid date, has no
      line break next, and ends in "txt" is an entry file of that date. */
  lemma EntryNameOf(name: string, c: Civil)
    requires |name| == 14 && StartsIsoShape(name) && name[10] != '\n'
    requires name[11] == 't' && name[12] == 'x' && name[13] == 't'
    requires IsoFields(name) == c && ValidCivil(c)
    ensures MatchesEntryPattern(name) && EntryNameDate(name) == Ok(ToOrdinal(c))
  {
    var iso := name[..10];
    assert IsoFields(iso) == IsoFields(name);
  }

  /** A year directory holding one matching file lists that file's date. */
  lemma OneFileYear(name: string, text: string, d: Date)
    requires MatchesEntryPattern(name) && EntryNameDate(name) == Ok(d)
    ensures YearsExistingEntryDates(map[name := text]) == Ok([d])
  {
    var files := map[name := text];
    assert (set n | n in files && MatchesEntryPattern(n)) == {name};
    var names := MatchingNames(files);
    assert names == [name];
    assert NameDates(names) == [d];
  }

  /** A year directory holding two matching files of one date lists that
      date twice. */
  lemma TwoFilesOneDate(files: map<string, string>, n: string, m: string, d: Date)
    requires files.Keys == {n, m} && n != m
    requires MatchesEntryPattern(n) && EntryNameDate(n) == Ok(d)
    requires MatchesEntryPattern(m) && EntryNameDate(m) == Ok(d)
    ensures YearsExistingEntryDates(files) == Ok([d, d])
  {
    TwoFilesParsed(files, n, m, d);
    var parsed := NameDates(MatchingNames(files));
    assert YearsExistingEntryDates(files) == Ok(SortDates(parsed));
    SortTwice(d);
  }

  lemma TwoFilesParsed(files: map<string, string>, n: string, m: string, d: Date)
    requires files.Keys == {n, m} && n != m
    requires MatchesEntryPattern(n) && EntryNameDate(n) == Ok(d)
    requires MatchesEntryPattern(m) && EntryNameDate(m) == Ok(d)
    ensures NamesAreDates(files) && AllNameDates(MatchingNames(files))
    ensures NameDates(MatchingNames(files)) == [d, d]
  {
    MatchingTwo(files, n, m);
    var names := MatchingNames(files);
    assert AllNameDates(names);
    var parsed := NameDates(names);
    assert EntryNameDate(names[0]) == Ok(parsed[0]) && EntryNameDate(names[1]) == Ok(parsed[1]);
  }

  lemma MatchingTwo(files: map<string, string>, n: string, m: string)
    requires files.Keys == {n, m} && n != m
    requires MatchesEntryPattern(n) && MatchesEntryPattern(m)
    ensures |MatchingNames(files)| == 2
    ensures forall i :: 0 <= i < 2 ==> MatchingNames(files)[i] == n || MatchingNames(files)[i] == m
  {
    assert (set k | k in files && MatchesEntryPattern(k)) == {n, m};
  }

  lemma SortTwice(d: Date)
    ensures SortDates([d, d]) == [d, d]
  {
    assert [d, d][1..] == [d];
    assert SortDates([d]) == [d];
  }

  /** A journal with one year directory has that year's result only. */
  lemma OneYearResults(tree: Tree, y: string, p: seq<Date>)
    requires tree.Keys == {y} && IsYearDirectoryName(y)
    requires YearsExistingEntryDates(tree[y]) == Ok(p)
    ensures YearResults(tree) == [Ok(p)]
  {
    assert (set k | k in tree && IsYearDirectoryName(k)) == {y};
    var years := ExistingYearDirectories(tree);
    assert years == [y] by {
      assert years[0] in years;
    }
  }

  /** A journal with two year directories has the result of the one whose
      name sorts first, then that of the other. */
  lemma TwoYearResults(tree: Tree, y: string, z: string, p: seq<Date>, q: seq<Date>)
    requires tree.Keys == {y, z} && IsYearDirectoryName(y) && IsYearDirectoryName(z) && LexLess(y, z)
    requires YearsExistingEntryDates(tree[y]) == Ok(p) && YearsExistingEntryDates(tree[z]) == Ok(q)
    ensures YearResults(tree) == [Ok(p), Ok(q)]
  {
    TwoYearNames(tree, y, z);
  }

  lemma TwoYearNames(tree: Tree, y: string, z: string)
    requires tree.Keys == {y, z} && IsYearDirectoryName(y) && IsYearDirectoryName(z) && LexLess(y, z)
    ensures ExistingYearDirectories(tree) == [y, z]
  {
    LexAsymmetric(y, z);
    LexIrreflexive(y);
    var names := set k | k in tree && IsYearDirectoryName(k);
    assert names == {y, z} && y != z;
    var years := SortedSeq(names);
    assert |names| == 2;
    assert years[0] in names && years[1] in names;
    assert LexLess(years[0], years[1]);
  }

  lemma FlattenOne(p: seq<Date>)
    ensures Flatten([Ok(p)]).Ok? && Flatten([Ok(p)]).value == p
  {
    var rs := [Ok(p)];
    var none: seq<Result<seq<Date>>> := [];
    assert rs[..0] == none;
    assert Flatten(none) == Ok([]);
    assert [] + p == p;
  }

  lemma FlattenTwo(a: Date, b: Date)
    ensures Flatten([Ok([a]), Ok([b])]).Ok? && Flatten([Ok([a]), Ok([b])]).value == [a, b]
  {
    var rs := [Ok([a]), Ok([b])];
    assert rs[..1] == [Ok([a])];
    FlattenOne([a]);
    assert [a] + [b] == [a, b];
  }

  /** The index of a journal with one year directory is that year's list. */
  lemma OneYearIndex(tree: Tree, y: string, p: seq<Date>)
    requires tree.Keys == {y} && IsYearDirectoryName(y)
    requires YearsExistingEntryDates(tree[y]) == Ok(p)
    ensures AllEntryDates(tree).Ok? && AllEntryDates(tree).value == p
  {
    OneYearResults(tree, y, p);
    FlattenOne(p);
  }

  /** Two year directories holding one entry each are listed in name order. */
  lemma TwoSingleYearIndex(tree: Tree, y: string, z: string, a: Date, b: Date)
    requires tree.Keys == {y, z} && IsYearDirectoryName(y) && IsYearDirectoryName(z) && LexLess(y, z)
    requires YearsExistingEntryDates(tree[y]) == Ok([a]) && YearsExistingEntryDates(tree[z]) == Ok([b])
    ensures AllEntryDates(tree).Ok? && AllEntryDates(tree).value == [a, b]
  {
    TwoYearResults(tree, y, z, [a], [b]);
    FlattenTwo(a, b);
  }

  const Jan2020: Date := ToOrdinal(Civil(2020, 1, 1))
  const Jun2019: Date := ToOrdinal(Civil(2019, 6, 1))

  /** A directory "2020-old" also starts with four digits and sorts after
      "2020", so the 2019 entry it holds is listed after the 2020 one. */
  function MisplacedJournal(text: string): Tree {
    map["2020" := map["2020-01-01.txt" := text], "2020-old" := map["2019-06-01.txt" := text]]
  }

  /** The index of that journal is out of order. */
  lemma UnsortedIndex(text: string)
    ensures AllEntryDates(MisplacedJournal(text)).Ok? && AllEntryDates(MisplacedJournal(text)).value == [Jan2020, Jun2019]
    ensures Jun2019 < Jan2020 && !Sorted([Jan2020, Jun2019])
  {
    MisplacedIndex(text);
    Jun2019BeforeJan2020();
    var listed := [Jan2020, Jun2019];
    assert listed[1] < listed[0];
  }

  lemma Jun2019BeforeJan2020()
    ensures Jun2019 < Jan2020
  {
    EarlierYearEarlierDate(Civil(2019, 6, 1), Civil(2020, 1, 1));
  }

  lemma MisplacedIndex(text: string)
    ensures AllEntryDates(MisplacedJournal(text)).Ok? && AllEntryDates(MisplacedJournal(text)).value == [Jan2020, Jun2019]
  {
    MisplacedYear(text);
    MisplacedOldYear(text);
    MisplacedShape(text);
    TwoSingleYearIndex(MisplacedJournal(text), "2020", "2020-old", Jan2020, Jun2019);
  }

  lemma MisplacedShape(text: string)
    ensures MisplacedJournal(text).Keys == {"2020", "2020-old"}
    ensures IsYearDirectoryName("2020") && IsYearDirectoryName("2020-old")
    ensures LexLess("2020", "2020-old")
  {
  }

  lemma MisplacedYear(text: string)
    ensures YearsExistingEntryDates(MisplacedJournal(text)["2020"]) == Ok([Jan2020])
  {
    EntryNameOf("2020-01-01.txt", Civil(2020, 1, 1));
    OneFileYear("2020-01-01.txt", text, Jan2020);
  }

  lemma MisplacedOldYear(text: string)
    ensures YearsExistingEntryDates(MisplacedJournal(text)["2020-old"]) == Ok([Jun2019])
  {
    EntryNameOf("2019-06-01.txt", Civil(2019, 6, 1));
    OneFileYear("2019-06-01.txt", text, Jun2019);
  }

  /** On that journal find_closest_existing_entry, asked for the very date
      of the 2019 entry, answers with the 2020 one. */
  lemma ClosestOnUnsortedIndex(text: string)
    ensures FindClosestExistingEntry(MisplacedJournal(text), Jun2019) == Ok(Jan2020)
    ensures Jun2019 in AllEntryDates(MisplacedJournal(text)).value && Jun2019 != Jan2020
  {
    UnsortedIndex(text);
    ClosestOfDescendingPair(Jan2020, Jun2019);
  }

  /** On the list [a, b] with b before a, the bisection for b stops at the
      front, so the closest date to b is a. */
  lemma ClosestOfDescendingPair(a: Date, b: Date)
    requires b < a
    ensures FindClosestDate([a, b], b) == a
  {
    var pair := [a, b];
    assert BisectLeft(pair, b, 0, 0) == 0;
    assert BisectLeft(pair, b, 0, 1) == 0;
    assert BisectLeft(pair, b, 0, 2) == 0;
  }

  /** Two names that spell the same date, "2024-01-01.txt" and
      "2024-01-01Xtxt" (the pattern's '.' matches any character). */
  function TwiceNamedJournal(text: string): Tree {
    map["2024" := map["2024-01-01.txt" := text, "2024-01-01Xtxt" := text]]
  }

  const Jan2024: Date := ToOrdinal(Civil(2024, 1, 1))

  /** That journal lists the date twice, and the entry after it is then
      the date itself. */
  lemma RepeatedDate(text: string)
    ensures AllEntryDates(TwiceNamedJournal(text)).Ok? && AllEntryDates(TwiceNamedJournal(text)).value == [Jan2024, Jan2024]
    ensures !StrictlyIncreasing([Jan2024, Jan2024])
    ensures NthAncestor([Jan2024, Jan2024], Jan2024, -1) == Ok(Jan2024)
  {
    TwiceNamedIndex(text);
    var twice := [Jan2024, Jan2024];
    assert twice[0] == twice[1];
  }

  lemma TwiceNamedIndex(text: string)
    ensures AllEntryDates(TwiceNamedJournal(text)).Ok? && AllEntryDates(TwiceNamedJournal(text)).value == [Jan2024, Jan2024]
  {
    TwiceNamedYear(text);
    OneYearIndex(TwiceNamedJournal(text), "2024", [Jan2024, Jan2024]);
  }

  lemma TwiceNamedYear(text: string)
    ensures TwiceNamedJournal(text).Keys == {"2024"} && IsYearDirectoryName("2024")
    ensures YearsExistingEntryDates(TwiceNamedJournal(text)["2024"]) == Ok([Jan2024, Jan2024])
  {
    TwiceNamedNames();
    TwiceNamedShape(text);
    TwoFilesOneDate(TwiceNamedJournal(text)["2024"], "2024-01-01.txt", "2024-01-01Xtxt", Jan2024);
  }

  lemma TwiceNamedNames()
    ensures MatchesEntryPattern("2024-01-01.txt") && EntryNameDate("2024-01-01.txt") == Ok(Jan2024)
    ensures MatchesEntryPattern("2024-01-01Xtxt") && EntryNameDate("2024-01-01Xtxt") == Ok(Jan2024)
  {
    EntryNameOf("2024-01-01.txt", Civil(2024, 1, 1));
    EntryNameOf("2024-01-01Xtxt", Civil(2024, 1, 1));
  }

  lemma TwiceNamedShape(text: string)
    ensures TwiceNamedJournal(text).Keys == {"2024"} && IsYearDirectoryName("2024")
    ensures TwiceNamedJournal(text)["2024"].Keys == {"2024-01-01.txt", "2024-01-01Xtxt"}
    ensures "2024-01-01.txt" != "2024-01-01Xtxt"
  {
    assert "2024-01-01.txt"[10] != "2024-01-01Xtxt"[10];
  }
}
