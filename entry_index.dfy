/** The entry index of src/jrnl/journal.py: which dates have entry files in
    the year-partitioned journal tree, in the order the code lists them,
    and the lookups built on it (nth ancestor, closest entry, latest entry). */
module EntryIndex {
  import opened Wrappers
  import opened Text
  import opened Calendar
  import opened Helpers

  /** The journal's base directory: each directory directly under it, mapped
      to the files it holds and their text. */
  type Tree = map<string, map<string, string>>

  /** re.match(r"\d{4}", name): four digits at the start; anything may follow. */
  predicate IsYearDirectoryName(name: string) {
    |name| >= 4 && IsDigit(name[0]) && IsDigit(name[1]) && IsDigit(name[2]) && IsDigit(name[3])
  }

  /** get_existing_year_directories: the directories whose names start with
      four digits, in ascending string order. */
  function ExistingYearDirectories(tree: Tree): (r: seq<string>)
    ensures StrictlySorted(r)
    ensures forall y :: y in r <==> y in tree && IsYearDirectoryName(y)
  {
    SortedSeq(set y | y in tree && IsYearDirectoryName(y))
  }

  /** re.match(r"\d{4}-\d{2}-\d{2}.txt", name): anchored at the start only,
      and the unescaped '.' stands for any character but a newline. */
  predicate MatchesEntryPattern(name: string) {
    && |name| >= 14
    && StartsIsoShape(name)
    && name[10] != '\n'
    && name[11] == 't' && name[12] == 'x' && name[13] == 't'
  }

  /** datetime.datetime.strptime(name[:-4], "%Y-%m-%d").date(). */
  function EntryNameDate(name: string): (r: Result<Date>)
    requires MatchesEntryPattern(name)
    ensures r.Err? ==> r.error == ValueError
  {
    StrptimeIso(name[..|name| - 4])
  }

  /** Every name of the list matches the pattern and spells a date. */
  predicate AllNameDates(names: seq<string>) {
    forall i :: 0 <= i < |names| ==> MatchesEntryPattern(names[i]) && EntryNameDate(names[i]).Ok?
  }

  /** The list comprehension over the matching names, once none of them
      makes strptime raise. */
  function NameDates(names: seq<string>): (r: seq<Date>)
    requires AllNameDates(names)
    ensures |r| == |names|
    ensures forall i :: 0 <= i < |names| ==> EntryNameDate(names[i]) == Ok(r[i])
  {
    if names == [] then [] else [EntryNameDate(names[0]).value] + NameDates(names[1..])
  }

  /** Insert x into a sorted list before the first element not smaller than it. */
  function Insert(x: Date, s: seq<Date>): (r: seq<Date>)
    requires Sorted(s)
    ensures Sorted(r) && |r| == |s| + 1
    ensures r[0] == x || (s != [] && r[0] == s[0])
  {
    if s == [] || x <= s[0] then [x] + s
    else [s[0]] + Insert(x, s[1..])
  }

  /** sorted() of a list of dates. */
  function SortDates(s: seq<Date>): (r: seq<Date>)
    ensures Sorted(r) && |r| == |s|
  {
    if s == [] then [] else Insert(s[0], SortDates(s[1..]))
  }

  lemma {:induction false} InsertPermutes(x: Date, s: seq<Date>)
    requires Sorted(s)
    ensures multiset(Insert(x, s)) == multiset(s) + multiset{x}
  {
    if s != [] && s[0] < x {
      InsertPermutes(x, s[1..]);
      assert s == [s[0]] + s[1..];
    }
  }

  /** The sorted list is a permutation of its input (the sorted permutation
      is unique, so this is Python's sorted() whatever its algorithm). */
  lemma {:induction false} SortDatesPermutes(s: seq<Date>)
    ensures multiset(SortDates(s)) == multiset(s)
  {
    if s != [] {
      var t := s[1..];
      var r := SortDates(t);
      SortDatesPermutes(t);
      InsertPermutes(s[0], r);
      assert SortDates(s) == Insert(s[0], r);
      assert s == [s[0]] + t;
      assert multiset(s) == multiset{s[0]} + multiset(t);
    }
  }

  lemma SortDatesMembers(s: seq<Date>, e: Date)
    ensures e in SortDates(s) <==> e in s
  {
    SortDatesPermutes(s);
    assert e in SortDates(s) <==> e in multiset(SortDates(s));
  }

  /** The dates that the matching names of a year directory spell. */
  ghost predicate NamedIn(files: map<string, string>, d: Date) {
    exists n :: n in files && MatchesEntryPattern(n) && EntryNameDate(n) == Ok(d)
  }

  /** The matching names of a year directory, in the order they are parsed. */
  function MatchingNames(files: map<string, string>): (names: seq<string>)
    ensures forall i :: 0 <= i < |names| ==> MatchesEntryPattern(names[i]) && names[i] in files
    ensures forall n :: n in files && MatchesEntryPattern(n) ==> n in names
  {
    var r := SortedSeq(set n | n in files && MatchesEntryPattern(n));
    assert forall i :: 0 <= i < |r| ==> r[i] in r;
    r
  }

  /** Every matching name of the directory is a valid date. */
  predicate NamesAreDates(files: map<string, string>) {
    forall n :: n in files && MatchesEntryPattern(n) ==> EntryNameDate(n).Ok?
  }

  /** get_years_existing_entry_dates: the ascending dates of the matching
      file names of one year directory; ValueError if one of them is not
      a date. */
  function YearsExistingEntryDates(files: map<string, string>): (r: Result<seq<Date>>)
    ensures r.Ok? <==> NamesAreDates(files)
    ensures r.Err? ==> r.error == ValueError
    ensures r.Ok? ==> Sorted(r.value)
  {
    if !NamesAreDates(files) then Err(ValueError)
    else
      var names := MatchingNames(files);
      assert AllNameDates(names);
      Ok(SortDates(NameDates(names)))
  }

  lemma NameDatesMembers(names: seq<string>, d: Date)
    requires AllNameDates(names)
    ensures d in NameDates(names) <==> exists i :: 0 <= i < |names| && EntryNameDate(names[i]) == Ok(d)
  {
    var r := NameDates(names);
    if d in r {
      var i :| 0 <= i < |r| && r[i] == d;
      assert EntryNameDate(names[i]) == Ok(d);
    }
  }

  /** The dates listed for a year directory are exactly those its matching
      file names spell. */
  lemma YearsExistingEntryDatesMembers(files: map<string, string>, d: Date)
    requires NamesAreDates(files)
    ensures d in YearsExistingEntryDates(files).value <==> NamedIn(files, d)
  {
    var names := MatchingNames(files);
    assert AllNameDates(names);
    var parsed := NameDates(names);
    assert YearsExistingEntryDates(files).value == SortDates(parsed);
    SortDatesMembers(parsed, d);
    ListedAreNamed(files, d);
    if NamedIn(files, d) {
      var n :| n in files && MatchesEntryPattern(n) && EntryNameDate(n) == Ok(d);
      NamedAreListed(files, n, d);
    }
  }

  lemma ListedAreNamed(files: map<string, string>, d: Date)
    requires AllNameDates(MatchingNames(files))
    ensures d in NameDates(MatchingNames(files)) ==> NamedIn(files, d)
  {
    var names := MatchingNames(files);
    NameDatesMembers(names, d);
    if d in NameDates(names) {
      var i :| 0 <= i < |names| && EntryNameDate(names[i]) == Ok(d);
      assert names[i] in files && MatchesEntryPattern(names[i]);
    }
  }

  lemma NamedAreListed(files: map<string, string>, n: string, d: Date)
    requires AllNameDates(MatchingNames(files))
    requires n in files && MatchesEntryPattern(n) && EntryNameDate(n) == Ok(d)
    ensures d in NameDates(MatchingNames(files))
  {
    var names := MatchingNames(files);
    var i :| 0 <= i < |names| && names[i] == n;
    NameDatesMembers(names, d);
  }

  /** reduce(iconcat, lists, []): the lists joined in order, raising the
      first exception any of them raised. */
  function Flatten(rs: seq<Result<seq<Date>>>): (r: Result<seq<Date>>)
    ensures r.Ok? <==> forall i :: 0 <= i < |rs| ==> rs[i].Ok?
    ensures r.Err? ==> exists i :: 0 <= i < |rs| && rs[i] == Err(r.error)
  {
    if rs == [] then Ok([])
    else
      var init :- Flatten(rs[..|rs| - 1]);
      var last :- rs[|rs| - 1];
      Ok(init + last)
  }

  lemma {:induction false} FlattenMembers(rs: seq<Result<seq<Date>>>, d: Date)
    requires Flatten(rs).Ok?
    ensures d in Flatten(rs).value <==> exists i :: 0 <= i < |rs| && d in rs[i].value
  {
    if rs != [] {
      var init := rs[..|rs| - 1];
      FlattenMembers(init, d);
      assert forall i :: 0 <= i < |init| ==> init[i] == rs[i];
    }
  }

  /** The per-year results of get_all_entry_dates, in directory order. */
  function YearResults(tree: Tree): (rs: seq<Result<seq<Date>>>)
    ensures |rs| == |ExistingYearDirectories(tree)|
  {
    var years := ExistingYearDirectories(tree);
    seq(|years|, i requires 0 <= i < |years| => YearsExistingEntryDates(tree[years[i]]))
  }

  lemma YearResultAt(tree: Tree, i: nat)
    requires i < |ExistingYearDirectories(tree)|
    ensures ExistingYearDirectories(tree)[i] in tree
    ensures YearResults(tree)[i] == YearsExistingEntryDates(tree[ExistingYearDirectories(tree)[i]])
  {
  }

  /** get_all_entry_dates. */
  function AllEntryDates(tree: Tree): (r: Result<seq<Date>>)
    ensures r.Err? ==> r.error == ValueError
  {
    Flatten(YearResults(tree))
  }

  /** An entry file: a matching name in a year directory. */
  ghost predicate EntryOn(tree: Tree, d: Date) {
    exists y :: y in tree && IsYearDirectoryName(y) && NamedIn(tree[y], d)
  }

  /** get_all_entry_dates returns exactly the dates that have an entry file,
      whenever no file name makes it raise. */
  lemma AllEntryDatesMembers(tree: Tree, d: Date)
    requires AllEntryDates(tree).Ok?
    ensures d in AllEntryDates(tree).value <==> EntryOn(tree, d)
  {
    if EntryOn(tree, d) {
      var y :| y in tree && IsYearDirectoryName(y) && NamedIn(tree[y], d);
      EntryIsListed(tree, y, d);
    }
    if d in AllEntryDates(tree).value {
      ListedIsEntry(tree, d);
    }
  }

  lemma EntryIsListed(tree: Tree, y: string, d: Date)
    requires AllEntryDates(tree).Ok?
    requires y in tree && IsYearDirectoryName(y) && NamedIn(tree[y], d)
    ensures d in AllEntryDates(tree).value
  {
    var years := ExistingYearDirectories(tree);
    var rs := YearResults(tree);
    var i :| 0 <= i < |years| && years[i] == y;
    assert rs[i] == YearsExistingEntryDates(tree[y]);
    YearsExistingEntryDatesMembers(tree[y], d);
    FlattenMembers(rs, d);
  }

  lemma ListedIsEntry(tree: Tree, d: Date)
    requires AllEntryDates(tree).Ok?
    requires d in AllEntryDates(tree).value
    ensures EntryOn(tree, d)
  {
    var years := ExistingYearDirectories(tree);
    var rs := YearResults(tree);
    FlattenMembers(rs, d);
    var i :| 0 <= i < |rs| && d in rs[i].value;
    var y := years[i];
    assert rs[i] == YearsExistingEntryDates(tree[y]);
    YearsExistingEntryDatesMembers(tree[y], d);
    assert y in tree && IsYearDirectoryName(y) && NamedIn(tree[y], d);
  }

  /** A year directory holds a name that matches the pattern but is not a date. */
  ghost predicate HasInvalidName(tree: Tree) {
    exists y, n :: y in tree && IsYearDirectoryName(y) && n in tree[y] &&
      MatchesEntryPattern(n) && EntryNameDate(n).Err?
  }

  /** get_all_entry_dates raises ValueError exactly when some year
      directory holds a name that matches the pattern but is not a date. */
  lemma AllEntryDatesRaises(tree: Tree)
    ensures AllEntryDates(tree).Err? <==> HasInvalidName(tree)
  {
    if AllEntryDates(tree).Err? {
      RaisesOnInvalidName(tree);
    }
    if HasInvalidName(tree) {
      var y, n :| y in tree && IsYearDirectoryName(y) && n in tree[y] &&
        MatchesEntryPattern(n) && EntryNameDate(n).Err?;
      InvalidNameRaises(tree, y);
    }
  }

  lemma RaisesOnInvalidName(tree: Tree)
    requires AllEntryDates(tree).Err?
    ensures HasInvalidName(tree)
  {
    var years := ExistingYearDirectories(tree);
    var rs := YearResults(tree);
    var i :| 0 <= i < |rs| && rs[i].Err?;
    var y := years[i];
    assert !NamesAreDates(tree[y]);
  }

  lemma InvalidNameRaises(tree: Tree, y: string)
    requires y in tree && IsYearDirectoryName(y) && !NamesAreDates(tree[y])
    ensures AllEntryDates(tree).Err?
  {
    var years := ExistingYearDirectories(tree);
    var rs := YearResults(tree);
    var i :| 0 <= i < |years| && years[i] == y;
    assert rs[i].Err?;
  }

  /** list.index(x): the position of the first occurrence. */
  function FirstIndex(s: seq<Date>, x: Date): (i: nat)
    requires x in s
    ensures i < |s| && s[i] == x
    ensures forall j :: 0 <= j < i ==> s[j] != x
  {
    if s[0] == x then 0 else 1 + FirstIndex(s[1..], x)
  }

  /** The positional part of find_entrys_nth_ancestor on a given index:
      the entry n places before the first occurrence of date. */
  function NthAncestor(entries: seq<Date>, date: Date, n: int): (r: Result<Date>)
    ensures r.Ok? ==> r.value in entries
    ensures r == Err(EntryArgumentNotFound) <==> date !in entries
    ensures r == Err(EntryAncestorNotFound) <==>
      date in entries && !(0 <= FirstIndex(entries, date) - n < |entries|)
    ensures r.Ok? ==> r.value == entries[FirstIndex(entries, date) - n]
    ensures r.Err? ==> r.error == EntryArgumentNotFound || r.error == EntryAncestorNotFound
  {
    if date !in entries then Err(EntryArgumentNotFound)
    else
      var k := FirstIndex(entries, date) - n;
      if k < 0 || k >= |entries| then Err(EntryAncestorNotFound) else Ok(entries[k])
  }

  /** find_entrys_nth_ancestor over the journal tree. */
  function FindEntrysNthAncestor(tree: Tree, date: Date, n: int): (r: Result<Date>)
    ensures r.Ok? ==> EntryOn(tree, r.value)
    ensures r == Err(ValueError) <==> AllEntryDates(tree).Err?
    ensures r == Err(EntryArgumentNotFound) <==> AllEntryDates(tree).Ok? && !EntryOn(tree, date)
  {
    var entries :- AllEntryDates(tree);
    AncestorIsEntry(tree, date, n);
    NthAncestor(entries, date, n)
  }

  lemma AncestorIsEntry(tree: Tree, date: Date, n: int)
    requires AllEntryDates(tree).Ok?
    ensures NthAncestor(AllEntryDates(tree).value, date, n).Ok? ==>
      EntryOn(tree, NthAncestor(AllEntryDates(tree).value, date, n).value)
    ensures date in AllEntryDates(tree).value <==> EntryOn(tree, date)
  {
    var r := NthAncestor(AllEntryDates(tree).value, date, n);
    if r.Ok? {
      ListedIsEntry(tree, r.value);
    }
    AllEntryDatesMembers(tree, date);
  }

  /** Zero steps back from an entry is the entry itself. */
  lemma ZerothAncestor(entries: seq<Date>, date: Date)
    requires date in entries
    ensures NthAncestor(entries, date, 0) == Ok(date)
  {
  }

  predicate StrictlyIncreasing(s: seq<Date>) {
    forall i, j :: 0 <= i < j < |s| ==> s[i] < s[j]
  }

  lemma FirstIndexOfDistinct(s: seq<Date>, k: nat)
    requires StrictlyIncreasing(s) && k < |s|
    ensures FirstIndex(s, s[k]) == k
  {
  }

  /** Inserting a date that is not in a strictly increasing list keeps it
      strictly increasing. */
  lemma {:induction false} InsertStrict(x: Date, s: seq<Date>)
    requires StrictlyIncreasing(s) && x !in s
    ensures StrictlyIncreasing(Insert(x, s))
  {
    if s != [] && s[0] < x {
      InsertStrict(x, s[1..]);
      var r := Insert(x, s[1..]);
      assert Insert(x, s) == [s[0]] + r;
      assert r[0] == x || r[0] == s[1];
    }
  }

  /** sorted() of dates without repeats is strictly increasing. */
  lemma {:induction false} SortDatesStrict(s: seq<Date>)
    requires forall i, j :: 0 <= i < j < |s| ==> s[i] != s[j]
    ensures StrictlyIncreasing(SortDates(s))
  {
    if s != [] {
      var t := s[1..];
      SortDatesStrict(t);
      SortDatesMembers(t, s[0]);
      InsertStrict(s[0], SortDates(t));
    }
  }

  /** Distinct matching names of a directory spell distinct dates. */
  ghost predicate NamesSpellDistinctDates(files: map<string, string>) {
    forall n, m ::
      (n in files && m in files && MatchesEntryPattern(n) && MatchesEntryPattern(m) &&
       EntryNameDate(n).Ok? && EntryNameDate(n) == EntryNameDate(m)) ==> n == m
  }

  /** A year directory whose names spell distinct dates lists them
      strictly increasing. */
  lemma YearDatesStrict(files: map<string, string>)
    requires NamesAreDates(files) && NamesSpellDistinctDates(files)
    ensures StrictlyIncreasing(YearsExistingEntryDates(files).value)
  {
    var names := MatchingNames(files);
    assert AllNameDates(names);
    var parsed := NameDates(names);
    forall i, j | 0 <= i < j < |parsed| ensures parsed[i] != parsed[j] {
      assert EntryNameDate(names[i]) == Ok(parsed[i]) && EntryNameDate(names[j]) == Ok(parsed[j]);
      LexIrreflexive(names[i]);
    }
    SortDatesStrict(parsed);
  }

  /** Lists that are each strictly increasing, every one of whose dates
      precedes those of the lists after it, concatenate to a strictly
      increasing list. */
  lemma {:induction false} FlattenIncreasing(rs: seq<Result<seq<Date>>>)
    requires Flatten(rs).Ok?
    requires forall i :: 0 <= i < |rs| ==> StrictlyIncreasing(rs[i].value)
    requires forall i, j, x, y :: 0 <= i < j < |rs| && x in rs[i].value && y in rs[j].value ==> x < y
    ensures StrictlyIncreasing(Flatten(rs).value)
  {
    if rs != [] {
      var init := rs[..|rs| - 1];
      var last := rs[|rs| - 1].value;
      assert forall i :: 0 <= i < |init| ==> init[i] == rs[i];
      FlattenIncreasing(init);
      var head := Flatten(init).value;
      assert Flatten(rs).value == head + last;
      forall x, y | x in head && y in last ensures x < y {
        FlattenMembers(init, x);
      }
      forall i, j | 0 <= i < j < |head + last| ensures (head + last)[i] < (head + last)[j] {
        if j >= |head| && i < |head| {
          assert head[i] in head && last[j - |head|] in last;
        }
      }
    }
  }

  /** Every date named in an earlier year directory precedes every date
      named in a later one. */
  ghost predicate YearsInOrder(tree: Tree) {
    forall y, z, d, e ::
      (y in tree && z in tree && IsYearDirectoryName(y) && IsYearDirectoryName(z) &&
       LexLess(y, z) && NamedIn(tree[y], d) && NamedIn(tree[z], e)) ==> d < e
  }

  /** When the year directories are in the order of their dates and no two
      names of a directory spell the same date, the index is in ascending
      order without repeats, as get_all_entry_dates documents. */
  lemma AllEntryDatesIncreasing(tree: Tree)
    requires AllEntryDates(tree).Ok? && YearsInOrder(tree)
    requires forall y :: y in tree && IsYearDirectoryName(y) ==> NamesSpellDistinctDates(tree[y])
    ensures StrictlyIncreasing(AllEntryDates(tree).value)
  {
    var years := ExistingYearDirectories(tree);
    var rs := YearResults(tree);
    forall i | 0 <= i < |rs| ensures StrictlyIncreasing(rs[i].value) {
      YearResultAt(tree, i);
      YearDatesStrict(tree[years[i]]);
    }
    forall i, j, x, y | 0 <= i < j < |rs| && x in rs[i].value && y in rs[j].value ensures x < y {
      YearsInOrderAt(tree, i, j, x, y);
    }
    FlattenIncreasing(rs);
  }

  lemma YearsInOrderAt(tree: Tree, i: nat, j: nat, x: Date, y: Date)
    requires AllEntryDates(tree).Ok? && YearsInOrder(tree)
    requires i < j < |YearResults(tree)|
    requires x in YearResults(tree)[i].value && y in YearResults(tree)[j].value
    ensures x < y
  {
    var years := ExistingYearDirectories(tree);
    YearResultAt(tree, i);
    YearResultAt(tree, j);
    assert years[i] in years && years[j] in years;
    assert LexLess(years[i], years[j]);
    YearsExistingEntryDatesMembers(tree[years[i]], x);
    YearsExistingEntryDatesMembers(tree[years[j]], y);
  }

  /** On a journal whose index can be listed, the ancestor lookup is the
      lookup in that index. */
  lemma AncestorInListing(tree: Tree, date: Date, n: int)
    requires AllEntryDates(tree).Ok?
    ensures FindEntrysNthAncestor(tree, date, n) == NthAncestor(AllEntryDates(tree).value, date, n)
  {
  }

  /** One step back from the last date of an index without repeats is the
      date before it, and there is none before a single date. */
  lemma StepBackFromLastDate(entries: seq<Date>)
    requires StrictlyIncreasing(entries) && entries != []
    ensures |entries| >= 2 ==> NthAncestor(entries, entries[|entries| - 1], 1) == Ok(entries[|entries| - 2])
    ensures |entries| == 1 ==> NthAncestor(entries, entries[|entries| - 1], 1) == Err(EntryAncestorNotFound)
  {
    FirstIndexOfDistinct(entries, |entries| - 1);
  }

  /** On an index without repeated dates, going a steps back and then b
      more is going a + b steps back (so "~2" and "^^" agree). */
  lemma AncestorsCompose(entries: seq<Date>, date: Date, a: int, b: int)
    requires StrictlyIncreasing(entries)
    requires NthAncestor(entries, date, a).Ok?
    ensures NthAncestor(entries, NthAncestor(entries, date, a).value, b) == NthAncestor(entries, date, a + b)
  {
    var k := FirstIndex(entries, date) - a;
    FirstIndexOfDistinct(entries, k);
  }

  /** On an ascending index without repeats, a positive n goes to an older
      entry and a negative n to a newer one. */
  lemma AncestorDirection(entries: seq<Date>, date: Date, n: int)
    requires StrictlyIncreasing(entries)
    requires NthAncestor(entries, date, n).Ok?
    ensures n > 0 ==> NthAncestor(entries, date, n).value < date
    ensures n < 0 ==> NthAncestor(entries, date, n).value > date
  {
  }

  /** The first ancestor is the entry immediately before: no entry lies
      strictly between them. */
  lemma FirstAncestorIsPredecessor(entries: seq<Date>, date: Date, e: Date)
    requires StrictlyIncreasing(entries)
    requires NthAncestor(entries, date, 1).Ok? && e in entries
    ensures !(NthAncestor(entries, date, 1).value < e < date)
  {
    var k := FirstIndex(entries, date);
    var j :| 0 <= j < |entries| && entries[j] == e;
  }

  /** find_closest_existing_entry: the nearest entry; on an empty journal
      it raises EntryAncestorNotFoundException, never the
      EntryNeighbourNotFoundException its documentation names. */
  function FindClosestExistingEntry(tree: Tree, date: Date): (r: Result<Date>)
    ensures r.Ok? ==> EntryOn(tree, r.value)
    ensures r == Err(EntryAncestorNotFound) <==> AllEntryDates(tree) == Ok([])
    ensures r == Err(ValueError) <==> AllEntryDates(tree).Err?
    ensures r.Err? ==> r.error != EntryNeighbourNotFound
    ensures r.Ok? ==> forall e :: e in AllEntryDates(tree).value ==> Distance(r.value, date) <= Distance(e, date) || !Sorted(AllEntryDates(tree).value)
  {
    var entries :- AllEntryDates(tree);
    if entries == [] then Err(EntryAncestorNotFound)
    else
      var c := FindClosestDate(entries, date);
      ListedIsEntry(tree, c);
      Ok(c)
  }

  /** The scan of find_lastest_existing_entry over the per-year results:
      from the last year backwards, the last date of the first non-empty
      year; a year that raises stops the scan. */
  function LatestOf(rs: seq<Result<seq<Date>>>): (r: Result<Date>)
  {
    if rs == [] then Err(JournalHeadNotFound)
    else
      var dates :- rs[|rs| - 1];
      if dates != [] then Ok(dates[|dates| - 1]) else LatestOf(rs[..|rs| - 1])
  }

  /** find_lastest_existing_entry (specification). */
  function LatestExistingEntry(tree: Tree): Result<Date> {
    LatestOf(YearResults(tree))
  }

  /** find_lastest_existing_entry: the loop over the reversed year list. */
  method FindLatestExistingEntry(tree: Tree) returns (r: Result<Date>)
    ensures r == LatestExistingEntry(tree)
  {
    var years := ExistingYearDirectories(tree);
    ghost var rs := YearResults(tree);
    var i := |years|;
    assert rs[..i] == rs;
    while i > 0
      invariant 0 <= i <= |years|
      invariant LatestOf(rs[..i]) == LatestOf(rs)
    {
      LatestOfPrefix(rs, i);
      i := i - 1;
      YearResultAt(tree, i);
      var yearDates := YearsExistingEntryDates(tree[years[i]]);
      assert yearDates == rs[i];
      if yearDates.Err? {
        return Err(yearDates.error);
      }
      if yearDates.value != [] {
        return Ok(yearDates.value[|yearDates.value| - 1]);
      }
    }
    return Err(JournalHeadNotFound);
  }

  lemma LatestOfPrefix(rs: seq<Result<seq<Date>>>, i: nat)
    requires 0 < i <= |rs|
    ensures rs[i - 1].Err? ==> LatestOf(rs[..i]) == Err(rs[i - 1].error)
    ensures rs[i - 1].Ok? && rs[i - 1].value != [] ==>
      LatestOf(rs[..i]) == Ok(rs[i - 1].value[|rs[i - 1].value| - 1])
    ensures rs[i - 1] == Ok([]) ==> LatestOf(rs[..i]) == LatestOf(rs[..i - 1])
  {
    assert rs[..i][..i - 1] == rs[..i - 1];
  }

  /** Whenever the whole index builds, the latest entry is its last date,
      and there is none exactly when the index is empty. */
  lemma {:induction false} LatestOfFlatten(rs: seq<Result<seq<Date>>>)
    requires Flatten(rs).Ok?
    ensures Flatten(rs).value == [] ==> LatestOf(rs) == Err(JournalHeadNotFound)
    ensures Flatten(rs).value != [] ==> LatestOf(rs) == Ok(Flatten(rs).value[|Flatten(rs).value| - 1])
  {
    if rs != [] {
      var init := rs[..|rs| - 1];
      LatestOfFlatten(init);
    }
  }

  lemma LatestIsLastEntry(tree: Tree)
    requires AllEntryDates(tree).Ok?
    ensures AllEntryDates(tree).value == [] ==> LatestExistingEntry(tree) == Err(JournalHeadNotFound)
    ensures AllEntryDates(tree).value != [] ==>
      LatestExistingEntry(tree) == Ok(AllEntryDates(tree).value[|AllEntryDates(tree).value| - 1])
  {
    LatestOfFlatten(YearResults(tree));
  }

  /** The scan finds no head exactly when every year's list is empty. */
  lemma {:induction false} LatestOfNoHead(rs: seq<Result<seq<Date>>>)
    requires forall i :: 0 <= i < |rs| ==> rs[i] != Err(JournalHeadNotFound)
    ensures LatestOf(rs) == Err(JournalHeadNotFound) <==> forall i :: 0 <= i < |rs| ==> rs[i] == Ok([])
  {
    if rs != [] {
      var init := rs[..|rs| - 1];
      LatestOfNoHead(init);
      assert forall i :: 0 <= i < |init| ==> init[i] == rs[i];
    }
  }

  /** The scan raises an error taken from a year result exactly when some
      year raises and every later year is empty. */
  lemma {:induction false} LatestOfRaises(rs: seq<Result<seq<Date>>>, e: PyError)
    requires e != JournalHeadNotFound
    ensures LatestOf(rs) == Err(e) <==>
      exists i :: 0 <= i < |rs| && rs[i] == Err(e) && forall j :: i < j < |rs| ==> rs[j] == Ok([])
  {
    if rs != [] {
      var init := rs[..|rs| - 1];
      LatestOfRaises(init, e);
      assert forall i :: 0 <= i < |init| ==> init[i] == rs[i];
    }
  }

  /** find_lastest_existing_entry raises JournalHeadNotFoundException
      exactly when every year directory lists no entry. */
  lemma LatestHeadNotFound(tree: Tree)
    ensures LatestExistingEntry(tree) == Err(JournalHeadNotFound) <==>
      forall y :: y in tree && IsYearDirectoryName(y) ==> YearsExistingEntryDates(tree[y]) == Ok([])
  {
    var years := ExistingYearDirectories(tree);
    var rs := YearResults(tree);
    forall i | 0 <= i < |rs| ensures rs[i] != Err(JournalHeadNotFound) {
      YearResultAt(tree, i);
    }
    LatestOfNoHead(rs);
    if forall y :: y in tree && IsYearDirectoryName(y) ==> YearsExistingEntryDates(tree[y]) == Ok([]) {
      forall i | 0 <= i < |rs| ensures rs[i] == Ok([]) {
        YearResultAt(tree, i);
        assert years[i] in years;
      }
    }
    if LatestExistingEntry(tree) == Err(JournalHeadNotFound) {
      forall y | y in tree && IsYearDirectoryName(y) ensures YearsExistingEntryDates(tree[y]) == Ok([]) {
        var i :| 0 <= i < |years| && years[i] == y;
        YearResultAt(tree, i);
      }
    }
  }
}
