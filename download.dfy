/**
  The list (table) view: a search filter, a sortable table revealed 50 rows
  at a time, a selection of identifiers scoped to the visible rows, and the
  delete action. The updaters the view hands to its state setters are pure
  functions here; the state fields and the handlers that replace them are
  the class `ListView`.
 */
module Download {
  import opened Optional
  import opened Strings
  import opened Sequences
  import Uploads

  /** A listed file as the list view sees it; `date` is the parsed timestamp. */
  datatype FileRecord = FileRecord(id: string, filename: string, name: string, size: int, date: int)

  datatype SortField = Id | Name | Size | Date
  datatype Order = Asc | Desc
  datatype SortConfig = SortConfig(field: SortField, order: Order)

  /** Rows shown before any scrolling, and after every change of the query. */
  const InitialVisibleCount: nat := 50
  /** Rows added by one scroll trigger. */
  const ScrollStep: nat := 50
  /** Characters of an identifier shown before the ellipsis. */
  const IdDisplayLength: nat := 12

  function Min(a: int, b: int): int
  {
    if a < b then a else b
  }

  // ---------------------------------------------------------------------
  // Search

  /** The test the search box applies to one record: its display name. */
  function NameTest(searchQuery: string): (test: FileRecord -> bool)
    ensures forall f :: test(f) <==> Includes(Lower(f.name), Lower(searchQuery))
  {
    (f: FileRecord) => MatchesQuery(f.name, searchQuery)
  }


  /** `filteredFiles`: the records whose name contains the query, ignoring case, in list order. */
  function FilteredFiles(files: seq<FileRecord>, searchQuery: string): (r: seq<FileRecord>)
    ensures IsSubsequence(r, files)
    ensures forall f :: f in r <==> f in files && MatchesQuery(f.name, searchQuery)
    ensures searchQuery == "" ==> r == files
  {
    var r := Filter(files, NameTest(searchQuery));
    if searchQuery == "" then
      forall f | f in files ensures MatchesQuery(f.name, searchQuery) {
        EmptyQueryMatches(f.name);
      }
      FilterKeepsAll(files, NameTest(searchQuery));
      r
    else r
  }

  /** The identifiers of some rows, in row order (`rows.map(file => file.id)`). */
  function Ids(rows: seq<FileRecord>): (ids: seq<string>)
    ensures |ids| == |rows|
    ensures forall i :: 0 <= i < |rows| ==> ids[i] == rows[i].id
  {
    seq(|rows|, i requires 0 <= i < |rows| => rows[i].id)
  }

  // ---------------------------------------------------------------------
  // Sorting

  /** The comparator of `sortFiles` before the direction is applied. */
  function Compare(field: SortField, a: FileRecord, b: FileRecord): (c: int)
    ensures field == Size ==> (c <= 0 <==> a.size <= b.size) && (c == 0 <==> a.size == b.size)
    ensures field == Date ==> (c <= 0 <==> a.date <= b.date) && (c == 0 <==> a.date == b.date)
    ensures field == Id ==> (c == 0 <==> a.id == b.id)
    ensures field == Name ==> (c == 0 <==> a.name == b.name)
  {
    if field == Id then StringCompare(a.id, b.id)
    else if field == Size then a.size - b.size
    else if field == Date then a.date - b.date
    else StringCompare(a.name, b.name)
  }

  lemma CompareAntisymmetric(field: SortField, a: FileRecord, b: FileRecord)
    ensures Compare(field, a, b) == -Compare(field, b, a)
  {
    StringCompareAntisymmetric(a.id, b.id);
    StringCompareAntisymmetric(a.name, b.name);
  }

  lemma CompareTransitive(field: SortField, a: FileRecord, b: FileRecord, c: FileRecord)
    requires Compare(field, a, b) <= 0 && Compare(field, b, c) <= 0
    ensures Compare(field, a, c) <= 0
  {
    if field == Id {
      StringCompareTransitive(a.id, b.id, c.id);
    } else if field == Name {
      StringCompareTransitive(a.name, b.name, c.name);
    }
  }

  /** The comparator's result for the chosen direction: negated when descending. */
  function Directed(order: Order, result: int): (directed: int)
    ensures directed == 0 <==> result == 0
    ensures order == Asc ==> (directed < 0 <==> result < 0)
    ensures order == Desc ==> (directed < 0 <==> result > 0) && directed + result == 0
  {
    if order == Asc then result else -result
  }

  /** The comparator passed to `sort` lets `a` stay in front of `b`. */
  predicate Precedes(field: SortField, order: Order, a: FileRecord, b: FileRecord)
  {
    Directed(order, Compare(field, a, b)) <= 0
  }

  lemma PrecedesReflexive(field: SortField, order: Order, a: FileRecord)
    ensures Precedes(field, order, a, a)
  {
    CompareAntisymmetric(field, a, a);
  }

  /** Of any two records, one may stand in front of the other. */
  lemma PrecedesTotal(field: SortField, order: Order, a: FileRecord, b: FileRecord)
    ensures Precedes(field, order, a, b) || Precedes(field, order, b, a)
  {
    CompareAntisymmetric(field, a, b);
  }

  lemma PrecedesTransitive(field: SortField, order: Order, a: FileRecord, b: FileRecord, c: FileRecord)
    requires Precedes(field, order, a, b) && Precedes(field, order, b, c)
    ensures Precedes(field, order, a, c)
  {
    if order == Asc {
      CompareTransitive(field, a, b, c);
    } else {
      CompareAntisymmetric(field, a, b);
      CompareAntisymmetric(field, b, c);
      CompareAntisymmetric(field, a, c);
      CompareTransitive(field, c, b, a);
    }
  }

  /** The negated comparator orders the records backwards. */
  lemma DescendingIsReversedAscending(field: SortField, a: FileRecord, b: FileRecord)
    ensures Precedes(field, Desc, a, b) == Precedes(field, Asc, b, a)
  {
    CompareAntisymmetric(field, a, b);
  }

  /** Records that may each stand in front of the other are tied on the field. */
  lemma PrecedesBothWaysIsTie(field: SortField, order: Order, a: FileRecord, b: FileRecord)
    requires Precedes(field, order, a, b) && Precedes(field, order, b, a)
    ensures Compare(field, a, b) == 0
  {
    CompareAntisymmetric(field, a, b);
  }

  /** Ordered by the directed comparator. */
  predicate Sorted(s: seq<FileRecord>, field: SortField, order: Order)
  {
    forall i, j :: 0 <= i < j < |s| ==> Precedes(field, order, s[i], s[j])
  }

  lemma SortedTail(s: seq<FileRecord>, field: SortField, order: Order)
    requires s != [] && Sorted(s, field, order)
    ensures Sorted(s[1..], field, order)
  {
    forall i, j | 0 <= i < j < |s[1..]| ensures Precedes(field, order, s[1..][i], s[1..][j]) {
      assert s[1..][i] == s[i + 1] && s[1..][j] == s[j + 1];
    }
  }

  /** Placing `x` in front of the first record it may precede, keeping ties in arrival order. */
  function Insert(x: FileRecord, s: seq<FileRecord>, field: SortField, order: Order): (r: seq<FileRecord>)
    ensures multiset(r) == multiset(s) + multiset{x}
    decreases |s|
  {
    if s == [] || Precedes(field, order, x, s[0]) then [x] + s
    else
      assert s == [s[0]] + s[1..];
      [s[0]] + Insert(x, s[1..], field, order)
  }

  lemma {:induction false} InsertSorted(x: FileRecord, s: seq<FileRecord>, field: SortField, order: Order)
    requires Sorted(s, field, order)
    ensures Sorted(Insert(x, s, field, order), field, order)
    decreases |s|
  {
    if s == [] {
    } else if Precedes(field, order, x, s[0]) {
      forall j | 0 <= j < |s| ensures Precedes(field, order, x, s[j]) {
        if j > 0 {
          PrecedesTransitive(field, order, x, s[0], s[j]);
        }
      }
      var r := [x] + s;
      forall i, j | 0 <= i < j < |r| ensures Precedes(field, order, r[i], r[j]) {
        assert r[j] == s[j - 1];
        if i > 0 {
          assert r[i] == s[i - 1];
        }
      }
    } else {
      PrecedesTotal(field, order, x, s[0]);
      SortedTail(s, field, order);
      InsertSorted(x, s[1..], field, order);
      var t := Insert(x, s[1..], field, order);
      forall k | 0 <= k < |t| ensures Precedes(field, order, s[0], t[k]) {
        assert t[k] in multiset(t);
        if t[k] != x {
          assert t[k] in s[1..];
          var m :| 0 <= m < |s[1..]| && s[1..][m] == t[k];
          assert s[1..][m] == s[m + 1];
        }
      }
      var r := [s[0]] + t;
      assert Insert(x, s, field, order) == r;
      forall i, j | 0 <= i < j < |r| ensures Precedes(field, order, r[i], r[j]) {
        assert r[j] == t[j - 1];
        if i > 0 {
          assert r[i] == t[i - 1];
        }
      }
    }
  }

  /**
    `[...files].sort(comparator)`: a stable insertion sort by the directed
    comparator, the reference for the engine's stable sort.
   */
  function SortRecords(s: seq<FileRecord>, field: SortField, order: Order): (r: seq<FileRecord>)
    ensures Sorted(r, field, order)
    ensures multiset(r) == multiset(s)
    decreases |s|
  {
    if s == [] then []
    else
      var t := SortRecords(s[1..], field, order);
      InsertSorted(s[0], t, field, order);
      assert s == [s[0]] + s[1..];
      Insert(s[0], t, field, order)
  }

  /** The records tied with `x` on `field`: those the comparator cannot tell from `x`. */
  function TiedWith(field: SortField, x: FileRecord): (test: FileRecord -> bool)
    ensures forall y :: test(y) <==> Compare(field, x, y) == 0
  {
    (y: FileRecord) => Compare(field, x, y) == 0
  }

  /** Records tied on the field compare equal to the same records. */
  lemma TieIsTransitive(field: SortField, x: FileRecord, a: FileRecord, b: FileRecord)
    requires Compare(field, x, a) == 0 && Compare(field, x, b) == 0
    ensures Compare(field, a, b) == 0
  {
  }

  /**
    Inserting `x0` puts it in front of every record tied with it, so among
    any class of tied records it stands first and the others keep their order.
   */
  lemma {:induction false} InsertKeepsTieOrder(x0: FileRecord, t: seq<FileRecord>, field: SortField, order: Order, x: FileRecord)
    ensures Filter(Insert(x0, t, field, order), TiedWith(field, x)) ==
      (if Compare(field, x, x0) == 0 then [x0] else []) + Filter(t, TiedWith(field, x))
    decreases |t|
  {
    var p := TiedWith(field, x);
    if t == [] || Precedes(field, order, x0, t[0]) {
      var r := [x0] + t;
      assert r[0] == x0 && r[1..] == t;
    } else {
      InsertKeepsTieOrder(x0, t[1..], field, order, x);
      var r := [t[0]] + Insert(x0, t[1..], field, order);
      assert r[0] == t[0] && r[1..] == Insert(x0, t[1..], field, order);
      // `t[0]` was passed over, so it is not tied with `x0`
      assert Compare(field, x0, t[0]) != 0;
      if p(x0) && p(t[0]) {
        TieIsTransitive(field, x, x0, t[0]);
      }
    }
  }

  /**
    The sort is stable: the records tied with any `x` on the sorted field
    come out in the order they went in.
   */
  lemma {:induction false} SortStable(s: seq<FileRecord>, field: SortField, order: Order, x: FileRecord)
    ensures Filter(SortRecords(s, field, order), TiedWith(field, x)) == Filter(s, TiedWith(field, x))
    decreases |s|
  {
    if s != [] {
      SortStable(s[1..], field, order, x);
      InsertKeepsTieOrder(s[0], SortRecords(s[1..], field, order), field, order, x);
    }
  }

  /** Sorting already ordered records leaves them where they are. */
  lemma {:induction false} SortSortedIsIdentity(s: seq<FileRecord>, field: SortField, order: Order)
    requires Sorted(s, field, order)
    ensures SortRecords(s, field, order) == s
    decreases |s|
  {
    if s != [] {
      SortedTail(s, field, order);
      SortSortedIsIdentity(s[1..], field, order);
      if |s| > 1 {
        assert Precedes(field, order, s[0], s[1..][0]);
      }
      assert [s[0]] + s[1..] == s;
    }
  }

  /** Sorting twice by the same field and direction is sorting once. */
  lemma SortIdempotent(s: seq<FileRecord>, field: SortField, order: Order)
    ensures SortRecords(SortRecords(s, field, order), field, order) == SortRecords(s, field, order)
  {
    SortSortedIsIdentity(SortRecords(s, field, order), field, order);
  }

  /** No two different records of `s` compare equal on the field. */
  ghost predicate NoTies(s: seq<FileRecord>, field: SortField)
  {
    forall x, y :: x in s && y in s && Compare(field, x, y) == 0 ==> x == y
  }

  /** The first of ordered records may stand in front of every one of them. */
  lemma SortedHeadPrecedes(s: seq<FileRecord>, field: SortField, order: Order, x: FileRecord)
    requires Sorted(s, field, order) && x in s
    ensures Precedes(field, order, s[0], x)
  {
    var k :| 0 <= k < |s| && s[k] == x;
    if k == 0 {
      PrecedesReflexive(field, order, x);
    }
  }

  /** Without ties there is only one ordered arrangement of the same records. */
  lemma {:induction false} SortedUnique(a: seq<FileRecord>, b: seq<FileRecord>, field: SortField, order: Order)
    requires Sorted(a, field, order) && Sorted(b, field, order)
    requires multiset(a) == multiset(b) && NoTies(a, field)
    ensures a == b
    decreases |a|
  {
    assert |a| == |multiset(a)| == |multiset(b)| == |b|;
    if a != [] {
      assert a[0] in multiset(b) && b[0] in multiset(a);
      SortedHeadPrecedes(b, field, order, a[0]);
      SortedHeadPrecedes(a, field, order, b[0]);
      PrecedesBothWaysIsTie(field, order, a[0], b[0]);
      SortedTail(a, field, order);
      SortedTail(b, field, order);
      SameTails(a, b);
      SortedUnique(a[1..], b[1..], field, order);
      assert a == [a[0]] + a[1..] && b == [b[0]] + b[1..];
    }
  }

  /** Equal heads and equal multisets mean equal multisets of the tails. */
  lemma SameTails(a: seq<FileRecord>, b: seq<FileRecord>)
    requires a != [] && b != [] && a[0] == b[0] && multiset(a) == multiset(b)
    ensures multiset(a[1..]) == multiset(b[1..])
  {
    assert a == [a[0]] + a[1..] && b == [b[0]] + b[1..];
    assert multiset(a) == multiset{a[0]} + multiset(a[1..]);
    assert multiset(b) == multiset{a[0]} + multiset(b[1..]);
    forall x ensures multiset(a[1..])[x] == multiset(b[1..])[x] {
      assert multiset(a)[x] == multiset{a[0]}[x] + multiset(a[1..])[x];
      assert multiset(b)[x] == multiset{a[0]}[x] + multiset(b[1..])[x];
    }
  }

  /** Without ties, descending order is ascending order reversed. */
  lemma AscendingThenDescendingReverses(s: seq<FileRecord>, field: SortField)
    requires NoTies(s, field)
    ensures SortRecords(SortRecords(s, field, Asc), field, Desc) == Reverse(SortRecords(s, field, Asc))
  {
    var up := SortRecords(s, field, Asc);
    var down := SortRecords(up, field, Desc);
    var rev := Reverse(up);
    forall i, j | 0 <= i < j < |rev| ensures Precedes(field, Desc, rev[i], rev[j]) {
      DescendingIsReversedAscending(field, rev[i], rev[j]);
    }
    ReverseMultiset(up);
    forall x, y | x in down && y in down && Compare(field, x, y) == 0 ensures x == y {
      assert x in multiset(down) && y in multiset(down);
    }
    SortedUnique(down, rev, field, Desc);
  }

  /** The direction a column starts with: descending for the date, ascending for the others. */
  function DefaultOrder(field: SortField): (order: Order)
    ensures order == Desc <==> field == Date
  {
    if field == Date then Desc else Asc
  }

  /** The other direction. */
  function Flip(order: Order): (flipped: Order)
    ensures flipped != order
  {
    if order == Asc then Desc else Asc
  }

  /**
    `handleSort`'s choice: the active column flips its direction, any other
    column (or the first click) takes its default direction.
   */
  function NextSortConfig(current: Option<SortConfig>, field: SortField): (next: SortConfig)
    ensures next.field == field
    ensures current.Some? && current.value.field == field ==> next.order != current.value.order
    ensures !(current.Some? && current.value.field == field) ==> (next.order == Desc <==> field == Date)
  {
    if current.Some? && current.value.field == field then SortConfig(field, Flip(current.value.order))
    else SortConfig(field, DefaultOrder(field))
  }

  /** Clicking the active column twice returns to the direction it had. */
  lemma SortClickTwiceRestores(c: SortConfig)
    ensures NextSortConfig(Some(NextSortConfig(Some(c), c.field)), c.field) == c
  {
  }

  const UpArrow: string := "\U{2191}"
  const DownArrow: string := "\U{2193}"

  /** `getSortIndicator`: an arrow on the active column only. */
  function SortIndicator(current: Option<SortConfig>, field: SortField): (mark: string)
    ensures mark != "" <==> current.Some? && current.value.field == field
    ensures mark == UpArrow <==> current == Some(SortConfig(field, Asc))
    ensures mark == DownArrow <==> current == Some(SortConfig(field, Desc))
  {
    assert UpArrow[0] != DownArrow[0];
    if current.Some? && current.value.field == field then
      match current.value.order
      case Asc => UpArrow
      case Desc => DownArrow
    else ""
  }

  // ---------------------------------------------------------------------
  // Infinite scroll

  /** The scroll updater `prev => Math.min(prev + 50, filteredFiles.length)`. */
  function GrowVisible(prev: nat, filteredLength: nat): (next: nat)
    ensures next <= filteredLength
    ensures next <= prev + ScrollStep
    ensures next == prev + ScrollStep || next == filteredLength
  {
    Min(prev + ScrollStep, filteredLength)
  }

  /** The visible count after `k` scroll triggers. */
  function GrowTimes(prev: nat, filteredLength: nat, k: nat): nat
  {
    if k == 0 then prev else GrowVisible(GrowTimes(prev, filteredLength, k - 1), filteredLength)
  }

  /** From within the filtered length, `k` triggers reveal `50 * k` more rows, up to the end. */
  lemma {:induction false} GrowTimesReveals(prev: nat, filteredLength: nat, k: nat)
    requires prev <= filteredLength
    ensures GrowTimes(prev, filteredLength, k) == Min(prev + ScrollStep * k, filteredLength)
  {
    if k > 0 {
      GrowTimesReveals(prev, filteredLength, k - 1);
    }
  }

  /** Once every filtered row is shown, further triggers change nothing. */
  lemma {:induction false} GrowAtCapIsStable(filteredLength: nat, k: nat)
    ensures GrowTimes(filteredLength, filteredLength, k) == filteredLength
  {
    if k > 0 {
      GrowAtCapIsStable(filteredLength, k - 1);
    }
  }

  /** 120 records: 50 rows, then 100, then 120, then still 120. */
  lemma ScrollScenario()
    ensures GrowTimes(InitialVisibleCount, 120, 1) == 100
    ensures GrowTimes(InitialVisibleCount, 120, 2) == 120
    ensures GrowTimes(InitialVisibleCount, 120, 3) == 120
  {
  }

  // ---------------------------------------------------------------------
  // Selection

  /** `handleSelect`'s updaters: append the identifier, or drop every copy of it. */
  function SelectUpdate(prev: seq<string>, id: string, checked: bool): (r: seq<string>)
    ensures checked ==> r == prev + [id]
    ensures !checked ==> IsSubsequence(r, prev) && forall x :: x in r <==> x in prev && x != id
  {
    if checked then prev + [id] else Filter(prev, (item: string) => item != id)
  }

  /** Unchecking keeps every other identifier with all its copies. */
  lemma UncheckKeepsOthers(prev: seq<string>, id: string, x: string)
    requires x != id
    ensures multiset(SelectUpdate(prev, id, false))[x] == multiset(prev)[x]
  {
    FilterCounts(prev, (item: string) => item != id);
  }

  /**
    `handleSelectAll`'s updaters: when every visible identifier is selected,
    drop exactly those; otherwise add the visible identifiers that are
    missing, after the current selection.
   */
  function SelectAllUpdate(prev: seq<string>, visibleIds: seq<string>): (r: seq<string>)
    ensures AllIn(visibleIds, prev) ==>
      IsSubsequence(r, prev) && forall x :: x in r <==> x in prev && x !in visibleIds
    ensures !AllIn(visibleIds, prev) ==>
      && (forall x :: x in r <==> x in prev || x in visibleIds)
      && NoDuplicates(r)
      && (NoDuplicates(prev) ==> |prev| <= |r| && r[..|prev|] == prev)
    ensures NoDuplicates(prev) ==> NoDuplicates(r)
  {
    if AllIn(visibleIds, prev) then
      var r := Filter(prev, (id: string) => id !in visibleIds);
      if NoDuplicates(prev) then
        SubsequenceNoDuplicates(r, prev);
        r
      else r
    else
      var r := Dedup(prev + visibleIds);
      InsertAllAppend([], prev, visibleIds);
      if NoDuplicates(prev) then
        DedupDistinct(prev);
        r
      else r
  }

  /** Deselecting the visible rows keeps every copy of the identifiers that are not visible. */
  lemma DeselectKeepsHidden(prev: seq<string>, visibleIds: seq<string>, x: string)
    requires AllIn(visibleIds, prev) && x !in visibleIds
    ensures multiset(SelectAllUpdate(prev, visibleIds))[x] == multiset(prev)[x]
  {
    FilterCounts(prev, (id: string) => id !in visibleIds);
  }

  /**
    Select-all pressed twice, starting with some visible row unselected:
    no visible identifier stays selected and every hidden one does.
   */
  lemma SelectAllTwice(prev: seq<string>, visibleIds: seq<string>)
    requires !AllIn(visibleIds, prev)
    ensures var r := SelectAllUpdate(SelectAllUpdate(prev, visibleIds), visibleIds);
      forall x :: x in r <==> x in prev && x !in visibleIds
  {
    var once := SelectAllUpdate(prev, visibleIds);
    assert AllIn(visibleIds, once);
  }

  /**
    When no visible identifier was selected, select-all twice restores the
    selection exactly.
   */
  lemma SelectAllTwiceRestores(prev: seq<string>, visibleIds: seq<string>)
    requires NoDuplicates(prev) && visibleIds != []
    requires forall i :: 0 <= i < |visibleIds| ==> visibleIds[i] !in prev
    ensures SelectAllUpdate(SelectAllUpdate(prev, visibleIds), visibleIds) == prev
  {
    assert visibleIds[0] !in prev;
    var once := SelectAllUpdate(prev, visibleIds);
    assert AllIn(visibleIds, once);
    var added := once[|prev|..];
    assert once == prev + added;
    InsertAllAppend([], prev, visibleIds);
    DedupDistinct(prev);
    InsertAllAdds(prev, visibleIds);
    var p := (id: string) => id !in visibleIds;
    FilterKeepsAll(prev, p);
    forall i | 0 <= i < |added| ensures !p(added[i]) {
      assert added[i] == once[|prev| + i];
    }
    FilterDropsAll(added, p);
    FilterAppend(prev, added, p);
  }

  // ---------------------------------------------------------------------
  // Delete

  /** The delete updater `prev => prev.filter(f => f.filename !== filename)`. */
  function RemoveByFilename(files: seq<FileRecord>, filename: string): (r: seq<FileRecord>)
    ensures IsSubsequence(r, files)
    ensures forall f :: f in r <==> f in files && f.filename != filename
  {
    Filter(files, (f: FileRecord) => f.filename != filename)
  }

  /** The stored names are distinct. */
  predicate UniqueFilenames(files: seq<FileRecord>)
  {
    forall i, j :: 0 <= i < j < |files| ==> files[i].filename != files[j].filename
  }

  /** With distinct stored names, a successful delete removes exactly one record. */
  lemma {:induction false} DeleteRemovesOne(files: seq<FileRecord>, filename: string)
    requires UniqueFilenames(files)
    requires exists i :: 0 <= i < |files| && files[i].filename == filename
    ensures |RemoveByFilename(files, filename)| == |files| - 1
    decreases |files|
  {
    var p := (f: FileRecord) => f.filename != filename;
    assert UniqueFilenames(files[1..]) by {
      forall i, j | 0 <= i < j < |files[1..]| ensures files[1..][i].filename != files[1..][j].filename {
        assert files[1..][i] == files[i + 1] && files[1..][j] == files[j + 1];
      }
    }
    if files[0].filename == filename {
      forall i | 0 <= i < |files[1..]| ensures p(files[1..][i]) {
        assert files[1..][i] == files[i + 1];
      }
      FilterKeepsAll(files[1..], p);
    } else {
      var i :| 0 <= i < |files| && files[i].filename == filename;
      assert files[1..][i - 1] == files[i];
      DeleteRemovesOne(files[1..], filename);
    }
  }

  /** Deleting the same stored name again changes nothing. */
  lemma DeleteIdempotent(files: seq<FileRecord>, filename: string)
    ensures RemoveByFilename(RemoveByFilename(files, filename), filename) == RemoveByFilename(files, filename)
  {
    FilterIdempotent(files, (f: FileRecord) => f.filename != filename);
  }

  /** What the DELETE request came back with: the reply's `success` flag, or a failed request. */
  datatype DeleteResponse = Replied(success: bool) | RequestFailed

  /** The message shown to the user after a delete. */
  datatype Notice = Silent | Deleted | DeleteFailed

  // ---------------------------------------------------------------------
  // Row helpers

  /** `truncateId`: identifiers longer than 12 characters are cut to 12 and given an ellipsis. */
  function TruncateId(id: string): (shown: string)
    ensures |id| <= IdDisplayLength ==> shown == id
    ensures |id| > IdDisplayLength ==>
      |shown| == IdDisplayLength + 3 && shown[..IdDisplayLength] == id[..IdDisplayLength] && shown[IdDisplayLength..] == "..."
  {
    if |id| > IdDisplayLength then id[..IdDisplayLength] + "..." else id
  }

  const PreviewableExtensions: seq<string> :=
    ["jpg", "jpeg", "png", "gif", "bmp", "svg", "mp4", "webm", "ogg", "mp3", "wav"]

  /**
    `isPreviewable`: the text after the last dot, lower-cased, is on the
    previewable list; a name without a dot is tested as a whole.
   */
  function IsPreviewable(fileName: string): (b: bool)
    ensures forall ext :: IsLastPiece(ext, fileName, '.') ==> (b <==> Lower(ext) in PreviewableExtensions)
    ensures '.' !in fileName ==> (b <==> Lower(fileName) in PreviewableExtensions)
  {
    var ext := Lower(Last(Split(fileName, '.')));
    LastPiece(fileName, '.');
    forall e | IsLastPiece(e, fileName, '.') ensures e == Last(Split(fileName, '.')) {
      LastPieceUnique(e, Last(Split(fileName, '.')), fileName, '.');
    }
    if '.' !in fileName then
      assert IsLastPiece(fileName, fileName, '.');
      ext != "" && ext in PreviewableExtensions
    else
      ext != "" && ext in PreviewableExtensions
  }

  /** Upper-case `PNG` with no dot at all is previewable. */
  lemma DotlessPngIsPreviewable()
    ensures IsPreviewable("PNG")
  {
    assert "PNG"[0] != '.' && "PNG"[1] != '.' && "PNG"[2] != '.';
    assert Lower("PNG") == "png";
  }

  /**
    `handleFileClick`: a previewable file opens directly; any other opens
    only when the user confirms the download prompt.
   */
  function FileClickOpens(file: FileRecord, confirmed: bool): (url: Option<string>)
    ensures url.Some? <==> IsPreviewable(file.filename) || confirmed
    ensures url.Some? ==> url.value == Uploads.AssetUrl(file.filename)
  {
    if !IsPreviewable(file.filename) && !confirmed then None
    else Some(Uploads.AssetUrl(file.filename))
  }

  // ---------------------------------------------------------------------
  // The view's state

  class ListView {
    var files: seq<FileRecord>
    var sortConfig: Option<SortConfig>
    var visibleCount: nat
    var searchQuery: string
    var selectedIds: seq<string>

    /** The selection never lists an identifier twice. */
    ghost predicate Valid()
      reads this
    {
      NoDuplicates(selectedIds)
    }

    /** A freshly mounted view, before the listing arrives. */
    constructor ()
      ensures Valid()
      ensures files == [] && sortConfig == None && visibleCount == InitialVisibleCount
      ensures searchQuery == "" && selectedIds == []
    {
      files := [];
      sortConfig := None;
      visibleCount := InitialVisibleCount;
      searchQuery := "";
      selectedIds := [];
    }

    /** The records matching the query, in the current order of `files`. */
    function Filtered(): (shown: seq<FileRecord>)
      reads this
      ensures IsSubsequence(shown, files)
      ensures forall f :: f in shown <==> f in files && MatchesQuery(f.name, searchQuery)
    {
      FilteredFiles(files, searchQuery)
    }

    /** The rows of the table: the first `visibleCount` filtered records. */
    function VisibleRows(): (rows: seq<FileRecord>)
      reads this
      ensures |rows| == Min(visibleCount, |Filtered()|)
      ensures rows == Filtered()[..|rows|]
    {
      Take(Filtered(), visibleCount)
    }

    /** The identifiers of the rows of the table. */
    function VisibleIds(): (ids: seq<string>)
      reads this
      ensures |ids| == |VisibleRows()|
      ensures forall i :: 0 <= i < |ids| ==> ids[i] == VisibleRows()[i].id
    {
      Ids(VisibleRows())
    }

    /** The row checkbox of `id`. */
    predicate IsChecked(id: string)
      reads this
      ensures IsChecked(id) <==> exists i :: 0 <= i < |selectedIds| && selectedIds[i] == id
    {
      id in selectedIds
    }

    /** The listing arrived: `setFiles(data)`. */
    method Load(data: seq<FileRecord>)
      modifies this
      ensures files == data
      ensures sortConfig == old(sortConfig) && visibleCount == old(visibleCount)
      ensures searchQuery == old(searchQuery) && selectedIds == old(selectedIds)
    {
      files := data;
    }

    /** The search box changed; a different query shows 50 rows again. */
    method SetSearchQuery(query: string)
      modifies this
      ensures searchQuery == query
      ensures visibleCount == if query != old(searchQuery) then InitialVisibleCount else old(visibleCount)
      ensures files == old(files) && sortConfig == old(sortConfig) && selectedIds == old(selectedIds)
    {
      var changed := query != searchQuery;
      searchQuery := query;
      if changed {
        visibleCount := InitialVisibleCount;
      }
    }

    /** A scroll event; `nearBottom` says the viewport is within 500 pixels of the page's end. */
    method OnScroll(nearBottom: bool)
      modifies this
      ensures visibleCount == if nearBottom then GrowVisible(old(visibleCount), |Filtered()|) else old(visibleCount)
      ensures nearBottom ==> visibleCount <= |Filtered()|
      ensures files == old(files) && sortConfig == old(sortConfig)
      ensures searchQuery == old(searchQuery) && selectedIds == old(selectedIds)
    {
      if nearBottom {
        visibleCount := GrowVisible(visibleCount, |Filtered()|);
      }
    }

    /** `sortFiles`: replace `files` by a sorted copy. */
    method SortFiles(field: SortField, order: Order)
      modifies this
      ensures files == SortRecords(old(files), field, order)
      ensures Sorted(files, field, order) && multiset(files) == multiset(old(files))
      ensures sortConfig == old(sortConfig) && visibleCount == old(visibleCount)
      ensures searchQuery == old(searchQuery) && selectedIds == old(selectedIds)
    {
      files := SortRecords(files, field, order);
    }

    /** A click on a column header. */
    method HandleSort(field: SortField)
      modifies this
      ensures sortConfig == Some(NextSortConfig(old(sortConfig), field))
      ensures files == SortRecords(old(files), field, sortConfig.value.order)
      ensures Sorted(files, field, sortConfig.value.order) && multiset(files) == multiset(old(files))
      ensures visibleCount == old(visibleCount)
      ensures searchQuery == old(searchQuery) && selectedIds == old(selectedIds)
    {
      var next := NextSortConfig(sortConfig, field);
      sortConfig := Some(next);
      SortFiles(field, next.order);
    }

    /** `handleSelect(id, checked)`. */
    method HandleSelect(id: string, checked: bool)
      modifies this
      ensures selectedIds == SelectUpdate(old(selectedIds), id, checked)
      ensures old(Valid()) && (checked ==> id !in old(selectedIds)) ==> Valid()
      ensures files == old(files) && sortConfig == old(sortConfig)
      ensures visibleCount == old(visibleCount) && searchQuery == old(searchQuery)
    {
      var prev := selectedIds;
      selectedIds := SelectUpdate(selectedIds, id, checked);
      if NoDuplicates(prev) && !checked {
        SubsequenceNoDuplicates(selectedIds, prev);
      }
    }

    /** A row checkbox toggled: it reports the opposite of its current state. */
    method OnCheckboxChange(id: string)
      requires Valid()
      modifies this
      ensures Valid()
      ensures IsChecked(id) == !old(IsChecked(id))
      ensures forall x :: x != id ==> (IsChecked(x) <==> old(IsChecked(x)))
      ensures files == old(files) && sortConfig == old(sortConfig)
      ensures visibleCount == old(visibleCount) && searchQuery == old(searchQuery)
    {
      HandleSelect(id, !IsChecked(id));
    }

    /** The select/deselect-all button, scoped to the rows of the table. */
    method HandleSelectAll()
      requires Valid()
      modifies this
      ensures Valid()
      ensures selectedIds == SelectAllUpdate(old(selectedIds), VisibleIds())
      ensures AllIn(VisibleIds(), old(selectedIds)) ==>
        forall x :: IsChecked(x) <==> old(IsChecked(x)) && x !in VisibleIds()
      ensures !AllIn(VisibleIds(), old(selectedIds)) ==>
        forall x :: IsChecked(x) <==> old(IsChecked(x)) || x in VisibleIds()
      ensures files == old(files) && sortConfig == old(sortConfig)
      ensures visibleCount == old(visibleCount) && searchQuery == old(searchQuery)
    {
      selectedIds := SelectAllUpdate(selectedIds, VisibleIds());
    }

    /**
      `handleDelete` for one row, given the user's answer to the confirmation
      and what the DELETE request came back with.
     */
    method HandleDelete(file: FileRecord, confirmed: bool, response: DeleteResponse) returns (notice: Notice)
      modifies this
      ensures notice == if !confirmed then Silent else if response == Replied(true) then Deleted else DeleteFailed
      ensures files == if notice == Deleted then RemoveByFilename(old(files), file.filename) else old(files)
      ensures sortConfig == old(sortConfig) && visibleCount == old(visibleCount)
      ensures searchQuery == old(searchQuery) && selectedIds == old(selectedIds)
    {
      if !confirmed {
        notice := Silent;
      } else if response == Replied(true) {
        files := RemoveByFilename(files, file.filename);
        notice := Deleted;
      } else {
        notice := DeleteFailed;
      }
    }
  }
}
