/** The table view: a case-insensitive search over the store's entries, pages of
    five rows, row actions that address the store by position, and the edit
    dialog's session state. */
module UserTable {
  import opened Entries
  import opened Validation
  import opened RecordStore

  const PageSize := 5

  function Min(a: int, b: int): int { if a <= b then a else b }

  // ---------------------------------------------------------------- search

  /** ASCII case folding: 'A'..'Z' become 'a'..'z', every other character stays. */
  function LowerChar(c: char): char {
    if 'A' <= c <= 'Z' then (c as int + 32) as char else c
  }

  /** `s.toLowerCase()`, restricted to ASCII letters. */
  function Lower(s: string): (r: string)
    ensures |r| == |s|
  {
    if s == [] then [] else [LowerChar(s[0])] + Lower(s[1..])
  }

  /** Each character of the lower-cased string is the ASCII lower case of the
      character at the same position. */
  lemma {:induction false} LowerAt(s: string, i: int)
    requires 0 <= i < |s|
    ensures Lower(s)[i] == LowerChar(s[i])
    decreases |s|
  {
    if i > 0 {
      LowerAt(s[1..], i - 1);
    }
  }

  /** `s.includes(t)`: t is a prefix of s or of some suffix of s. */
  predicate Includes(s: string, t: string)
    ensures Includes(s, t) ==> |t| <= |s|
    ensures t == [] ==> Includes(s, t)
    decreases |s|
  {
    |t| <= |s| && (s[..|t|] == t || Includes(s[1..], t))
  }

  /** t occurs in s starting at position i. */
  predicate OccursAt(s: string, t: string, i: int) {
    0 <= i <= |s| - |t| && s[i..i + |t|] == t
  }

  /** Includes holds exactly when t occurs somewhere in s. */
  lemma {:induction false} IncludesIffOccurs(s: string, t: string)
    ensures Includes(s, t) <==> exists i :: OccursAt(s, t, i)
    decreases |s|
  {
    if |t| <= |s| && s[..|t|] != t {
      IncludesIffOccurs(s[1..], t);
      if Includes(s[1..], t) {
        var i :| OccursAt(s[1..], t, i);
        assert OccursAt(s, t, i + 1);
      }
      if exists i :: OccursAt(s, t, i) {
        var i :| OccursAt(s, t, i);
        assert i != 0;
        assert OccursAt(s[1..], t, i - 1);
      }
    } else if |t| <= |s| {
      assert OccursAt(s, t, 0);
    }
  }

  /** `Array.prototype.filter`: the elements `keep` accepts, in their order. */
  function FilterBy<T>(s: seq<T>, keep: T -> bool): (r: seq<T>)
    ensures |r| <= |s|
  {
    if s == [] then []
    else (if keep(s[0]) then [s[0]] else []) + FilterBy(s[1..], keep)
  }

  /** a can be obtained from b by deleting elements. */
  predicate IsSubsequence<T(==)>(a: seq<T>, b: seq<T>)
    decreases |b|
  {
    a == [] || (b != [] && ((a[0] == b[0] && IsSubsequence(a[1..], b[1..])) || IsSubsequence(a, b[1..])))
  }

  lemma {:induction false} FilterIsSubsequence<T>(s: seq<T>, keep: T -> bool)
    ensures IsSubsequence(FilterBy(s, keep), s)
    decreases |s|
  {
    if s != [] {
      FilterIsSubsequence(s[1..], keep);
      var r := FilterBy(s, keep);
      if keep(s[0]) {
        assert r[0] == s[0] && r[1..] == FilterBy(s[1..], keep);
      } else {
        assert r == FilterBy(s[1..], keep);
      }
    }
  }

  lemma {:induction false} FilterKeepsExactly<T>(s: seq<T>, keep: T -> bool)
    ensures forall x :: x in FilterBy(s, keep) <==> x in s && keep(x)
    decreases |s|
  {
    if s != [] {
      FilterKeepsExactly(s[1..], keep);
      assert s == [s[0]] + s[1..];
    }
  }

  lemma {:induction false} FilterKeepsAll<T>(s: seq<T>, keep: T -> bool)
    requires forall i :: 0 <= i < |s| ==> keep(s[i])
    ensures FilterBy(s, keep) == s
    decreases |s|
  {
    if s != [] {
      FilterKeepsAll(s[1..], keep);
    }
  }

  /** The positions in s, counted from `base`, of the elements the filter keeps. */
  function KeptPositions<T>(s: seq<T>, keep: T -> bool, base: int): seq<int>
    decreases |s|
  {
    if s == [] then []
    else (if keep(s[0]) then [base] else []) + KeptPositions(s[1..], keep, base + 1)
  }

  /** The filter result, position by position: its j-th element is the element at
      the j-th kept position. */
  lemma {:induction false} KeptPositionsSelect<T>(s: seq<T>, keep: T -> bool, base: int)
    ensures var ps := KeptPositions(s, keep, base);
      && |ps| == |FilterBy(s, keep)|
      && forall j :: 0 <= j < |ps| ==> base <= ps[j] < base + |s| && FilterBy(s, keep)[j] == s[ps[j] - base]
    decreases |s|
  {
    if s != [] {
      KeptPositionsSelect(s[1..], keep, base + 1);
      var ps := KeptPositions(s, keep, base);
      var rest := KeptPositions(s[1..], keep, base + 1);
      var tail := FilterBy(s[1..], keep);
      var h := if keep(s[0]) then 1 else 0;
      forall j | h <= j < |ps|
        ensures base <= ps[j] < base + |s| && FilterBy(s, keep)[j] == s[ps[j] - base]
      {
        assert ps[j] == rest[j - h];
        assert FilterBy(s, keep)[j] == tail[j - h];
        assert s[ps[j] - base] == s[1..][rest[j - h] - (base + 1)];
      }
    }
  }

  /** The kept positions increase strictly, so the filter preserves order. */
  lemma {:induction false} KeptPositionsIncrease<T>(s: seq<T>, keep: T -> bool, base: int)
    ensures var ps := KeptPositions(s, keep, base);
      forall j, j' :: 0 <= j < j' < |ps| ==> ps[j] < ps[j']
    decreases |s|
  {
    if s != [] {
      KeptPositionsIncrease(s[1..], keep, base + 1);
      KeptPositionsSelect(s[1..], keep, base + 1);
      var ps := KeptPositions(s, keep, base);
      var rest := KeptPositions(s[1..], keep, base + 1);
      var head := if keep(s[0]) then [base] else [];
      assert ps == head + rest;
    }
  }

  /** A position is kept exactly when `keep` accepts its element. */
  lemma {:induction false} KeptPositionsMatch<T>(s: seq<T>, keep: T -> bool, base: int)
    ensures var ps := KeptPositions(s, keep, base);
      forall i :: 0 <= i < |s| ==> (keep(s[i]) <==> base + i in ps)
    decreases |s|
  {
    if s != [] {
      KeptPositionsMatch(s[1..], keep, base + 1);
      KeptPositionsSelect(s[1..], keep, base + 1);
      var ps := KeptPositions(s, keep, base);
      var rest := KeptPositions(s[1..], keep, base + 1);
      var head := if keep(s[0]) then [base] else [];
      assert ps == head + rest;
      assert base !in rest;
      forall i | 0 < i < |s|
        ensures keep(s[i]) <==> base + i in ps
      {
        assert s[i] == s[1..][i - 1];
      }
    }
  }

  /** The search test on one entry: some property value, as a string and lower
      cased, contains the lower-cased term. An entry with no property never matches. */
  predicate Matches(e: Entry, term: string)
    ensures Matches(e, term) ==> e != map[]
  {
    exists k | k in e :: Includes(Lower(ToText(e[k])), Lower(term))
  }

  /** The callback the filter effect hands to `entries.filter`. */
  function SearchTest(term: string): Entry -> bool {
    e => Matches(e, term)
  }

  /** The filtered list the table pages through. */
  function Filter(es: seq<Entry>, term: string): (r: seq<Entry>)
    ensures |r| <= |es|
    ensures forall e :: e in r ==> e in es && Matches(e, term)
  {
    FilterKeepsExactly(es, SearchTest(term));
    FilterBy(es, SearchTest(term))
  }

  /** An empty search term accepts exactly the entries that have a property. */
  lemma EmptyTermMatches(e: Entry)
    ensures Matches(e, "") <==> e != map[]
  {
    if e != map[] {
      var k :| k in e;
      assert Includes(Lower(ToText(e[k])), Lower(""));
    }
  }

  lemma FilterEmptyTerm(es: seq<Entry>)
    requires forall i :: 0 <= i < |es| ==> es[i] != map[]
    ensures Filter(es, "") == es
  {
    forall i | 0 <= i < |es| ensures SearchTest("")(es[i]) {
      EmptyTermMatches(es[i]);
    }
    FilterKeepsAll(es, SearchTest(""));
  }

  // ------------------------------------------------------------ pagination

  /** `s.slice(start, end)` for non-negative bounds: both are clamped to the length. */
  function Slice<T>(s: seq<T>, start: nat, end: nat): seq<T> {
    var lo := Min(start, |s|);
    var hi := Min(end, |s|);
    if lo < hi then s[lo..hi] else []
  }

  /** The rows of page p (counted from 1): `filtered.slice((p - 1) * 5, p * 5)`. */
  function Page<T>(f: seq<T>, p: int): (r: seq<T>)
    requires p >= 1
    ensures |r| <= PageSize
    ensures (p - 1) * PageSize < |f| ==> r == f[(p - 1) * PageSize..Min(p * PageSize, |f|)]
    ensures |f| <= (p - 1) * PageSize ==> r == []
  {
    Slice(f, (p - 1) * PageSize, p * PageSize)
  }

  /** `Math.ceil(n / 5)`: the least number of pages of five that hold n rows. */
  function PageCount(n: nat): (r: nat)
    ensures n <= r * PageSize
    ensures r == 0 || (r - 1) * PageSize < n
  {
    (n + PageSize - 1) / PageSize
  }

  /** Every page the pager offers has a row; every page after the last is empty. */
  lemma PagesInRange<T>(f: seq<T>, p: int)
    requires p >= 1
    ensures p <= PageCount(|f|) ==> |Page(f, p)| > 0
    ensures p > PageCount(|f|) ==> Page(f, p) == []
  {
  }

  /** Pages 1..k one after another. */
  function PagesUpTo<T>(f: seq<T>, k: nat): seq<T> {
    if k == 0 then [] else PagesUpTo(f, k - 1) + Page(f, k)
  }

  lemma {:induction false} PagesUpToPrefix<T>(f: seq<T>, k: nat)
    ensures PagesUpTo(f, k) == f[..Min(k * PageSize, |f|)]
  {
    if k > 0 {
      PagesUpToPrefix(f, k - 1);
      if (k - 1) * PageSize < |f| {
        assert f[..Min(k * PageSize, |f|)]
            == f[..(k - 1) * PageSize] + f[(k - 1) * PageSize..Min(k * PageSize, |f|)];
      }
    }
  }

  /** The pages offered, read in order, are the filtered list. */
  lemma PagesCoverList<T>(f: seq<T>)
    ensures PagesUpTo(f, PageCount(|f|)) == f
  {
    PagesUpToPrefix(f, PageCount(|f|));
    assert f[..|f|] == f;
  }

  lemma TwelveRows<T>(f: seq<T>)
    requires |f| == 12
    ensures Page(f, 1) == f[0..5]
    ensures Page(f, 3) == f[10..12]
    ensures PageCount(|f|) == 3
  {
  }

  // ----------------------------------------------------------- row actions

  /** The index the Edit and Delete buttons of row `row` pass on. */
  function RowIndex(p: int, row: int): (r: int)
    // For a row on page p, the index splits back into the page and the row.
    ensures p >= 1 && 0 <= row < PageSize ==> r >= 0 && r / PageSize == p - 1 && r % PageSize == row
  {
    (p - 1) * PageSize + row
  }

  /** The row index is the row's position in the filtered list, which is never
      longer than the store's list. */
  lemma RowIndexInFiltered(es: seq<Entry>, term: string, p: int, row: int)
    requires p >= 1 && 0 <= row < |Page(Filter(es, term), p)|
    ensures 0 <= RowIndex(p, row) < |Filter(es, term)| <= |es|
    ensures Filter(es, term)[RowIndex(p, row)] == Page(Filter(es, term), p)[row]
  {
  }

  /** With no search term the filtered list is the store's list, so the row
      index designates the very entry shown on that row. */
  lemma RowIndexWithoutSearch(es: seq<Entry>, p: int, row: int)
    requires forall i :: 0 <= i < |es| ==> es[i] != map[]
    requires p >= 1 && 0 <= row < |Page(Filter(es, ""), p)|
    ensures 0 <= RowIndex(p, row) < |es|
    ensures es[RowIndex(p, row)] == Page(Filter(es, ""), p)[row]
  {
    FilterEmptyTerm(es);
  }

  /** A persisted entry with no property never matches, even the empty term: with
      `[{}, r]` the first row shows r while its row index, 0, names `{}`. */
  lemma EmptyEntryShiftsRowIndex(r: Entry)
    requires r != map[]
    ensures Filter([map[], r], "") == [r]
    ensures Page(Filter([map[], r], ""), 1)[0] == r
    ensures [map[], r][RowIndex(1, 0)] == map[]
  {
    EmptyTermMatches(r);
    assert [map[], r][1..] == [r];
    assert FilterBy([r], SearchTest("")) == [r];
  }

  /** The store position of the entry shown on a row: the kept position behind it. */
  lemma ShownEntryPosition(es: seq<Entry>, term: string, p: int, row: int)
    requires p >= 1 && 0 <= row < |Page(Filter(es, term), p)|
    ensures var ps := KeptPositions(es, SearchTest(term), 0);
      RowIndex(p, row) < |ps| && 0 <= ps[RowIndex(p, row)] < |es|
      && es[ps[RowIndex(p, row)]] == Page(Filter(es, term), p)[row]
  {
    KeptPositionsSelect(es, SearchTest(term), 0);
    RowIndexInFiltered(es, term, p, row);
  }

  /** The lower-cased forms of the strings the search examples use. */
  lemma LowerNames()
    ensures Lower("nepal") == "nepal" && Lower("Nepal") == "nepal"
    ensures Lower("India") == "india" && Lower("Sita") == "sita"
  {
  }

  lemma NepalMatches()
    ensures Matches(map[NameField := Text("Ram"), CountryField := Text("Nepal")], "nepal")
    ensures !Matches(map[NameField := Text("Sita"), CountryField := Text("India")], "nepal")
  {
    var nepal := map[NameField := Text("Ram"), CountryField := Text("Nepal")];
    var india := map[NameField := Text("Sita"), CountryField := Text("India")];
    LowerNames();
    assert Includes(Lower(ToText(nepal[CountryField])), Lower("nepal"));
    forall k | k in india
      ensures !Includes(Lower(ToText(india[k])), Lower("nepal"))
    {
      assert k == NameField || k == CountryField;
      assert !Includes("india", "nepal") && !Includes("sita", "nepal");
    }
  }

  /** Searching "nepal" keeps the Nepali entry and drops the Indian one; under that
      search the first row shows the Nepali entry while its row index, 0, names the
      Indian one in the store's list. */
  lemma SearchShiftsRowIndex()
    ensures var nepal := map[NameField := Text("Ram"), CountryField := Text("Nepal")];
      var india := map[NameField := Text("Sita"), CountryField := Text("India")];
      && Filter([nepal, india], "nepal") == [nepal]
      && Filter([india, nepal], "nepal") == [nepal]
      && Page(Filter([india, nepal], "nepal"), 1)[0] == nepal
      && [india, nepal][RowIndex(1, 0)] == india
  {
    NepalMatches();
    var nepal := map[NameField := Text("Ram"), CountryField := Text("Nepal")];
    var india := map[NameField := Text("Sita"), CountryField := Text("India")];
    var test := SearchTest("nepal");
    assert test(nepal) && !test(india);
    assert [nepal, india][1..] == [india];
    assert [india, nepal][1..] == [nepal];
    assert FilterBy([india], test) == [];
    assert FilterBy([nepal], test) == [nepal];
  }

  // ------------------------------------------------------- component state

  /** The table component. It reads the store's list and calls its delete and
      edit operations; the rest is its own state. */
  class TableView {
    const store: Store
    var currentPage: int
    var searchTerm: string
    var editingIndex: Option<int>
    var editingEntry: Option<Entry>
    var isModalOpen: bool
    var errors: map<string, string>

    /** Pages are counted from 1, and an edit session always records its index. */
    ghost predicate Valid()
      reads this, store
    {
      store.Valid() && currentPage >= 1 && (editingEntry.Some? ==> editingIndex.Some?)
    }

    /** `filteredEntries`, which the filter effect keeps equal to this. */
    function Filtered(): (r: seq<Entry>)
      reads this, store
      ensures |r| <= |store.entries|
      ensures forall e :: e in r ==> e in store.entries && Matches(e, searchTerm)
    {
      Filter(store.entries, searchTerm)
    }

    /** `paginatedEntries`: the rows on screen. */
    function Rows(): (r: seq<Entry>)
      reads this, store
      requires currentPage >= 1
      ensures |r| <= PageSize
      ensures forall e :: e in r ==> e in store.entries && Matches(e, searchTerm)
    {
      Page(Filtered(), currentPage)
    }

    constructor (store: Store)
      requires store.Valid()
      ensures Valid() && this.store == store
      ensures currentPage == 1 && searchTerm == ""
      ensures editingIndex == None && editingEntry == None && !isModalOpen && errors == map[]
    {
      this.store := store;
      currentPage := 1;
      searchTerm := "";
      editingIndex := None;
      editingEntry := None;
      isModalOpen := false;
      errors := map[];
    }

    /** `handleSearchChange`: the page number is kept as it is. */
    method SearchChange(term: string)
      requires Valid()
      modifies this
      ensures Valid() && searchTerm == term
      ensures currentPage == old(currentPage) && editingIndex == old(editingIndex)
      ensures editingEntry == old(editingEntry) && isModalOpen == old(isModalOpen) && errors == old(errors)
    {
      searchTerm := term;
    }

    /** `handleChangePage`, reached from one of the page buttons 1..PageCount. */
    method ChangePage(p: int)
      requires Valid() && 1 <= p <= PageCount(|Filtered()|)
      modifies this
      ensures Valid() && currentPage == p && |Rows()| > 0
      ensures searchTerm == old(searchTerm) && editingIndex == old(editingIndex)
      ensures editingEntry == old(editingEntry) && isModalOpen == old(isModalOpen) && errors == old(errors)
    {
      currentPage := p;
      PagesInRange(Filtered(), p);
    }

    /** `handleEdit`: open the dialog on a copy of the entry at `index` of the
        store's list (`undefined` when there is none). */
    method Edit(index: int)
      requires Valid()
      modifies this
      ensures Valid() && isModalOpen
      ensures editingIndex == Some(index)
      ensures editingEntry == if 0 <= index < |store.entries| then Some(store.entries[index]) else None
      ensures currentPage == old(currentPage) && searchTerm == old(searchTerm) && errors == old(errors)
    {
      editingIndex := Some(index);
      editingEntry := if 0 <= index < |store.entries| then Some(store.entries[index]) else None;
      isModalOpen := true;
    }

    /** The Edit button of a row on screen. Without a search term, and when every
        stored entry has a property, the dialog opens on the entry shown on that row. */
    method EditRow(row: int)
      requires Valid() && 0 <= row < |Rows()|
      modifies this
      ensures Valid() && isModalOpen
      ensures editingIndex == Some(RowIndex(currentPage, row))
      ensures 0 <= RowIndex(currentPage, row) < |store.entries|
      ensures editingEntry == Some(store.entries[RowIndex(currentPage, row)])
      ensures searchTerm == "" && (forall i :: 0 <= i < |store.entries| ==> store.entries[i] != map[]) ==>
        editingEntry == Some(old(Rows())[row])
      ensures currentPage == old(currentPage) && searchTerm == old(searchTerm) && errors == old(errors)
    {
      RowIndexInFiltered(store.entries, searchTerm, currentPage, row);
      if searchTerm == "" && forall i :: 0 <= i < |store.entries| ==> store.entries[i] != map[] {
        RowIndexWithoutSearch(store.entries, currentPage, row);
      }
      Edit(RowIndex(currentPage, row));
    }

    /** `handleDelete`: the store's delete at `index`. */
    method Delete(index: int)
      requires Valid()
      modifies store
      ensures Valid()
      ensures store.entries == RemoveAt(old(store.entries), index)
      ensures store.stored == Some(store.entries)
    {
      store.Delete(index);
    }

    /** `handleInputChange`: validate the field as it was before this change, then
        write the new value into the working copy. */
    method InputChange(name: string, value: string)
      requires Valid() && editingEntry.Some?
      modifies this
      ensures Valid()
      ensures errors == Validate(old(editingEntry.value), Some(name)).errors
      ensures editingEntry == Some(old(editingEntry.value)[name := Text(value)])
      ensures editingIndex == old(editingIndex) && isModalOpen == old(isModalOpen)
      ensures currentPage == old(currentPage) && searchTerm == old(searchTerm)
    {
      errors := Validate(editingEntry.value, Some(name)).errors;
      editingEntry := Some(editingEntry.value[name := Text(value)]);
    }

    /** `handleFileChange`: a PNG file puts the reader's data URI `encoded` into the
        working copy's picture; any other choice leaves the working copy as it is. */
    method FileChange(file: Option<File>, encoded: string)
      requires Valid() && editingEntry.Some?
      modifies this
      ensures Valid()
      ensures file.Some? && file.value.mimeType == "image/png" ==>
        editingEntry == Some(old(editingEntry.value)[PictureField := Text(encoded)])
      ensures !(file.Some? && file.value.mimeType == "image/png") ==> editingEntry == old(editingEntry)
      ensures editingIndex == old(editingIndex) && isModalOpen == old(isModalOpen) && errors == old(errors)
      ensures currentPage == old(currentPage) && searchTerm == old(searchTerm)
    {
      if file.Some? && file.value.mimeType == "image/png" {
        editingEntry := Some(editingEntry.value[PictureField := Text(encoded)]);
      }
    }

    /** `handleSave`: commit the working copy at the recorded index, without
        validating it, and close the dialog. */
    method Save()
      requires Valid() && editingEntry.Some?
      modifies this, store
      ensures Valid() && !isModalOpen
      ensures store.entries == ReplaceAt(old(store.entries), old(editingIndex.value), old(editingEntry.value))
      ensures store.stored == Some(store.entries)
      ensures editingIndex == old(editingIndex) && editingEntry == old(editingEntry) && errors == old(errors)
      ensures currentPage == old(currentPage) && searchTerm == old(searchTerm)
    {
      store.Edit(editingIndex.value, editingEntry.value);
      isModalOpen := false;
    }

    /** The Cancel button and the dialog's close request: close without committing. */
    method Cancel()
      requires Valid()
      modifies this
      ensures Valid() && !isModalOpen
      ensures editingIndex == old(editingIndex) && editingEntry == old(editingEntry) && errors == old(errors)
      ensures currentPage == old(currentPage) && searchTerm == old(searchTerm)
    {
      isModalOpen := false;
    }
  }

  /** Opening the dialog on entry 2, typing into it and cancelling leaves the
      store's list as it was. */
  method EditTypeCancel(store: Store, name: string, value: string)
    requires store.Valid() && |store.entries| > 2
    ensures store.entries == old(store.entries)
  {
    var table := new TableView(store);
    table.Edit(2);
    table.InputChange(name, value);
    table.Cancel();
  }
}
