/**
 * The directory-listing pipeline of `list_directory` (server.py; the code is
 * repeated unchanged in server2.py): keep the names whose lower-case form
 * contains the lower-cased search term, sort them by their lower-case form,
 * count the pages of twenty, clamp the requested page into range and cut out
 * that page.
 */
module Listing {
  import opened Strings

  const PageSize: nat := 20

  // ---------------------------------------------------------------------------
  // Filtering
  // ---------------------------------------------------------------------------

  /** `[entry for entry in entries if term in entry.lower()]` */
  function Matching(entries: seq<string>, term: string): seq<string>
  {
    if entries == [] then []
    else (if Contains(Lower(entries[0]), term) then [entries[0]] else []) + Matching(entries[1..], term)
  }

  /** The comprehension only runs when the term is non-empty. */
  function Filter(entries: seq<string>, term: string): seq<string>
  {
    if term != [] then Matching(entries, term) else entries
  }

  /** The comprehension keeps exactly the names that contain the term, in their original order. */
  lemma {:induction false} MatchingKeepsExactly(entries: seq<string>, term: string)
    ensures forall x :: x in Matching(entries, term) <==> x in entries && Contains(Lower(x), term)
    ensures |Matching(entries, term)| <= |entries|
  {
    if entries != [] {
      MatchingKeepsExactly(entries[1..], term);
      assert entries == [entries[0]] + entries[1..];
    }
  }

  /** With an empty term the comprehension would keep every name, so the `if search:` guard changes nothing. */
  lemma {:induction false} EmptyTermKeepsAll(entries: seq<string>)
    ensures Matching(entries, "") == entries
  {
    if entries != [] {
      EmptyContained(Lower(entries[0]));
      EmptyTermKeepsAll(entries[1..]);
    }
  }

  /** The filter keeps exactly the names whose lower-case form contains the term. */
  lemma FilterKeepsExactly(entries: seq<string>, term: string)
    ensures forall x :: x in Filter(entries, term) <==> x in entries && Contains(Lower(x), term)
  {
    MatchingKeepsExactly(entries, term);
    EmptyTermKeepsAll(entries);
  }

  // ---------------------------------------------------------------------------
  // Sorting: `entries.sort(key=lambda a: a.lower())`, a stable sort
  // ---------------------------------------------------------------------------

  ghost predicate SortedByKey(s: seq<string>)
  {
    forall i, j :: 0 <= i < j < |s| ==> !Less(Lower(s[j]), Lower(s[i]))
  }

  /**
   * Insert `x` before the first element whose key is not smaller than its own;
   * since `x` precedes the rest in the input, equal keys keep their order.
   */
  function Insert(x: string, s: seq<string>): seq<string>
  {
    if s == [] then [x]
    else if Less(Lower(s[0]), Lower(x)) then [s[0]] + Insert(x, s[1..])
    else [x] + s
  }

  function SortByKey(s: seq<string>): seq<string>
  {
    if s == [] then [] else Insert(s[0], SortByKey(s[1..]))
  }

  lemma {:induction false} InsertSorted(x: string, s: seq<string>)
    requires SortedByKey(s)
    ensures SortedByKey(Insert(x, s))
    ensures multiset(Insert(x, s)) == multiset(s) + multiset{x}
    decreases |s|
  {
    if s == [] {
    } else if Less(Lower(s[0]), Lower(x)) {
      InsertSorted(x, s[1..]);
      InsertBehindHead(x, s);
    } else {
      InsertInFront(x, s);
    }
  }

  /** `x` goes behind a head with a smaller key: the head stays first and the rest stays sorted. */
  lemma InsertBehindHead(x: string, s: seq<string>)
    requires SortedByKey(s) && s != [] && Less(Lower(s[0]), Lower(x))
    requires SortedByKey(Insert(x, s[1..]))
    requires multiset(Insert(x, s[1..])) == multiset(s[1..]) + multiset{x}
    ensures SortedByKey(Insert(x, s))
    ensures multiset(Insert(x, s)) == multiset(s) + multiset{x}
  {
    var rest := Insert(x, s[1..]);
    var r := [s[0]] + rest;
    assert Insert(x, s) == r;
    assert s == [s[0]] + s[1..];
    LessAsymmetric(Lower(s[0]), Lower(x));
    forall j | 0 <= j < |rest| ensures !Less(Lower(rest[j]), Lower(s[0])) {
      HeadBelowRest(x, s, rest, j);
    }
    SortedCons(s[0], rest);
  }

  /** A sorted list stays sorted under a head whose key is not above any of its keys. */
  lemma SortedCons(h: string, t: seq<string>)
    requires SortedByKey(t)
    requires forall j :: 0 <= j < |t| ==> !Less(Lower(t[j]), Lower(h))
    ensures SortedByKey([h] + t)
  {
    var r := [h] + t;
    forall i, j | 0 <= i < j < |r| ensures !Less(Lower(r[j]), Lower(r[i])) {
      assert r[j] == t[j - 1];
      if i > 0 {
        assert r[i] == t[i - 1];
      }
    }
  }

  /** Every element behind the head came from the tail of `s` or is `x`, and neither has a smaller key than the head. */
  lemma HeadBelowRest(x: string, s: seq<string>, rest: seq<string>, j: int)
    requires SortedByKey(s) && s != [] && !Less(Lower(x), Lower(s[0]))
    requires multiset(rest) == multiset(s[1..]) + multiset{x}
    requires 0 <= j < |rest|
    ensures !Less(Lower(rest[j]), Lower(s[0]))
  {
    assert rest[j] in multiset(rest);
    if rest[j] != x {
      assert rest[j] in multiset(s[1..]);
      var k :| 0 <= k < |s[1..]| && s[1..][k] == rest[j];
      assert s[k + 1] == rest[j];
    }
  }

  /** `x` goes in front when the head's key is not smaller. */
  lemma InsertInFront(x: string, s: seq<string>)
    requires SortedByKey(s) && s != [] && !Less(Lower(s[0]), Lower(x))
    ensures SortedByKey(Insert(x, s))
    ensures multiset(Insert(x, s)) == multiset(s) + multiset{x}
  {
    var r := [x] + s;
    forall i, j | 0 <= i < j < |r| ensures !Less(Lower(r[j]), Lower(r[i])) {
      if i == 0 && j > 1 {
        NotLessTransitive(Lower(x), Lower(s[0]), Lower(s[j - 1]));
      }
    }
  }

  /** The sort yields a permutation of its input, ordered by lower-case name. */
  lemma {:induction false} SortByKeySorts(s: seq<string>)
    ensures SortedByKey(SortByKey(s))
    ensures multiset(SortByKey(s)) == multiset(s)
  {
    if s != [] {
      SortByKeySorts(s[1..]);
      InsertSorted(s[0], SortByKey(s[1..]));
      assert s == [s[0]] + s[1..];
    }
  }

  /** `[x]` when `x` has the key `k`, else nothing. */
  function Pick(x: string, k: string): seq<string>
  {
    if Lower(x) == k then [x] else []
  }

  /** The names whose lower-case form is `k`, in their order in `s`. */
  function WithKey(s: seq<string>, k: string): seq<string>
  {
    if s == [] then [] else Pick(s[0], k) + WithKey(s[1..], k)
  }

  lemma WithKeyCons(x: string, s: seq<string>, k: string)
    ensures WithKey([x] + s, k) == Pick(x, k) + WithKey(s, k)
  {
    assert ([x] + s)[1..] == s;
  }

  /** Inserting `x` passes only names with a smaller key, so among equal keys it lands first. */
  lemma {:induction false} InsertStable(x: string, s: seq<string>, k: string)
    ensures WithKey(Insert(x, s), k) == Pick(x, k) + WithKey(s, k)
  {
    if s == [] {
      WithKeyCons(x, [], k);
    } else if Less(Lower(s[0]), Lower(x)) {
      InsertStable(x, s[1..], k);
      LessIrreflexive(Lower(x));
      assert Insert(x, s) == [s[0]] + Insert(x, s[1..]);
      assert s == [s[0]] + s[1..];
      InsertPastHead(x, s[0], s[1..], Insert(x, s[1..]), k);
    } else {
      WithKeyCons(x, s, k);
    }
  }

  /** The step of `InsertStable` where `x` moves past a head `h` with another key. */
  lemma InsertPastHead(x: string, h: string, t: seq<string>, inserted: seq<string>, k: string)
    requires Lower(h) != Lower(x)
    requires WithKey(inserted, k) == Pick(x, k) + WithKey(t, k)
    ensures WithKey([h] + inserted, k) == Pick(x, k) + WithKey([h] + t, k)
  {
    PicksCommute(h, x, k);
    calc {
      WithKey([h] + inserted, k);
      { WithKeyCons(h, inserted, k); }
      Pick(h, k) + (Pick(x, k) + WithKey(t, k));
      { AppendAssoc(Pick(h, k), Pick(x, k), WithKey(t, k)); }
      (Pick(h, k) + Pick(x, k)) + WithKey(t, k);
      (Pick(x, k) + Pick(h, k)) + WithKey(t, k);
      { AppendAssoc(Pick(x, k), Pick(h, k), WithKey(t, k)); }
      Pick(x, k) + (Pick(h, k) + WithKey(t, k));
      { WithKeyCons(h, t, k); }
      Pick(x, k) + WithKey([h] + t, k);
    }
  }

  /** Names with different keys cannot both be picked, so their order does not matter. */
  lemma PicksCommute(h: string, x: string, k: string)
    requires Lower(h) != Lower(x)
    ensures Pick(h, k) + Pick(x, k) == Pick(x, k) + Pick(h, k)
  {
  }

  /**
   * The sort is stable: for every key, the names with that lower-case form
   * come out in the order they went in (so `README` and `readme` keep their
   * listing order).
   */
  lemma {:induction false} SortByKeyStable(s: seq<string>, k: string)
    ensures WithKey(SortByKey(s), k) == WithKey(s, k)
  {
    if s != [] {
      SortByKeyStable(s[1..], k);
      InsertStable(s[0], SortByKey(s[1..]), k);
      WithKeyCons(s[0], s[1..], k);
      assert s == [s[0]] + s[1..];
    }
  }

  // ---------------------------------------------------------------------------
  // Paging
  // ---------------------------------------------------------------------------

  /** `max(1, (total_entries + PAGE_SIZE - 1) // PAGE_SIZE)` */
  function TotalPages(n: nat): nat
  {
    Max(1, (n + PageSize - 1) / PageSize)
  }

  /** The page count is max(1, ceil(n / 20)): enough pages of twenty for n names, and no more. */
  lemma TotalPagesIsCeiling(n: nat)
    ensures TotalPages(n) >= 1
    ensures n == 0 ==> TotalPages(n) == 1
    ensures n > 0 ==> (TotalPages(n) - 1) * PageSize < n <= TotalPages(n) * PageSize
  {
  }

  /** `max(1, min(page, total_pages))` */
  function ClampPage(page: int, total: nat): int
  {
    Max(1, Min(page, total))
  }

  /** Any requested page number lands in [1, total]; a valid one is kept. */
  lemma ClampInRange(page: int, total: nat)
    requires total >= 1
    ensures 1 <= ClampPage(page, total) <= total
    ensures 1 <= page <= total ==> ClampPage(page, total) == page
    ensures page < 1 ==> ClampPage(page, total) == 1
    ensures page > total ==> ClampPage(page, total) == total
  {
  }

  /** `entries[start_idx:end_idx]` with `start_idx = (page - 1) * PAGE_SIZE`. */
  function Page(sorted: seq<string>, page: int): seq<string>
  {
    var start := (page - 1) * PageSize;
    Slice(sorted, start, start + PageSize)
  }

  /** A page in range is the window [(page-1)*20, page*20) of the list, cut at its end. */
  lemma PageWindow(sorted: seq<string>, page: int)
    requires page >= 1
    ensures Page(sorted, page) == sorted[Min((page - 1) * PageSize, |sorted|)..Min(page * PageSize, |sorted|)]
    ensures |Page(sorted, page)| <= PageSize
  {
    SliceNonNegative(sorted, (page - 1) * PageSize, (page - 1) * PageSize + PageSize);
  }

  /** Every page but the last is full, and the last is not empty unless the list is. */
  lemma PageSizes(sorted: seq<string>, page: int)
    requires 1 <= page <= TotalPages(|sorted|)
    ensures page < TotalPages(|sorted|) ==> |Page(sorted, page)| == PageSize
    ensures |sorted| > 0 ==> |Page(sorted, page)| > 0
  {
    PageWindow(sorted, page);
    TotalPagesIsCeiling(|sorted|);
  }

  /** The pages from `first` to `last`, one after the other. */
  function PagesFrom(sorted: seq<string>, first: int, last: int): seq<string>
    decreases last - first
  {
    if first > last then [] else Page(sorted, first) + PagesFrom(sorted, first + 1, last)
  }

  lemma {:induction false} PagesFromSuffix(sorted: seq<string>, first: int, last: int)
    requires 1 <= first && last == TotalPages(|sorted|)
    ensures PagesFrom(sorted, first, last) == sorted[Min((first - 1) * PageSize, |sorted|)..]
    decreases last - first
  {
    TotalPagesIsCeiling(|sorted|);
    if first > last {
      assert (first - 1) * PageSize >= |sorted|;
    } else {
      PageWindow(sorted, first);
      PagesFromSuffix(sorted, first + 1, last);
      var a, b := Min((first - 1) * PageSize, |sorted|), Min(first * PageSize, |sorted|);
      assert sorted[a..] == sorted[a..b] + sorted[b..];
    }
  }

  /** The pages 1..total_pages, concatenated, give back the whole sorted list. */
  lemma PagesPartition(sorted: seq<string>)
    ensures PagesFrom(sorted, 1, TotalPages(|sorted|)) == sorted
  {
    PagesFromSuffix(sorted, 1, TotalPages(|sorted|));
  }

  // ---------------------------------------------------------------------------
  // Pages and filters of sorted lists
  // ---------------------------------------------------------------------------

  /** A page holds only names of the list it was cut from, in their sorted order. */
  lemma PageOfSorted(sorted: seq<string>, page: int)
    requires page >= 1
    ensures |Page(sorted, page)| <= PageSize
    ensures forall x :: x in Page(sorted, page) ==> x in sorted
    ensures SortedByKey(sorted) ==> SortedByKey(Page(sorted, page))
  {
    PageWindow(sorted, page);
  }

  /** Filtering then sorting keeps exactly the matching names, in key order. */
  lemma SortedMatches(names: seq<string>, term: string)
    ensures SortedByKey(SortByKey(Filter(names, term)))
    ensures forall x :: x in SortByKey(Filter(names, term)) <==> x in names && Contains(Lower(x), term)
  {
    var f := Filter(names, term);
    SortByKeySorts(f);
    FilterKeepsExactly(names, term);
    forall x ensures x in SortByKey(f) <==> x in f {
      assert x in SortByKey(f) <==> x in multiset(SortByKey(f));
    }
  }

  // ---------------------------------------------------------------------------
  // The whole pipeline
  // ---------------------------------------------------------------------------

  /** What `list_directory` hands to `generate_html_list`. */
  datatype Listing = Listing(entries: seq<string>, page: int, totalPages: nat, search: string)

  /**
   * `list_directory` after the directory has been read: `names` are the
   * directory's children, `page` the parsed `page` parameter, `search` the raw
   * `search` parameter.
   */
  function ListDirectory(names: seq<string>, page: int, search: string): (r: Listing)
    ensures 1 <= r.page <= r.totalPages
    ensures |r.entries| <= PageSize
    ensures r.search == Lower(search)
    ensures forall x :: x in r.entries ==> x in names && Contains(Lower(x), r.search)
    ensures SortedByKey(r.entries)
  {
    var term := Lower(search);
    var sorted := SortByKey(Filter(names, term));
    var total := TotalPages(|sorted|);
    var p := ClampPage(page, total);
    ClampInRange(page, total);
    PageOfSorted(sorted, p);
    SortedMatches(names, term);
    Listing(Page(sorted, p), p, total, term)
  }

  /** Page 0 shows the first page and a page past the end shows the last one. */
  lemma OutOfRangePagesClamp(names: seq<string>, search: string, k: nat)
    ensures ListDirectory(names, 0, search).page == 1
    ensures var r := ListDirectory(names, 0, search);
            ListDirectory(names, r.totalPages + 1 + k, search).page == r.totalPages
  {
  }

  lemma ExampleKeys()
    ensures Lower("T") == "t" && Lower("c") == "c"
    ensures Lower("Bt") == "bt" && Lower("at") == "at"
  {
  }

  lemma ExampleMatching()
    ensures Filter(["Bt", "c", "at"], Lower("T")) == ["Bt", "at"]
  {
    ExampleKeys();
    assert Contains("bt", "t") by {
      assert OccursAt("bt", "t", 1);
      ContainsIff("bt", "t");
    }
    assert StartsWith("at", "a");
    assert Contains("at", "t") by {
      assert OccursAt("at", "t", 1);
      ContainsIff("at", "t");
    }
    assert !Contains("c", "t");
  }

  lemma ExampleSort()
    ensures SortByKey(["Bt", "at"]) == ["at", "Bt"]
  {
    ExampleKeys();
    assert Less("at", "bt");
  }

  /**
   * A worked example: the search "T" matches "Bt" and "at" but not "c", and
   * the matches are ordered case-insensitively ("at" before "Bt", although
   * 'B' sorts before 'a' by code point).
   */
  lemma SearchExample()
    ensures ListDirectory(["Bt", "c", "at"], 1, "T").entries == ["at", "Bt"]
  {
    ExampleMatching();
    ExampleSort();
    assert Page(["at", "Bt"], 1) == ["at", "Bt"];
  }
}
