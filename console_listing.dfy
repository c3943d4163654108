/** What the gallery lists (emote_console.py:102-118): the records of the
    chosen source, those matching the filter, sorted stably by lower-cased name. */
module ConsoleListing {
  import opened EmoteStore
  import opened ConsoleText

  /** The source chooser's value picks the 7TV records, the official ones, or
      both (any other value) with the 7TV records first. */
  function SelectSource(source: string, metas7: seq<EmoteRecord>, metatw: seq<EmoteRecord>): seq<EmoteRecord> {
    if source == "7tv" then metas7
    else if source == "official" then metatw
    else metas7 + metatw
  }

  /** `q in m["name"].lower() or any(q in t.lower() for t in m.get("tags", []))` */
  predicate Matches(m: EmoteRecord, q: string) {
    Contains(q, Lower(m.name)) || exists i :: 0 <= i < |m.tags| && Contains(q, Lower(m.tags[i]))
  }

  /** The list comprehension of emote_console.py:111-116. */
  function Filter(ms: seq<EmoteRecord>, q: string): seq<EmoteRecord> {
    if ms == [] then []
    else Filter(ms[..|ms| - 1], q) + (if Matches(ms[|ms| - 1], q) then [ms[|ms| - 1]] else [])
  }

  /** The filter keeps exactly the matching records. */
  lemma {:induction false} FilterMembers(ms: seq<EmoteRecord>, q: string)
    ensures |Filter(ms, q)| <= |ms|
    ensures forall m :: m in Filter(ms, q) <==> m in ms && Matches(m, q)
  {
    if ms != [] {
      FilterMembers(ms[..|ms| - 1], q);
      assert ms == ms[..|ms| - 1] + [ms[|ms| - 1]];
    }
  }

  /** The filter keeps the order: filtering a concatenation filters each part. */
  lemma {:induction false} FilterAppend(a: seq<EmoteRecord>, b: seq<EmoteRecord>, q: string)
    ensures Filter(a + b, q) == Filter(a, q) + Filter(b, q)
  {
    if b != [] {
      assert (a + b)[..|a + b| - 1] == a + b[..|b| - 1];
      FilterAppend(a, b[..|b| - 1], q);
    } else {
      assert a + b == a;
    }
  }

  /** Every record matches the empty query, so the `if q:` guard changes
      nothing about which records are listed. */
  lemma {:induction false} FilterEmptyQuery(ms: seq<EmoteRecord>)
    ensures Filter(ms, []) == ms
  {
    if ms != [] {
      FilterEmptyQuery(ms[..|ms| - 1]);
      ContainsEmpty(Lower(ms[|ms| - 1].name));
    }
  }

  // ---------------------------------------------------------------- sorting

  /** `key=lambda m: m["name"].lower()` */
  function Key(m: EmoteRecord): string {
    Lower(m.name)
  }

  predicate Sorted(s: seq<EmoteRecord>) {
    forall i, j :: 0 <= i < j < |s| ==> LexLe(Key(s[i]), Key(s[j]))
  }

  /** Every key in `s` is at most `k`. */
  predicate AllLe(s: seq<EmoteRecord>, k: string) {
    forall i :: 0 <= i < |s| ==> LexLe(Key(s[i]), k)
  }

  /** Places `x` after every element whose key is at most its own. */
  function Insert(s: seq<EmoteRecord>, x: EmoteRecord): seq<EmoteRecord> {
    if s == [] then [x]
    else if LexLe(Key(s[|s| - 1]), Key(x)) then s + [x]
    else Insert(s[..|s| - 1], x) + [s[|s| - 1]]
  }

  /** `list.sort(key=...)`, which is stable, as an insertion sort. */
  function SortByName(ms: seq<EmoteRecord>): seq<EmoteRecord> {
    if ms == [] then []
    else Insert(SortByName(ms[..|ms| - 1]), ms[|ms| - 1])
  }

  /** The records with key `k`, in order. */
  function Only(s: seq<EmoteRecord>, k: string): seq<EmoteRecord> {
    if s == [] then []
    else Only(s[..|s| - 1], k) + (if Key(s[|s| - 1]) == k then [s[|s| - 1]] else [])
  }

  lemma SortedPrefix(s: seq<EmoteRecord>)
    requires s != [] && Sorted(s)
    ensures Sorted(s[..|s| - 1]) && AllLe(s[..|s| - 1], Key(s[|s| - 1]))
  {
  }

  lemma SortedSnoc(s: seq<EmoteRecord>, y: EmoteRecord)
    requires Sorted(s) && AllLe(s, Key(y))
    ensures Sorted(s + [y])
  {
  }

  lemma {:induction false} InsertBounded(s: seq<EmoteRecord>, x: EmoteRecord, k: string)
    requires AllLe(s, k) && LexLe(Key(x), k)
    ensures AllLe(Insert(s, x), k)
  {
    if s != [] && !LexLe(Key(s[|s| - 1]), Key(x)) {
      InsertBounded(s[..|s| - 1], x, k);
    }
  }

  lemma {:induction false} InsertSorted(s: seq<EmoteRecord>, x: EmoteRecord)
    requires Sorted(s)
    ensures Sorted(Insert(s, x))
  {
    if s != [] {
      var init, last := s[..|s| - 1], s[|s| - 1];
      SortedPrefix(s);
      if LexLe(Key(last), Key(x)) {
        forall i | 0 <= i < |s| ensures LexLe(Key(s[i]), Key(x)) {
          if i < |s| - 1 { LexLeTransitive(Key(s[i]), Key(last), Key(x)); } else { assert s[i] == last; }
        }
        SortedSnoc(s, x);
      } else {
        InsertSorted(init, x);
        LexLeTotal(Key(last), Key(x));
        InsertBounded(init, x, Key(last));
        SortedSnoc(Insert(init, x), last);
      }
    }
  }

  lemma {:induction false} InsertPermutes(s: seq<EmoteRecord>, x: EmoteRecord)
    ensures multiset(Insert(s, x)) == multiset(s) + multiset{x}
  {
    if s != [] && !LexLe(Key(s[|s| - 1]), Key(x)) {
      InsertPermutes(s[..|s| - 1], x);
      assert s == s[..|s| - 1] + [s[|s| - 1]];
    }
  }

  lemma OnlySnoc(s: seq<EmoteRecord>, y: EmoteRecord, k: string)
    ensures Only(s + [y], k) == Only(s, k) + (if Key(y) == k then [y] else [])
  {
    assert (s + [y])[..|s|] == s;
  }

  /** Inserting into a sorted list puts `x` after every record with its key. */
  lemma {:induction false} InsertOnly(s: seq<EmoteRecord>, x: EmoteRecord, k: string)
    requires Sorted(s)
    ensures Only(Insert(s, x), k) == Only(s, k) + (if Key(x) == k then [x] else [])
  {
    if s == [] {
      OnlySnoc([], x, k);
    } else {
      var init, last := s[..|s| - 1], s[|s| - 1];
      if LexLe(Key(last), Key(x)) {
        OnlySnoc(s, x, k);
      } else {
        SortedPrefix(s);
        InsertOnly(init, x, k);
        OnlySnoc(Insert(init, x), last, k);
        LexLeReflexive(Key(x));
        assert !(Key(x) == k && Key(last) == k);
      }
    }
  }

  /** The sort orders the records by lower-cased name. */
  lemma {:induction false} SortSorted(ms: seq<EmoteRecord>)
    ensures Sorted(SortByName(ms))
  {
    if ms != [] {
      SortSorted(ms[..|ms| - 1]);
      InsertSorted(SortByName(ms[..|ms| - 1]), ms[|ms| - 1]);
    }
  }

  lemma MultisetOfInit<T>(s: seq<T>)
    requires s != []
    ensures multiset(s) == multiset(s[..|s| - 1]) + multiset{s[|s| - 1]}
  {
    assert s == s[..|s| - 1] + [s[|s| - 1]];
  }

  /** The sort neither loses nor duplicates a record. */
  lemma {:induction false} SortPermutes(ms: seq<EmoteRecord>)
    ensures multiset(SortByName(ms)) == multiset(ms)
  {
    if ms != [] {
      var init, last := ms[..|ms| - 1], ms[|ms| - 1];
      SortPermutes(init);
      InsertPermutes(SortByName(init), last);
      MultisetOfInit(ms);
    }
  }

  /** The sort is stable: records with the same key keep their relative order. */
  lemma {:induction false} SortStable(ms: seq<EmoteRecord>, k: string)
    ensures Only(SortByName(ms), k) == Only(ms, k)
  {
    if ms != [] {
      SortStable(ms[..|ms| - 1], k);
      SortSorted(ms[..|ms| - 1]);
      InsertOnly(SortByName(ms[..|ms| - 1]), ms[|ms| - 1], k);
    }
  }

  /** Sorting a list that is already in order leaves it as it is. */
  lemma {:induction false} SortKeepsSorted(ms: seq<EmoteRecord>)
    requires Sorted(ms)
    ensures SortByName(ms) == ms
  {
    if ms != [] {
      SortedPrefix(ms);
      SortKeepsSorted(ms[..|ms| - 1]);
      assert ms[..|ms| - 1] + [ms[|ms| - 1]] == ms;
    }
  }

  /** The records the gallery lists, in the order it lists them. */
  function Shown(source: string, filterText: string, metas7: seq<EmoteRecord>, metatw: seq<EmoteRecord>): seq<EmoteRecord> {
    var metas := SelectSource(source, metas7, metatw);
    var q := Query(filterText);
    SortByName(if q != [] then Filter(metas, q) else metas)
  }

  /** The gallery lists each record of the chosen source that matches the
      query, as often as it occurs there and no other record, sorted stably
      by lower-cased name. */
  lemma ShownSpec(source: string, filterText: string, metas7: seq<EmoteRecord>, metatw: seq<EmoteRecord>)
    ensures var shown := Shown(source, filterText, metas7, metatw);
      var metas := SelectSource(source, metas7, metatw);
      Sorted(shown) &&
      multiset(shown) == multiset(Filter(metas, Query(filterText))) &&
      (forall m :: m in shown <==> m in metas && Matches(m, Query(filterText))) &&
      (forall k :: Only(shown, k) == Only(Filter(metas, Query(filterText)), k))
  {
    var metas := SelectSource(source, metas7, metatw);
    var q := Query(filterText);
    var listed := if q != [] then Filter(metas, q) else metas;
    if q == [] {
      FilterEmptyQuery(metas);
    }
    assert listed == Filter(metas, q);
    SortSorted(listed);
    SortPermutes(listed);
    FilterMembers(metas, q);
    forall m ensures m in SortByName(listed) <==> m in listed {
      assert m in SortByName(listed) <==> m in multiset(SortByName(listed));
    }
    forall k ensures Only(SortByName(listed), k) == Only(listed, k) {
      SortStable(listed, k);
    }
  }
}
