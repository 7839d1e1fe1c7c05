/**
 * The museum directory and its two listings: the searchable dashboard and the
 * quiz-selection page. The directory itself is static data; it is passed in as
 * `catalog`, its entries in the dictionary's insertion order.
 */
module Catalog {
  import opened Wrappers
  import opened Text
  import opened Sorting

  /** The fields of a directory entry that the listing logic reads. */
  datatype Museum = Museum(name: string, city: string)

  /** A directory entry copied and tagged with its key, as the listing pages show it. */
  datatype Listing = Listing(key: string, name: string, city: string)

  /** The directory's `(key, entry)` pairs, in order. */
  type Directory = seq<(string, Museum)>

  // ---------------------------------------------------------------- lookup

  /** `MUSEUM_DATA.get(key)`. */
  function Lookup(catalog: Directory, key: string): (r: Option<Museum>)
    ensures r.None? <==> forall i :: 0 <= i < |catalog| ==> catalog[i].0 != key
    ensures r.Some? ==> exists i :: 0 <= i < |catalog| && catalog[i] == (key, r.value)
  {
    if catalog == [] then None
    else if catalog[0].0 == key then Some(catalog[0].1)
    else
      var r := Lookup(catalog[1..], key);
      assert forall i :: 1 <= i < |catalog| ==> catalog[i] == catalog[1..][i - 1];
      r
  }

  /** A dictionary holds each key once. */
  predicate DistinctKeys(catalog: Directory) {
    forall i, j :: 0 <= i < j < |catalog| ==> catalog[i].0 != catalog[j].0
  }

  /** In a directory with distinct keys, `Lookup` of a listed key finds that very entry, so the
      key a listing page links to opens that listing's museum. */
  lemma {:induction false} LookupListed(catalog: Directory, i: nat)
    requires DistinctKeys(catalog) && i < |catalog|
    ensures Lookup(catalog, catalog[i].0) == Some(catalog[i].1)
  {
    if i > 0 {
      assert catalog[0].0 != catalog[i].0;
      assert DistinctKeys(catalog[1..]) by {
        forall a, b | 0 <= a < b < |catalog| - 1 ensures catalog[1..][a].0 != catalog[1..][b].0 {
          assert catalog[1..][a] == catalog[a + 1] && catalog[1..][b] == catalog[b + 1];
        }
      }
      LookupListed(catalog[1..], i - 1);
      assert catalog[1..][i - 1] == catalog[i];
    }
  }

  // ---------------------------------------------------------------- name order

  /** Python's `<` on strings: lexicographic by code point, a proper prefix first. */
  predicate StrLess(a: string, b: string)
    decreases |a|
  {
    if b == [] then false
    else if a == [] then true
    else if a[0] != b[0] then a[0] < b[0]
    else StrLess(a[1..], b[1..])
  }

  lemma {:induction false} StrLessTrichotomy(a: string, b: string)
    ensures a == b || StrLess(a, b) || StrLess(b, a)
    ensures !(StrLess(a, b) && StrLess(b, a))
    decreases |a|
  {
    if a != [] && b != [] && a[0] == b[0] {
      StrLessTrichotomy(a[1..], b[1..]);
      if a[1..] == b[1..] {
        assert a == [a[0]] + a[1..] && b == [b[0]] + b[1..];
      }
    }
  }

  lemma {:induction false} StrLessTransitive(a: string, b: string, c: string)
    requires StrLess(a, b) && StrLess(b, c)
    ensures StrLess(a, c)
    decreases |a|
  {
    if a != [] && a[0] == b[0] && b[0] == c[0] {
      StrLessTransitive(a[1..], b[1..], c[1..]);
    }
  }

  /** The order `list.sort(key=lambda m: m['name'])` sorts by: `a` may stay before `b`
      unless `b`'s name is smaller. */
  function ByName(a: Listing, b: Listing): bool {
    !StrLess(b.name, a.name)
  }

  lemma ByNameTotalPreorder()
    ensures TotalPreorder(ByName)
  {
    forall a: Listing, b: Listing ensures ByName(a, b) || ByName(b, a) {
      StrLessTrichotomy(a.name, b.name);
    }
    forall a: Listing, b: Listing, c: Listing | ByName(a, b) && ByName(b, c)
      ensures ByName(a, c)
    {
      StrLessTrichotomy(a.name, b.name);
      StrLessTrichotomy(b.name, c.name);
      StrLessTrichotomy(a.name, c.name);
      if StrLess(c.name, a.name) {
        if a.name == b.name {
        } else if b.name == c.name {
        } else {
          assert StrLess(a.name, b.name) && StrLess(b.name, c.name);
          StrLessTransitive(a.name, b.name, c.name);
        }
      }
    }
  }

  // ---------------------------------------------------------------- listings

  function Tag(entry: (string, Museum)): Listing {
    Listing(entry.0, entry.1.name, entry.1.city)
  }

  /** Every directory entry, tagged with its key, in directory order. */
  ghost function Listings(catalog: Directory): seq<Listing> {
    seq(|catalog|, i requires 0 <= i < |catalog| => Tag(catalog[i]))
  }

  /** The loop that copies each entry, tags it with its key and appends it to `museum_list`. */
  method MuseumList(catalog: Directory) returns (list: seq<Listing>)
    ensures |list| == |catalog|
    ensures forall i :: 0 <= i < |catalog| ==>
              list[i].key == catalog[i].0 && list[i].name == catalog[i].1.name
              && list[i].city == catalog[i].1.city
  {
    list := [];
    var i := 0;
    while i < |catalog|
      invariant 0 <= i <= |catalog|
      invariant |list| == i
      invariant forall k :: 0 <= k < i ==> list[k] == Tag(catalog[k])
    {
      list := list + [Tag(catalog[i])];
      i := i + 1;
    }
  }

  /** The search test: `query` occurs in the lower-cased name or the lower-cased city. */
  predicate Matches(m: Listing, query: string) {
    Contains(Lower(m.name), query) || Contains(Lower(m.city), query)
  }

  /** The list comprehension that keeps the matching entries, in order. */
  function Filter(list: seq<Listing>, query: string): (r: seq<Listing>)
    ensures forall m :: multiset(r)[m] == if Matches(m, query) then multiset(list)[m] else 0
    ensures |r| <= |list|
  {
    if list == [] then []
    else
      assert list == [list[0]] + list[1..];
      (if Matches(list[0], query) then [list[0]] else []) + Filter(list[1..], query)
  }

  /** With an empty query the comprehension keeps everything, so skipping it changes nothing. */
  lemma {:induction false} FilterEmptyQuery(list: seq<Listing>)
    ensures Filter(list, "") == list
  {
    if list != [] {
      ContainsEmpty(Lower(list[0].name));
      FilterEmptyQuery(list[1..]);
    }
  }

  /**
   * `/dashboard`: the entries whose lower-cased name or city contains the lower-cased
   * search text (all entries when it is empty), each tagged with its key, sorted by name.
   */
  method Dashboard(catalog: Directory, search: string) returns (shown: seq<Listing>)
    ensures SortedBy(shown, ByName)
    ensures forall m :: multiset(shown)[m] ==
              if Matches(m, Lower(search)) then multiset(Listings(catalog))[m] else 0
  {
    var query := Lower(search);
    var museumList := MuseumList(catalog);
    assert museumList == Listings(catalog);
    var toDisplay;
    if query != [] {
      toDisplay := Filter(museumList, query);
    } else {
      toDisplay := museumList;
      forall m ensures multiset(toDisplay)[m] ==
                         if Matches(m, query) then multiset(Listings(catalog))[m] else 0
      {
        ContainsEmpty(Lower(m.name));
      }
    }
    ByNameTotalPreorder();
    SortBySorted(toDisplay, ByName);
    shown := SortBy(toDisplay, ByName);
  }

  /** `/quiz_selection`: every entry, tagged with its key, sorted by name. */
  method QuizSelection(catalog: Directory) returns (shown: seq<Listing>)
    ensures SortedBy(shown, ByName)
    ensures multiset(shown) == multiset(Listings(catalog))
  {
    var museumList := MuseumList(catalog);
    assert museumList == Listings(catalog);
    ByNameTotalPreorder();
    SortBySorted(museumList, ByName);
    shown := SortBy(museumList, ByName);
  }
}
