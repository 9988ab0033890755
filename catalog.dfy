/**
  The read-only views of marketplace/views.py as queries over the catalog:
  `shop` (search, filters and the page title), `item_detail` (the item, its
  related items and whether the viewer favourited it), `my_account` and
  `favorites_list`. The catalog is the sequence of items in its default
  order, newest first.
 */
module Catalog {
  import opened Wrappers
  import opened Goods
  import opened QuerySets

  // ---------------------------------------------------------------------------
  // Primary keys

  function Ids(items: seq<Item>): set<ItemId>
  {
    set x | x in items :: x.id
  }

  /** `id` is the primary key: no two rows share one. */
  ghost predicate DistinctIds(items: seq<Item>)
  {
    forall i, j :: 0 <= i < j < |items| ==> items[i].id != items[j].id
  }

  /** `Goods.objects.get(id=id)`, with `None` for `DoesNotExist`. */
  function FindItem(items: seq<Item>, id: ItemId): (r: Option<Item>)
    ensures r.Some? <==> id in Ids(items)
    ensures r.Some? ==> r.value in items && r.value.id == id
  {
    if items == [] then None
    else
      assert Ids(items) == {items[0].id} + Ids(items[1..]);
      if items[0].id == id then Some(items[0]) else FindItem(items[1..], id)
  }

  /** Rows with distinct keys are distinct rows. */
  lemma DistinctIdsAreDistinct(items: seq<Item>)
    ensures DistinctIds(items) ==> Distinct(items)
  {
  }

  /** Under distinct keys the lookup finds the one row with that key. */
  lemma FindItemUnique(items: seq<Item>, x: Item)
    requires DistinctIds(items) && x in items
    ensures FindItem(items, x.id) == Some(x)
  {
    var y := FindItem(items, x.id).value;
    var i :| 0 <= i < |items| && items[i] == x;
    var j :| 0 <= j < |items| && items[j] == y;
    assert i == j;
  }

  lemma FilterKeepsDistinctIds(items: seq<Item>, p: Item -> bool)
    requires DistinctIds(items)
    ensures DistinctIds(Filter(items, p))
  {
    var rel := (x: Item, y: Item) => x.id != y.id;
    assert Pairwise(items, rel);
    SubseqPairwise(Filter(items, p), items, rel);
  }

  lemma FilterKeepsNewestFirst(items: seq<Item>, p: Item -> bool)
    requires NewestFirst(items)
    ensures NewestFirst(Filter(items, p))
  {
    var rel := (x: Item, y: Item) => x.createdAt >= y.createdAt;
    assert Pairwise(items, rel);
    SubseqPairwise(Filter(items, p), items, rel);
  }

  // ---------------------------------------------------------------------------
  // Case-insensitive substring search (`__icontains`), over ASCII letters

  function LowerChar(c: char): char
  {
    if 'A' <= c <= 'Z' then (c as int + 32) as char else c
  }

  function Lower(s: string): string
  {
    seq(|s|, i requires 0 <= i < |s| => LowerChar(s[i]))
  }

  predicate IsPrefix(p: string, s: string)
  {
    |p| <= |s| && s[..|p|] == p
  }

  predicate Contains(s: string, q: string)
    decreases |s|
  {
    IsPrefix(q, s) || (s != [] && Contains(s[1..], q))
  }

  /** `q` occurs in `s` starting at position `i`. */
  predicate OccursAt(s: string, q: string, i: int)
  {
    0 <= i <= |s| - |q| && s[i..i + |q|] == q
  }

  /** `Contains` is substring occurrence at some position. */
  lemma {:induction false} ContainsIff(s: string, q: string)
    ensures Contains(s, q) <==> exists i :: OccursAt(s, q, i)
    decreases |s|
  {
    if s != [] {
      ContainsIff(s[1..], q);
      if IsPrefix(q, s) {
        assert OccursAt(s, q, 0);
      } else if Contains(s[1..], q) {
        var i :| OccursAt(s[1..], q, i);
        assert s[1..][i..i + |q|] == s[i + 1..i + 1 + |q|];
        assert OccursAt(s, q, i + 1);
      }
      if exists i :: OccursAt(s, q, i) {
        var i :| OccursAt(s, q, i);
        if i > 0 {
          assert s[1..][i - 1..i - 1 + |q|] == s[i..i + |q|];
          assert OccursAt(s[1..], q, i - 1);
        }
      }
    } else if q == [] {
      assert OccursAt(s, q, 0);
    }
  }

  predicate IContains(s: string, q: string)
  {
    Contains(Lower(s), Lower(q))
  }

  /** The search box: name, description, professor or course code. */
  predicate TextMatch(x: Item, q: string)
  {
    IContains(x.name, q) || IContains(x.description, q)
    || IContains(x.professor, q) || IContains(x.courseCode, q)
  }

  // ---------------------------------------------------------------------------
  // shop

  /** The rows `shop` lists: the search filter when a query is given, then
      the major filter, then the category filter, each only when non-empty. */
  function Shop(items: seq<Item>, q: string, major: string, category: string): seq<Item>
  {
    var bySearch := if q != "" then Filter(items, (x: Item) => TextMatch(x, q)) else items;
    var byMajor := if major != "" then Filter(bySearch, (x: Item) => x.major == major) else bySearch;
    if category != "" then Filter(byMajor, (x: Item) => x.category == category) else byMajor
  }

  /** A row passes every filter `shop` applies. */
  predicate ShopMatches(x: Item, q: string, major: string, category: string)
  {
    && (q == "" || TextMatch(x, q))
    && (major == "" || x.major == major)
    && (category == "" || x.category == category)
  }

  /** The chained filters are a single filter on the conjunction. */
  lemma ShopIsOneFilter(items: seq<Item>, q: string, major: string, category: string)
    ensures Shop(items, q, major, category) == Filter(items, (x: Item) => ShopMatches(x, q, major, category))
  {
    var ps := (x: Item) => q == "" || TextMatch(x, q);
    var pm := (x: Item) => major == "" || x.major == major;
    var pc := (x: Item) => category == "" || x.category == category;
    var psm := (x: Item) => ps(x) && pm(x);
    var all := (x: Item) => ShopMatches(x, q, major, category);
    var bySearch := if q != "" then Filter(items, (x: Item) => TextMatch(x, q)) else items;
    assert bySearch == Filter(items, ps) by {
      if q != "" { FilterExtensional(items, (x: Item) => TextMatch(x, q), ps); } else { FilterAll(items, ps); }
    }
    var byMajor := if major != "" then Filter(bySearch, (x: Item) => x.major == major) else bySearch;
    assert byMajor == Filter(bySearch, pm) by {
      if major != "" { FilterExtensional(bySearch, (x: Item) => x.major == major, pm); } else { FilterAll(bySearch, pm); }
    }
    var result := if category != "" then Filter(byMajor, (x: Item) => x.category == category) else byMajor;
    assert result == Filter(byMajor, pc) by {
      if category != "" { FilterExtensional(byMajor, (x: Item) => x.category == category, pc); } else { FilterAll(byMajor, pc); }
    }
    assert result == Shop(items, q, major, category);
    FilterFilter(items, ps, pm, psm);
    FilterFilter(items, psm, pc, all);
  }

  /** `shop` lists exactly the rows matching the search (any of the four text
      fields), the major and the category, as a subsequence of the catalog:
      newest first when the catalog is. */
  lemma ShopResults(items: seq<Item>, q: string, major: string, category: string)
    ensures forall x :: x in Shop(items, q, major, category) <==> x in items && ShopMatches(x, q, major, category)
    ensures IsSubseq(Shop(items, q, major, category), items)
    ensures NewestFirst(items) ==> NewestFirst(Shop(items, q, major, category))
  {
    ShopIsOneFilter(items, q, major, category);
    if NewestFirst(items) {
      FilterKeepsNewestFirst(items, (x: Item) => ShopMatches(x, q, major, category));
    }
  }

  /** `dict(choices).get(key, "All")`. */
  function LabelOrAll(choices: Choices, key: string): string
  {
    match Label(choices, key)
    case Some(l) => l
    case None => "All"
  }

  /** `selected_title` of the shop page. */
  function SelectedTitle(q: string, major: string, category: string): string
  {
    if major != "" then LabelOrAll(MajorChoices, major)
    else if category != "" then LabelOrAll(CategoryChoices, category)
    else if q != "" then "Search: \"" + q + "\""
    else "All"
  }

  /** The title's precedence: a major filter names its major (or "All" for an
      unknown key), else a category filter names its category (or "All"),
      else a query gives `Search: "q"`, else "All". */
  lemma SelectedTitlePrecedence(q: string, major: string, category: string)
    ensures major != "" ==>
      forall i :: 0 <= i < |MajorChoices| && MajorChoices[i].0 == major ==>
        SelectedTitle(q, major, category) == MajorChoices[i].1
    ensures major != "" && major !in Keys(MajorChoices) ==> SelectedTitle(q, major, category) == "All"
    ensures major == "" && category != "" ==>
      forall i :: 0 <= i < |CategoryChoices| && CategoryChoices[i].0 == category ==>
        SelectedTitle(q, major, category) == CategoryChoices[i].1
    ensures major == "" && category != "" && category !in Keys(CategoryChoices) ==>
      SelectedTitle(q, major, category) == "All"
    ensures major == "" && category == "" && q != "" ==>
      SelectedTitle(q, major, category) == "Search: \"" + q + "\""
    ensures major == "" && category == "" && q == "" ==> SelectedTitle(q, major, category) == "All"
  {
    MajorChoicesWellFormed();
    CategoryChoicesWellFormed();
    forall i | 0 <= i < |MajorChoices| && MajorChoices[i].0 == major
      ensures Label(MajorChoices, major) == Some(MajorChoices[i].1)
    {
      LabelOfDistinct(MajorChoices, major, MajorChoices[i].1);
    }
    forall i | 0 <= i < |CategoryChoices| && CategoryChoices[i].0 == category
      ensures Label(CategoryChoices, category) == Some(CategoryChoices[i].1)
    {
      LabelOfDistinct(CategoryChoices, category, CategoryChoices[i].1);
    }
  }

  // ---------------------------------------------------------------------------
  // item_detail

  const MaxRelated := 4

  /** `Q(category=x.category) | Q(major=x.major)`. */
  predicate SharesTag(y: Item, x: Item)
  {
    y.category == x.category || y.major == x.major
  }

  /** The related items of `x`: other rows sharing its category or its major,
      at most four, in catalog order; fewer than four only when no other row
      qualifies; and, rows having distinct keys, the first ones that qualify:
      no qualifying row is passed over for a later one. */
  function Related(items: seq<Item>, x: Item): (r: seq<Item>)
    ensures |r| <= MaxRelated
    ensures forall y :: y in r ==> y in items && y.id != x.id && SharesTag(y, x)
    ensures |r| < MaxRelated ==>
      forall y :: y in items && y.id != x.id && SharesTag(y, x) ==> y in r
    ensures IsSubseq(r, items)
    ensures DistinctIds(items) ==>
      forall i, j :: 0 <= i < j < |items| && items[j] in r && SharesTag(items[i], x) && items[i].id != x.id ==>
        items[i] in r
  {
    var qualifies := (y: Item) => SharesTag(y, x) && y.id != x.id;
    var candidates := Filter(items, qualifies);
    DistinctIdsAreDistinct(items);
    TakeFilterEarliest(items, qualifies, MaxRelated);
    if |candidates| <= MaxRelated then candidates
    else
      SubseqPrefix(candidates, items, MaxRelated);
      assert forall y :: y in candidates[..MaxRelated] ==> y in candidates;
      Take(candidates, MaxRelated)
  }

  datatype Detail = Detail(item: Item, related: seq<Item>, isFavorited: bool)

  /** `item_detail`: not found for an unknown key; otherwise the row, its
      related items and whether the signed-in viewer (if any) favourited it. */
  function ItemDetail(items: seq<Item>, favorites: set<(UserId, ItemId)>, viewer: Option<UserId>, id: ItemId): (r: Option<Detail>)
    ensures r.None? <==> id !in Ids(items)
    ensures r.Some? ==>
      && r.value.item in items && r.value.item.id == id
      && r.value.related == Related(items, r.value.item)
      && (r.value.isFavorited <==> viewer.Some? && (viewer.value, id) in favorites)
  {
    match FindItem(items, id)
    case None => None
    case Some(x) =>
      Some(Detail(x, Related(items, x), viewer.Some? && (viewer.value, x.id) in favorites))
  }

  // ---------------------------------------------------------------------------
  // my_account and favorites_list

  /** `my_account`: the rows whose seller is the user, in catalog order. */
  function MyItems(items: seq<Item>, user: UserId): (r: seq<Item>)
    ensures forall x :: x in r <==> x in items && x.seller == Some(user)
    ensures IsSubseq(r, items)
  {
    Filter(items, (x: Item) => x.seller == Some(user))
  }

  /** `favorites_list`: the rows the user favourited. The order of the
      `Favorite` rows is not modelled, so the result is a set. */
  function FavoriteItems(items: seq<Item>, favorites: set<(UserId, ItemId)>, user: UserId): (r: set<Item>)
    ensures forall x :: x in r <==> x in items && (user, x.id) in favorites
    ensures |r| <= |items|
  {
    var r := set x | x in items && (user, x.id) in favorites;
    DrawnFromBound(items, r);
    r
  }
}
