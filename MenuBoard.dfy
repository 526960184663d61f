/**
 * The menu board: the items of the chosen menu are grouped by category name,
 * the groups are concatenated in the property order of the grouping record,
 * and the first six are shown under a title picked by fallback.
 */
module MenuBoard {
  import opened Wrappers
  import opened JsNumbers

  /** A menu item as the board uses it: its content id, its name and the name of its linked category, if any. */
  datatype MenuItem = MenuItem(contentID: int, name: string, category: Option<string>)

  /** The board module's own fields; either may be missing. */
  datatype BoardFields = BoardFields(title: Option<string>, menuID: Option<int>)

  /** The menu item the board refers to: its name and the reference name of its item list. */
  datatype Menu = Menu(name: string, itemsRef: string)

  /** What fetching the item list gives: an error, or a list object whose `items` may be missing. */
  datatype ListReply = ListThrew | ListReturned(items: Option<seq<MenuItem>>)

  /** What the board renders: the title, and either the grid of shown items or the empty-menu message. */
  datatype View = Grid(title: string, shown: seq<MenuItem>) | NoItems(title: string)

  const OtherCategory := "Other"
  const DefaultTitle := "Menu"
  /** The grid has two columns and three rows. */
  const MaxShown := 6

  /** `item.fields.category?.fields.name || "Other"`: never the empty name. */
  function CategoryKey(item: MenuItem): (key: string)
    ensures key != ""
    ensures item.category.Some? && item.category.value != "" ==> key == item.category.value
  {
    match item.category
    case Some(n) => if n != "" then n else OtherCategory
    case None => OtherCategory
  }

  /** The items filed under category `c`, in list order. */
  function Members(items: seq<MenuItem>, c: string): seq<MenuItem> {
    if items == [] then []
    else
      var n := |items| - 1;
      Members(items[..n], c) + (if CategoryKey(items[n]) == c then [items[n]] else [])
  }

  /** The categories of `items` in order of first appearance: the order the grouping record receives its properties. */
  function KeyOrder(items: seq<MenuItem>): seq<string> {
    if items == [] then []
    else
      var n := |items| - 1;
      var keys := KeyOrder(items[..n]);
      if CategoryKey(items[n]) in keys then keys else keys + [CategoryKey(items[n])]
  }

  predicate Distinct(s: seq<string>) {
    forall i, j :: 0 <= i < j < |s| ==> s[i] != s[j]
  }

  /**
   * The `reduce` into a record of arrays: each item is pushed onto the array
   * of its category, which is created on the category's first appearance.
   * `order` is the order in which the record's properties were created.
   */
  method GroupByCategory(items: seq<MenuItem>) returns (groups: map<string, seq<MenuItem>>, order: seq<string>)
    ensures order == KeyOrder(items)
    ensures forall c :: c in groups <==> c in order
    ensures forall c :: c in groups ==> groups[c] == Members(items, c)
  {
    groups := map[];
    order := [];
    var i := 0;
    while i < |items|
      invariant 0 <= i <= |items|
      invariant order == KeyOrder(items[..i])
      invariant forall c :: c in groups <==> c in order
      invariant forall c :: c in groups ==> groups[c] == Members(items[..i], c)
    {
      var item := items[i];
      var category := CategoryKey(item);
      if category !in groups {
        KeyOrderSpec(items[..i]);
        MembersSpec(items[..i], category);
        groups := groups[category := []];
        order := order + [category];
      }
      groups := groups[category := groups[category] + [item]];
      assert items[..i + 1][..i] == items[..i];
      i := i + 1;
    }
    assert items[..i] == items;
  }

  /** The categories are distinct, and they are exactly the categories of the items. */
  lemma {:induction false} KeyOrderSpec(items: seq<MenuItem>)
    ensures Distinct(KeyOrder(items))
    ensures forall c :: c in KeyOrder(items) <==> exists i :: 0 <= i < |items| && CategoryKey(items[i]) == c
  {
    if items != [] {
      var n := |items| - 1;
      KeyOrderSpec(items[..n]);
      forall c ensures c in KeyOrder(items) <==> exists i :: 0 <= i < |items| && CategoryKey(items[i]) == c {
        if exists i :: 0 <= i < |items| && CategoryKey(items[i]) == c {
          var i :| 0 <= i < |items| && CategoryKey(items[i]) == c;
          if i < n {
            assert CategoryKey(items[..n][i]) == c;
          }
        }
        if c in KeyOrder(items[..n]) {
          var i :| 0 <= i < n && CategoryKey(items[..n][i]) == c;
          assert CategoryKey(items[i]) == c;
        }
      }
    }
  }

  /** Grouping keeps order: the group of a list's concatenation is the concatenation of the groups. */
  lemma {:induction false} MembersAppend(a: seq<MenuItem>, b: seq<MenuItem>, c: string)
    ensures Members(a + b, c) == Members(a, c) + Members(b, c)
  {
    if b == [] {
      assert a + b == a;
    } else {
      var n := |b| - 1;
      MembersAppend(a, b[..n], c);
      assert (a + b)[..|a + b| - 1] == a + b[..n];
    }
  }

  /** Every member of a group has that group's category, and a group is empty exactly for a category no item has. */
  lemma {:induction false} MembersSpec(items: seq<MenuItem>, c: string)
    ensures forall x :: x in Members(items, c) ==> x in items && CategoryKey(x) == c
    ensures Members(items, c) == [] <==> forall i :: 0 <= i < |items| ==> CategoryKey(items[i]) != c
  {
    if items != [] {
      var n := |items| - 1;
      MembersSpec(items[..n], c);
      assert forall i :: 0 <= i < n ==> items[..n][i] == items[i];
      assert items == items[..n] + [items[n]];
    }
  }

  /** A canonical array index: the decimal form of an integer from 0 to 2^32 - 2, which objects list first. */
  predicate IsArrayIndex(k: string) {
    k != "" && AllDigits(k, 10) && (k == "0" || k[0] != '0') && DigitsValue(k, 10) < 0xFFFF_FFFF
  }

  function IndexValue(k: string): nat {
    DigitsValue(k, 10)
  }

  predicate SortedByIndex(s: seq<string>) {
    forall i, j :: 0 <= i < j < |s| ==> IndexValue(s[i]) <= IndexValue(s[j])
  }

  /** Places `k` among keys sorted by numeric value. */
  function InsertByIndex(k: string, sorted: seq<string>): (r: seq<string>)
    ensures multiset(r) == multiset(sorted) + multiset{k}
  {
    if sorted == [] then [k]
    else if IndexValue(k) <= IndexValue(sorted[0]) then [k] + sorted
    else
      assert sorted == [sorted[0]] + sorted[1..];
      [sorted[0]] + InsertByIndex(k, sorted[1..])
  }

  /** A lower bound on the values of a list and of `k` bounds the values after the insertion. */
  lemma InsertByIndexBound(k: string, sorted: seq<string>, v: nat)
    requires forall x :: x in sorted ==> v <= IndexValue(x)
    requires v <= IndexValue(k)
    ensures forall x :: x in InsertByIndex(k, sorted) ==> v <= IndexValue(x)
  {
    forall x | x in InsertByIndex(k, sorted) ensures v <= IndexValue(x) {
      assert x in multiset(sorted) + multiset{k};
    }
  }

  /** The tail of a sorted list is sorted and bounded below by its head. */
  lemma SortedTail(sorted: seq<string>)
    requires sorted != [] && SortedByIndex(sorted)
    ensures SortedByIndex(sorted[1..])
    ensures forall x :: x in sorted[1..] ==> IndexValue(sorted[0]) <= IndexValue(x)
  {
    var tail := sorted[1..];
    forall i, j | 0 <= i < j < |tail| ensures IndexValue(tail[i]) <= IndexValue(tail[j]) {
      assert tail[i] == sorted[i + 1] && tail[j] == sorted[j + 1];
    }
    forall x | x in tail ensures IndexValue(sorted[0]) <= IndexValue(x) {
      var j :| 0 <= j < |tail| && tail[j] == x;
      assert sorted[j + 1] == x;
    }
  }

  /** A sorted list headed by a lower bound of its values is sorted. */
  lemma SortedCons(h: string, rest: seq<string>)
    requires SortedByIndex(rest)
    requires forall x :: x in rest ==> IndexValue(h) <= IndexValue(x)
    ensures SortedByIndex([h] + rest)
  {
    var r := [h] + rest;
    forall i, j | 0 <= i < j < |r| ensures IndexValue(r[i]) <= IndexValue(r[j]) {
      assert r[j] == rest[j - 1];
      if i > 0 {
        assert r[i] == rest[i - 1];
      }
    }
  }

  /** Inserting into a sorted list keeps it sorted. */
  lemma {:induction false} InsertByIndexSorted(k: string, sorted: seq<string>)
    requires SortedByIndex(sorted)
    ensures SortedByIndex(InsertByIndex(k, sorted))
  {
    if sorted == [] {
    } else if IndexValue(k) <= IndexValue(sorted[0]) {
      SortedCons(k, sorted);
    } else {
      var tail := sorted[1..];
      SortedTail(sorted);
      InsertByIndexSorted(k, tail);
      InsertByIndexBound(k, tail, IndexValue(sorted[0]));
      SortedCons(sorted[0], InsertByIndex(k, tail));
    }
  }

  /** The array-index keys in ascending numeric order. */
  function SortByIndex(keys: seq<string>): (r: seq<string>)
    ensures multiset(r) == multiset(keys)
    ensures SortedByIndex(r)
  {
    if keys == [] then []
    else
      assert keys == [keys[0]] + keys[1..];
      var sorted := SortByIndex(keys[1..]);
      InsertByIndexSorted(keys[0], sorted);
      InsertByIndex(keys[0], sorted)
  }

  function IndexKeys(keys: seq<string>): (r: seq<string>)
    ensures forall x :: x in r <==> x in keys && IsArrayIndex(x)
  {
    if keys == [] then []
    else (if IsArrayIndex(keys[0]) then [keys[0]] else []) + IndexKeys(keys[1..])
  }

  /** The keys that are not array indices, in the order given. */
  function NamedKeys(keys: seq<string>): (r: seq<string>)
    ensures forall x :: x in r <==> x in keys && !IsArrayIndex(x)
  {
    if keys == [] then []
    else (if IsArrayIndex(keys[0]) then [] else [keys[0]]) + NamedKeys(keys[1..])
  }

  /** Selecting the named keys works key by key, in order. */
  lemma {:induction false} NamedKeysAppend(a: seq<string>, b: seq<string>)
    ensures NamedKeys(a + b) == NamedKeys(a) + NamedKeys(b)
  {
    if a == [] {
      assert a + b == b;
    } else {
      var ab := a + b;
      assert ab[0] == a[0] && ab[1..] == a[1..] + b;
      NamedKeysAppend(a[1..], b);
      var h := if IsArrayIndex(a[0]) then [] else [a[0]];
      assert NamedKeys(ab) == h + NamedKeys(a[1..] + b);
      assert NamedKeys(a) == h + NamedKeys(a[1..]);
      AppendAssoc(h, NamedKeys(a[1..]), NamedKeys(b));
    }
  }

  lemma AppendAssoc(x: seq<string>, y: seq<string>, z: seq<string>)
    ensures x + (y + z) == (x + y) + z
  {
  }

  /** `x` occurs before `y` in `s`. */
  predicate Before(s: seq<string>, x: string, y: string) {
    exists i, j :: 0 <= i < j < |s| && s[i] == x && s[j] == y
  }

  /** Two named keys keep their relative order. */
  lemma {:induction false} NamedKeysKeepOrder(keys: seq<string>, i: nat, j: nat)
    requires i < j < |keys| && !IsArrayIndex(keys[i]) && !IsArrayIndex(keys[j])
    ensures Before(NamedKeys(keys), keys[i], keys[j])
  {
    var a, b := keys[..j], keys[j..];
    assert keys == a + b;
    NamedKeysAppend(a, b);
    assert b[0] == keys[j];
    var nb := NamedKeys(b);
    assert nb == [keys[j]] + NamedKeys(b[1..]);
    assert a[i] == keys[i];
    var na := NamedKeys(a);
    assert keys[i] in na;
    var i' :| 0 <= i' < |na| && na[i'] == keys[i];
    var r := NamedKeys(keys);
    assert r == na + nb;
    assert r[i'] == keys[i];
    assert r[|na|] == nb[0];
  }

  /** The order `Object.values` lists the properties created in `order`: array indices ascending, then the rest as created. */
  function ObjectKeys(order: seq<string>): (keys: seq<string>)
    ensures forall k :: k in keys <==> k in order
  {
    var sorted := SortByIndex(IndexKeys(order));
    assert forall k :: k in sorted <==> k in multiset(IndexKeys(order));
    sorted + NamedKeys(order)
  }

  /** Splitting the keys by kind loses and duplicates none. */
  lemma {:induction false} SplitKeysPermutation(keys: seq<string>)
    ensures multiset(IndexKeys(keys)) + multiset(NamedKeys(keys)) == multiset(keys)
  {
    if keys != [] {
      SplitKeysPermutation(keys[1..]);
      assert keys == [keys[0]] + keys[1..];
    }
  }

  /** With no array-index key, the keys are listed as created. */
  lemma {:induction false} NamedKeysAll(keys: seq<string>)
    requires forall k :: k in keys ==> !IsArrayIndex(k)
    ensures NamedKeys(keys) == keys && IndexKeys(keys) == []
  {
    if keys != [] {
      NamedKeysAll(keys[1..]);
      assert keys == [keys[0]] + keys[1..];
    }
  }

  /** In a duplicate-free sequence nothing occurs twice. */
  lemma {:induction false} DistinctCounts(s: seq<string>)
    requires Distinct(s)
    ensures forall x :: multiset(s)[x] <= 1
  {
    if s != [] {
      var t := s[1..];
      assert Distinct(t) by {
        forall i, j | 0 <= i < j < |t| ensures t[i] != t[j] {
          assert t[i] == s[i + 1] && t[j] == s[j + 1];
        }
      }
      DistinctCounts(t);
      assert s == [s[0]] + t;
      forall j | 0 <= j < |t| ensures t[j] != s[0] {
        assert t[j] == s[j + 1];
      }
      assert multiset(t)[s[0]] == 0;
    }
  }

  /** A sequence in which nothing occurs twice is duplicate-free. */
  lemma CountsDistinct(s: seq<string>)
    requires forall x :: multiset(s)[x] <= 1
    ensures Distinct(s)
  {
    forall i, j | 0 <= i < j < |s| ensures s[i] != s[j] {
      assert s == s[..j] + s[j..];
      assert s[..j][i] == s[i];
      assert s[j..][0] == s[j];
      assert multiset(s)[s[j]] == multiset(s[..j])[s[j]] + multiset(s[j..])[s[j]];
    }
  }

  /**
   * `Object.values` lists every created property exactly once: array-index
   * keys first, ascending, then the others in creation order.
   */
  lemma ObjectKeysSpec(order: seq<string>)
    requires Distinct(order)
    ensures multiset(ObjectKeys(order)) == multiset(order)
    ensures Distinct(ObjectKeys(order))
    ensures SortedByIndex(SortByIndex(IndexKeys(order)))
    ensures forall k :: k in SortByIndex(IndexKeys(order)) ==> IsArrayIndex(k)
    ensures forall k :: k in NamedKeys(order) ==> !IsArrayIndex(k)
    ensures (forall k :: k in order ==> !IsArrayIndex(k)) ==> ObjectKeys(order) == order
    ensures forall x, y :: x in order && y in order && IsArrayIndex(x) && !IsArrayIndex(y) ==> Before(ObjectKeys(order), x, y)
    ensures forall i, j :: 0 <= i < j < |order| && !IsArrayIndex(order[i]) && !IsArrayIndex(order[j]) ==>
      Before(ObjectKeys(order), order[i], order[j])
  {
    ObjectKeysCounts(order);
    ObjectKeysOrder(order);
    if forall k :: k in order ==> !IsArrayIndex(k) {
      NamedKeysAll(order);
    }
  }

  /**
   * The order of `Object.values` between the two kinds of key and among the
   * named ones: every array index comes before every other key, and two
   * named keys come in the order they were created.
   */
  lemma ObjectKeysOrder(order: seq<string>)
    ensures forall x, y :: x in order && y in order && IsArrayIndex(x) && !IsArrayIndex(y) ==> Before(ObjectKeys(order), x, y)
    ensures forall i, j :: 0 <= i < j < |order| && !IsArrayIndex(order[i]) && !IsArrayIndex(order[j]) ==>
      Before(ObjectKeys(order), order[i], order[j])
  {
    forall x, y | x in order && y in order && IsArrayIndex(x) && !IsArrayIndex(y) ensures Before(ObjectKeys(order), x, y) {
      IndexBeforeNamed(order, x, y);
    }
    forall i, j | 0 <= i < j < |order| && !IsArrayIndex(order[i]) && !IsArrayIndex(order[j])
      ensures Before(ObjectKeys(order), order[i], order[j])
    {
      NamedKeysKeepOrder(order, i, j);
      BeforeAfterPrefix(SortByIndex(IndexKeys(order)), NamedKeys(order), order[i], order[j]);
    }
  }

  /** An array-index key is listed before a named key. */
  lemma IndexBeforeNamed(order: seq<string>, x: string, y: string)
    requires x in order && y in order && IsArrayIndex(x) && !IsArrayIndex(y)
    ensures Before(ObjectKeys(order), x, y)
  {
    var sorted := SortByIndex(IndexKeys(order));
    var named := NamedKeys(order);
    var keys := sorted + named;
    assert x in multiset(IndexKeys(order));
    assert x in multiset(sorted);
    var i :| 0 <= i < |sorted| && sorted[i] == x;
    var j :| 0 <= j < |named| && named[j] == y;
    assert keys[i] == x && keys[|sorted| + j] == y;
  }

  /** Order within the second part of a concatenation is order in the whole. */
  lemma BeforeAfterPrefix(p: seq<string>, s: seq<string>, x: string, y: string)
    requires Before(s, x, y)
    ensures Before(p + s, x, y)
  {
    var i, j :| 0 <= i < j < |s| && s[i] == x && s[j] == y;
    assert (p + s)[|p| + i] == x && (p + s)[|p| + j] == y;
  }

  /** The multiset and distinctness facts of `ObjectKeysSpec`. */
  lemma ObjectKeysCounts(order: seq<string>)
    requires Distinct(order)
    ensures multiset(ObjectKeys(order)) == multiset(order)
    ensures Distinct(ObjectKeys(order))
    ensures SortedByIndex(SortByIndex(IndexKeys(order)))
    ensures forall k :: k in SortByIndex(IndexKeys(order)) ==> IsArrayIndex(k)
  {
    SplitKeysPermutation(order);
    DistinctCounts(order);
    CountsDistinct(ObjectKeys(order));
    forall k | k in SortByIndex(IndexKeys(order)) ensures IsArrayIndex(k) {
      assert k in multiset(IndexKeys(order));
    }
  }

  /** The items of the groups named by `keys`, group after group. */
  function FlatMembers(items: seq<MenuItem>, keys: seq<string>): seq<MenuItem> {
    if keys == [] then [] else Members(items, keys[0]) + FlatMembers(items, keys[1..])
  }

  /** `Object.values(groupedItems).flat()`. */
  function AllItems(items: seq<MenuItem>): seq<MenuItem> {
    FlatMembers(items, ObjectKeys(KeyOrder(items)))
  }

  lemma MembersSnoc(items: seq<MenuItem>, x: MenuItem, c: string)
    ensures Members(items + [x], c) == Members(items, c) + if CategoryKey(x) == c then [x] else []
  {
    assert (items + [x])[..|items|] == items;
  }

  /** One more item lands in exactly one of the groups named by distinct keys, or in none. */
  lemma {:induction false} FlatMembersSnoc(items: seq<MenuItem>, x: MenuItem, keys: seq<string>)
    requires Distinct(keys)
    ensures multiset(FlatMembers(items + [x], keys)) ==
      multiset(FlatMembers(items, keys)) + if CategoryKey(x) in keys then multiset{x} else multiset{}
  {
    if keys != [] {
      var t := keys[1..];
      assert Distinct(t) by {
        forall i, j | 0 <= i < j < |t| ensures t[i] != t[j] {
          assert t[i] == keys[i + 1] && t[j] == keys[j + 1];
        }
      }
      FlatMembersSnoc(items, x, t);
      MembersSnoc(items, x, keys[0]);
    }
  }

  /** The groups named by distinct keys that cover every item's category hold the items, each once. */
  lemma {:induction false} FlatMembersPermutation(items: seq<MenuItem>, keys: seq<string>)
    requires Distinct(keys)
    requires forall i :: 0 <= i < |items| ==> CategoryKey(items[i]) in keys
    ensures multiset(FlatMembers(items, keys)) == multiset(items)
  {
    if items == [] {
      FlatMembersEmpty(keys);
    } else {
      var n := |items| - 1;
      var init, x := items[..n], items[n];
      assert items == init + [x];
      assert forall i :: 0 <= i < n ==> init[i] == items[i];
      FlatMembersPermutation(init, keys);
      FlatMembersSnoc(init, x, keys);
      assert CategoryKey(x) in keys;
      calc {
        multiset(FlatMembers(items, keys));
        multiset(FlatMembers(init, keys)) + multiset{x};
        multiset(init) + multiset{x};
        multiset(init + [x]);
      }
    }
  }

  lemma {:induction false} FlatMembersEmpty(keys: seq<string>)
    ensures FlatMembers([], keys) == []
  {
    if keys != [] {
      FlatMembersEmpty(keys[1..]);
    }
  }

  /** The keys `Object.values` walks are distinct and cover every item's category. */
  lemma ObjectKeysCover(items: seq<MenuItem>)
    ensures Distinct(ObjectKeys(KeyOrder(items)))
    ensures forall i :: 0 <= i < |items| ==> CategoryKey(items[i]) in ObjectKeys(KeyOrder(items))
  {
    var order := KeyOrder(items);
    KeyOrderSpec(items);
    ObjectKeysSpec(order);
    var keys := ObjectKeys(order);
    forall i | 0 <= i < |items| ensures CategoryKey(items[i]) in keys {
      assert CategoryKey(items[i]) in order;
      assert CategoryKey(items[i]) in multiset(keys);
    }
  }

  /** The flattened list is a permutation of the menu's items: nothing lost, nothing doubled. */
  lemma AllItemsPermutation(items: seq<MenuItem>)
    ensures multiset(AllItems(items)) == multiset(items)
    ensures |AllItems(items)| == |items|
  {
    ObjectKeysCover(items);
    FlatMembersPermutation(items, ObjectKeys(KeyOrder(items)));
    assert |multiset(AllItems(items))| == |multiset(items)|;
  }

  /** With no category named like an array index, the groups follow one another in order of first appearance. */
  lemma AllItemsInFirstAppearanceOrder(items: seq<MenuItem>)
    requires forall i :: 0 <= i < |items| ==> !IsArrayIndex(CategoryKey(items[i]))
    ensures AllItems(items) == FlatMembers(items, KeyOrder(items))
  {
    KeyOrderSpec(items);
    ObjectKeysSpec(KeyOrder(items));
  }

  /** `allItems.slice(0, 6)`. */
  function Displayed(all: seq<MenuItem>): (shown: seq<MenuItem>)
    ensures |shown| == if |all| < MaxShown then |all| else MaxShown
    ensures shown <= all
  {
    if |all| < MaxShown then all else all[..MaxShown]
  }

  /** `title || menu?.fields.name || "Menu"`: the first non-empty of the three. */
  function DisplayTitle(title: Option<string>, menu: Option<Menu>): (t: string)
    ensures t != ""
  {
    if title.Some? && title.value != "" then title.value
    else if menu.Some? && menu.value.name != "" then menu.value.name
    else DefaultTitle
  }

  /** The title is the board's own title when it has one, else the menu's name, and "Menu" only when neither is set. */
  lemma DisplayTitleFallback(title: Option<string>, menu: Option<Menu>)
    ensures title.Some? && title.value != "" ==> DisplayTitle(title, menu) == title.value
    ensures (title.None? || title.value == "") && menu.Some? && menu.value.name != "" ==>
      DisplayTitle(title, menu) == menu.value.name
    ensures DisplayTitle(title, menu) == DefaultTitle <==>
      (title.Some? && title.value == DefaultTitle) || ((title.None? || title.value == "") &&
        ((menu.Some? && menu.value.name == DefaultTitle) || menu.None? || menu.value.name == ""))
  {
  }

  /** `if (menuID)`: a missing id and the number 0 are falsy. */
  predicate HasMenuId(fields: BoardFields) {
    fields.menuID.Some? && fields.menuID.value != 0
  }

  /** The menu the board reads its name from: fetched only when it has an id. */
  function MenuOf(fields: BoardFields, fetched: Menu): Option<Menu> {
    if HasMenuId(fields) then Some(fetched) else None
  }

  /**
   * The items the board groups: none without a menu id or an item-list
   * reference, none when fetching the list fails, `items || []` otherwise.
   */
  function LoadItems(fields: BoardFields, fetched: Menu, reply: ListReply): (items: seq<MenuItem>)
    ensures !HasMenuId(fields) || fetched.itemsRef == "" || reply.ListThrew? ==> items == []
    ensures reply.ListReturned? && reply.items.Some? && HasMenuId(fields) && fetched.itemsRef != "" ==> items == reply.items.value
  {
    if !HasMenuId(fields) || fetched.itemsRef == "" then []
    else
      match reply
      case ListThrew => []
      case ListReturned(items) => items.GetOr([])
  }

  /** The board as rendered from its fields, the fetched menu and the list reply. */
  function Render(fields: BoardFields, fetched: Menu, reply: ListReply): (v: View)
    ensures v.title != ""
    ensures v.Grid? ==> 1 <= |v.shown| <= MaxShown
  {
    var all := AllItems(LoadItems(fields, fetched, reply));
    var title := DisplayTitle(fields.title, MenuOf(fields, fetched));
    if |all| > 0 then Grid(title, Displayed(all)) else NoItems(title)
  }

  /**
   * The grid shows between one and six items, exactly the first of the
   * flattened list; the empty-menu message appears exactly when no item was
   * loaded, which is the case without a menu id and when the list fetch fails.
   */
  lemma RenderSpec(fields: BoardFields, fetched: Menu, reply: ListReply)
    ensures var v := Render(fields, fetched, reply);
            var items := LoadItems(fields, fetched, reply);
            (v.NoItems? <==> items == [])
            && (v.Grid? ==> 1 <= |v.shown| <= MaxShown && v.shown == AllItems(items)[..|v.shown|]
                            && forall x :: x in v.shown ==> x in items)
    ensures !HasMenuId(fields) || reply.ListThrew? ==> Render(fields, fetched, reply).NoItems?
  {
    var items := LoadItems(fields, fetched, reply);
    AllItemsPermutation(items);
    var all := AllItems(items);
    forall x | x in Displayed(all) ensures x in items {
      assert x in multiset(all);
    }
  }

  /**
   * The names an empty object literal inherits from `Object.prototype`. For
   * such a name `acc[category]` is already truthy and is not an array, so
   * `acc[category].push(item)` throws a TypeError.
   */
  const InheritedNames: set<string> := {
    "constructor", "__defineGetter__", "__defineSetter__", "hasOwnProperty",
    "__lookupGetter__", "__lookupSetter__", "isPrototypeOf", "propertyIsEnumerable",
    "toString", "valueOf", "__proto__", "toLocaleString"
  }

  /**
   * The `reduce` as written, on a record that starts as `{}`: `None` when
   * it throws. Own properties are the created groups; an inherited name is
   * truthy, is never replaced by `[]`, and has no `push`.
   */
  function GroupAsWritten(items: seq<MenuItem>): (r: Option<map<string, seq<MenuItem>>>)
    ensures r.Some? ==> forall c :: c in r.value ==> c !in InheritedNames
  {
    if items == [] then Some(map[])
    else
      var n := |items| - 1;
      match GroupAsWritten(items[..n])
      case None => None
      case Some(acc) =>
        var c := CategoryKey(items[n]);
        if c in acc then Some(acc[c := acc[c] + [items[n]]])
        else if c in InheritedNames then None
        else Some(acc[c := [items[n]]])
  }

  /** Some item of `items` is filed under an inherited name. */
  predicate AnyInherited(items: seq<MenuItem>) {
    exists i :: 0 <= i < |items| && CategoryKey(items[i]) in InheritedNames
  }

  lemma AnyInheritedSnoc(items: seq<MenuItem>)
    requires items != []
    ensures AnyInherited(items) <==> AnyInherited(items[..|items| - 1]) || CategoryKey(items[|items| - 1]) in InheritedNames
  {
    var n := |items| - 1;
    if AnyInherited(items) {
      var i :| 0 <= i < |items| && CategoryKey(items[i]) in InheritedNames;
      if i < n {
        assert items[..n][i] == items[i];
      }
    }
    if AnyInherited(items[..n]) {
      var i :| 0 <= i < n && CategoryKey(items[..n][i]) in InheritedNames;
      assert items[i] == items[..n][i];
    }
  }

  /** The grouping as written throws exactly when some item's category is an inherited name. */
  lemma {:induction false} GroupAsWrittenThrows(items: seq<MenuItem>)
    ensures GroupAsWritten(items).None? <==> AnyInherited(items)
  {
    if items != [] {
      var init := items[..|items| - 1];
      GroupAsWrittenThrows(init);
      AnyInheritedSnoc(items);
    }
  }

  /** A category has been created exactly when its group is non-empty. */
  lemma {:induction false} KeyOrderMembers(items: seq<MenuItem>, c: string)
    ensures c in KeyOrder(items) <==> Members(items, c) != []
  {
    if items != [] {
      KeyOrderMembers(items[..|items| - 1], c);
    }
  }

  /** When the grouping as written does not throw, it builds the same groups as the corrected one. */
  lemma {:induction false} GroupAsWrittenAgrees(items: seq<MenuItem>)
    requires GroupAsWritten(items).Some?
    ensures forall c :: c in GroupAsWritten(items).value <==> c in KeyOrder(items)
    ensures forall c :: c in GroupAsWritten(items).value ==> GroupAsWritten(items).value[c] == Members(items, c)
  {
    if items != [] {
      var n := |items| - 1;
      var init := items[..n];
      GroupAsWrittenAgrees(init);
      KeyOrderMembers(init, CategoryKey(items[n]));
    }
  }

  /** A one-item menu whose category is called "constructor": the board as written throws, the corrected grouping files the item. */
  lemma InheritedCategoryThrows()
    ensures var items := [MenuItem(1, "Espresso", Some("constructor"))];
            GroupAsWritten(items).None? && AllItems(items) == items
  {
    var items := [MenuItem(1, "Espresso", Some("constructor"))];
    assert items[..0] == [];
    assert GroupAsWritten(items[..0]) == Some(map[]);
    assert "constructor" in InheritedNames;
    assert CategoryKey(items[0]) == "constructor";
    assert KeyOrder(items) == ["constructor"];
    assert !IsArrayIndex("constructor") by {
      assert DigitValue('c', 10).None?;
    }
    assert IndexKeys(["constructor"]) == [];
    assert NamedKeys(["constructor"]) == ["constructor"];
    assert Members(items, "constructor") == items;
    assert ObjectKeys(["constructor"]) == ["constructor"];
    assert FlatMembers(items, ["constructor"]) == Members(items, "constructor") + FlatMembers(items, []);
  }
}
