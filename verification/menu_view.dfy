/** The public menu page (`Menu.tsx`): the items grouped by category key,
    items without a category under "Без категории", the groups in the
    fixed order main_meal, snacks, breakfast, desserts, drinks with every
    other key after them, each under its Russian heading when it has one. */
module MenuView {
  import opened Basics
  import opened Sorting
  import opened ClientTypes
  import Translit
  import Numbers

  const NoCategory := "Без категории"
  const CategoryOrder: seq<string> := ["main_meal", "snacks", "breakfast", "desserts", "drinks"]

  /** The rank of a key that is not in `CategoryOrder`. */
  const Unranked := 5

  /** `categoryNames`: the display names of the known keys. */
  function CategoryName(key: string): Option<string> {
    if key == "main_meal" then Some("Основное меню")
    else if key == "snacks" then Some("Закуски")
    else if key == "breakfast" then Some("Завтрак")
    else if key == "desserts" then Some("Десерты")
    else if key == "drinks" then Some("Напитки")
    else None
  }

  /** `item.category || 'Без категории'` */
  function GroupKey(item: MenuItem): (k: string)
    ensures k != ""
    ensures item.category != "" ==> k == item.category
  {
    if item.category == "" then NoCategory else item.category
  }

  function HasKey(k: string): MenuItem -> bool {
    (x: MenuItem) => GroupKey(x) == k
  }

  /** Reference definition: the items filed under `k`, in list order. */
  function ItemsWithKey(menu: seq<MenuItem>, k: string): seq<MenuItem> {
    Filter(menu, HasKey(k))
  }

  /** The key of every item, in list order. */
  function KeyColumn(menu: seq<MenuItem>): (r: seq<string>)
    ensures |r| == |menu| && forall i :: 0 <= i < |menu| ==> r[i] == GroupKey(menu[i])
  {
    seq(|menu|, i requires 0 <= i < |menu| => GroupKey(menu[i]))
  }

  datatype Group = Group(key: string, items: seq<MenuItem>)

  function Keys(groups: seq<Group>): (r: seq<string>)
    ensures |r| == |groups| && forall i :: 0 <= i < |groups| ==> r[i] == groups[i].key
  {
    seq(|groups|, i requires 0 <= i < |groups| => groups[i].key)
  }

  /** `acc[category]`, looked up among the groups' own keys. */
  function FindGroup(groups: seq<Group>, k: string): (r: Option<nat>)
    ensures r.Some? ==> r.value < |groups| && groups[r.value].key == k
    ensures r.None? <==> forall i :: 0 <= i < |groups| ==> groups[i].key != k
  {
    FindFirst(groups, (g: Group) => g.key == k)
  }

  /** One step of the `reduce`: append to the item's group, opening it first
      when the key is new. */
  function AddItem(groups: seq<Group>, x: MenuItem): seq<Group> {
    var k := GroupKey(x);
    match FindGroup(groups, k)
    case Some(i) => groups[i := Group(k, groups[i].items + [x])]
    case None => groups + [Group(k, [x])]
  }

  /** Reference definition: the distinct keys of `keys`, in the order of
      their first occurrence. */
  function FirstSeen(keys: seq<string>): seq<string>
    decreases |keys|
  {
    if |keys| == 0 then []
    else
      var init := keys[..|keys| - 1];
      var k := keys[|keys| - 1];
      FirstSeen(init) + (if k in init then [] else [k])
  }

  lemma FirstSeenSnoc(keys: seq<string>, k: string)
    ensures FirstSeen(keys + [k]) == FirstSeen(keys) + (if k in keys then [] else [k])
  {
    assert (keys + [k])[..|keys|] == keys;
  }

  /** Each key has one group, holding exactly its items. */
  ghost predicate GroupsItems(menu: seq<MenuItem>, groups: seq<Group>) {
    NoDuplicates(Keys(groups))
    && (forall k :: k in Keys(groups) <==> k in KeyColumn(menu))
    && (forall i :: 0 <= i < |groups| ==> groups[i].items == ItemsWithKey(menu, groups[i].key))
  }

  ghost predicate Grouped(menu: seq<MenuItem>, groups: seq<Group>) {
    GroupsItems(menu, groups) && Keys(groups) == FirstSeen(KeyColumn(menu))
  }

  /** `groupedMenu`: the groups in the order their keys were first seen,
      which is the order the properties are added to the object. Each key
      of the menu gets exactly one group, holding exactly the items with
      that key, in list order. */
  function GroupMenu(menu: seq<MenuItem>): (groups: seq<Group>)
    ensures Grouped(menu, groups)
    decreases |menu|
  {
    if |menu| == 0 then []
    else
      var init := menu[..|menu| - 1];
      var x := menu[|menu| - 1];
      assert menu == init + [x];
      var g0 := GroupMenu(init);
      GroupStep(init, x, g0);
      AddItem(g0, x)
  }

  lemma GroupStep(init: seq<MenuItem>, x: MenuItem, g0: seq<Group>)
    requires Grouped(init, g0)
    ensures Grouped(init + [x], AddItem(g0, x))
  {
    var k := GroupKey(x);
    assert KeyColumn(init + [x]) == KeyColumn(init) + [k];
    FirstSeenSnoc(KeyColumn(init), k);
    match FindGroup(g0, k)
    case Some(j) =>
      GroupStepExisting(init, x, g0, j);
      KeysOfUpdate(g0, j, Group(k, g0[j].items + [x]));
    case None =>
      GroupStepNew(init, x, g0);
      KeysOfSnoc(g0, Group(k, [x]));
  }

  lemma KeysOfUpdate(g: seq<Group>, j: nat, n: Group)
    requires j < |g| && g[j].key == n.key
    ensures Keys(g[j := n]) == Keys(g)
    ensures n.key in Keys(g)
  {
    assert Keys(g)[j] == n.key;
  }

  lemma KeysOfSnoc(g: seq<Group>, n: Group)
    ensures Keys(g + [n]) == Keys(g) + [n.key]
  {
  }

  lemma ItemsSnoc(init: seq<MenuItem>, x: MenuItem, c: string)
    ensures ItemsWithKey(init + [x], c) == ItemsWithKey(init, c) + (if GroupKey(x) == c then [x] else [])
  {
    FilterSnoc(init, x, HasKey(c));
  }

  lemma GroupStepExisting(init: seq<MenuItem>, x: MenuItem, g0: seq<Group>, j: nat)
    requires GroupsItems(init, g0)
    requires j < |g0| && g0[j].key == GroupKey(x)
    ensures GroupsItems(init + [x], g0[j := Group(GroupKey(x), g0[j].items + [x])])
  {
    var menu := init + [x];
    var k := GroupKey(x);
    var g1 := g0[j := Group(k, g0[j].items + [x])];
    assert forall i :: 0 <= i < |g1| ==> Keys(g1)[i] == Keys(g0)[i];
    assert Keys(g1) == Keys(g0);
    assert KeyColumn(menu) == KeyColumn(init) + [k];
    assert Keys(g0)[j] == k;
    assert NoDuplicates(Keys(g1));
    forall c ensures c in Keys(g1) <==> c in KeyColumn(menu) {
      assert c in KeyColumn(menu) <==> c in KeyColumn(init) || c == k;
    }
    forall i | 0 <= i < |g1| ensures g1[i].items == ItemsWithKey(menu, g1[i].key) {
      ItemsSnoc(init, x, g1[i].key);
      if i != j {
        assert Keys(g0)[i] != Keys(g0)[j];
        assert g1[i] == g0[i];
      }
    }
  }

  lemma GroupStepNew(init: seq<MenuItem>, x: MenuItem, g0: seq<Group>)
    requires GroupsItems(init, g0)
    requires forall i :: 0 <= i < |g0| ==> g0[i].key != GroupKey(x)
    ensures GroupsItems(init + [x], g0 + [Group(GroupKey(x), [x])])
  {
    var menu := init + [x];
    var k := GroupKey(x);
    var g1 := g0 + [Group(k, [x])];
    assert Keys(g1) == Keys(g0) + [k];
    assert KeyColumn(menu) == KeyColumn(init) + [k];
    assert k !in Keys(g0);
    forall i | 0 <= i < |init| ensures GroupKey(init[i]) != k {
      assert KeyColumn(init)[i] in KeyColumn(init);
    }
    FilterNone(init, HasKey(k));
    forall i | 0 <= i < |g1| ensures g1[i].items == ItemsWithKey(menu, g1[i].key) {
      ItemsSnoc(init, x, g1[i].key);
    }
  }

  /** The largest array index. `Object.keys` lists the keys that are array
      indices (the canonical decimal form of an integer from 0 to 2^32 - 2)
      first, in ascending numeric order, and every other key after them in
      the order it was added (OrdinaryOwnPropertyKeys, section 10.1.11.1 of
      ECMA-262). */
  const MaxArrayIndex := 0xFFFF_FFFE

  predicate IsArrayIndex(k: string) {
    && |k| > 0 && Numbers.AllDigits(k) && (|k| == 1 || k[0] != '0')
    && Numbers.DigitsValue(k) <= MaxArrayIndex
  }

  predicate NotArrayIndex(k: string) {
    !IsArrayIndex(k)
  }

  /** The place of every key that is not an array index: after all of them. */
  const OtherKeyRank := MaxArrayIndex + 1

  /** The position class `Object.keys` gives a key: an array index by its
      value, any other key at `OtherKeyRank`. */
  function PropertyRank(k: string): (r: int)
    ensures 0 <= r <= OtherKeyRank
    ensures r == OtherKeyRank <==> NotArrayIndex(k)
  {
    if IsArrayIndex(k) then Numbers.DigitsValue(k) else OtherKeyRank
  }

  /** `Object.keys` of an object whose own keys were added in the order
      `keys`: the same keys, the array indices ahead of every other key and
      in ascending numeric order among themselves. */
  function ObjectKeys(keys: seq<string>): (r: seq<string>)
    ensures multiset(r) == multiset(keys) && |r| == |keys|
    ensures forall i, j :: 0 <= i < j < |r| && IsArrayIndex(r[j]) ==>
      IsArrayIndex(r[i]) && Numbers.DigitsValue(r[i]) <= Numbers.DigitsValue(r[j])
  {
    var r := SortBy(keys, PropertyRank);
    assert forall i, j :: 0 <= i < j < |r| ==> PropertyRank(r[i]) <= PropertyRank(r[j]);
    r
  }

  /** The keys that are not array indices come out in insertion order. */
  lemma ObjectKeysKeepOtherKeysInOrder(keys: seq<string>)
    ensures Filter(ObjectKeys(keys), NotArrayIndex) == Filter(keys, NotArrayIndex)
  {
    SortByIsStable(keys, PropertyRank, OtherKeyRank);
    OtherKeysAreOneRank(keys);
    OtherKeysAreOneRank(ObjectKeys(keys));
  }

  lemma {:induction false} OtherKeysAreOneRank(keys: seq<string>)
    ensures WithKey(keys, PropertyRank, OtherKeyRank) == Filter(keys, NotArrayIndex)
    decreases |keys|
  {
    if |keys| > 0 {
      OtherKeysAreOneRank(keys[1..]);
    }
  }

  /** `categoryOrder.indexOf(key)` */
  function IndexOf(s: seq<string>, key: string): (r: int)
    ensures -1 <= r < |s|
    ensures r == -1 <==> key !in s
    ensures r >= 0 ==> s[r] == key && forall j :: 0 <= j < r ==> s[j] != key
  {
    if |s| == 0 then -1
    else if s[0] == key then 0
    else
      var i := IndexOf(s[1..], key);
      if i == -1 then -1 else i + 1
  }

  /** The sort key: the position in `CategoryOrder`, or `Unranked`. */
  function CategoryRank(key: string): (r: int)
    ensures 0 <= r <= Unranked
    ensures r < Unranked <==> key in CategoryOrder
    ensures r < Unranked ==> CategoryOrder[r] == key
  {
    var i := IndexOf(CategoryOrder, key);
    if i == -1 then Unranked else i
  }

  /** The comparator passed to `sort`. */
  function Compare(a: string, b: string): int {
    var ia := IndexOf(CategoryOrder, a);
    var ib := IndexOf(CategoryOrder, b);
    if ia == -1 && ib == -1 then 0
    else if ia == -1 then 1
    else if ib == -1 then -1
    else ia - ib
  }

  /** The comparator has the sign of the rank difference, so sorting with it
      and sorting stably by rank give the same order. */
  lemma CompareFollowsRank(a: string, b: string)
    ensures Compare(a, b) < 0 <==> CategoryRank(a) < CategoryRank(b)
    ensures Compare(a, b) == 0 <==> CategoryRank(a) == CategoryRank(b)
  {
  }

  /** `categories`: the keys of `groupedMenu` as `Object.keys` lists them,
      sorted stably by rank: known keys first in their fixed order, unknown
      keys after them. */
  function Categories(menu: seq<MenuItem>): (r: seq<string>)
    ensures NoDuplicates(r)
    ensures forall k :: k in r <==> k in KeyColumn(menu)
    ensures forall i, j :: 0 <= i < |r| && 0 <= j < |r| && r[i] in CategoryOrder && r[j] !in CategoryOrder ==> i < j
    ensures forall i, j :: 0 <= i < j < |r| && r[j] in CategoryOrder ==> CategoryRank(r[i]) < CategoryRank(r[j])
  {
    var groupKeys := Keys(GroupMenu(menu));
    var keys := ObjectKeys(groupKeys);
    var r := SortBy(keys, CategoryRank);
    PermutationKeepsNoDuplicates(groupKeys, keys);
    PermutationKeepsNoDuplicates(keys, r);
    SameMembers(groupKeys, keys);
    SameMembers(keys, r);
    RankedOrder(r);
    r
  }

  lemma SameMembers(keys: seq<string>, r: seq<string>)
    requires multiset(r) == multiset(keys)
    ensures forall k :: k in r <==> k in keys
  {
    forall k ensures k in r <==> k in keys {
      assert k in r <==> k in multiset(r);
    }
  }

  /** A list of distinct keys sorted by rank puts the known keys first, in
      the fixed order. */
  lemma RankedOrder(r: seq<string>)
    requires SortedBy(r, CategoryRank) && NoDuplicates(r)
    ensures forall i, j :: 0 <= i < |r| && 0 <= j < |r| && r[i] in CategoryOrder && r[j] !in CategoryOrder ==> i < j
    ensures forall i, j :: 0 <= i < j < |r| && r[j] in CategoryOrder ==> CategoryRank(r[i]) < CategoryRank(r[j])
  {
    forall i, j | 0 <= i < |r| && 0 <= j < |r| && r[i] in CategoryOrder && r[j] !in CategoryOrder
      ensures i < j
    {
      assert CategoryRank(r[i]) < Unranked == CategoryRank(r[j]);
    }
    forall i, j | 0 <= i < j < |r| && r[j] in CategoryOrder
      ensures CategoryRank(r[i]) < CategoryRank(r[j])
    {
      assert CategoryRank(r[i]) <= CategoryRank(r[j]);
      assert r[i] != r[j];
    }
  }

  /** Keys outside the fixed order keep the order `Object.keys` gives the
      keys in the order the menu first shows them. */
  lemma UnknownKeysKeepObjectKeysOrder(menu: seq<MenuItem>)
    ensures WithKey(Categories(menu), CategoryRank, Unranked)
         == WithKey(ObjectKeys(FirstSeen(KeyColumn(menu))), CategoryRank, Unranked)
  {
    SortByIsStable(ObjectKeys(Keys(GroupMenu(menu))), CategoryRank, Unranked);
  }

  /** Among the unknown keys, those that are not array indices keep the
      order in which the menu first shows them. */
  lemma UnknownOtherKeysKeepFirstSeenOrder(menu: seq<MenuItem>)
    ensures Filter(WithKey(Categories(menu), CategoryRank, Unranked), NotArrayIndex)
         == Filter(WithKey(FirstSeen(KeyColumn(menu)), CategoryRank, Unranked), NotArrayIndex)
  {
    var seen := FirstSeen(KeyColumn(menu));
    UnknownKeysKeepObjectKeysOrder(menu);
    FilterWithKeyCommute(ObjectKeys(seen), NotArrayIndex, CategoryRank, Unranked);
    ObjectKeysKeepOtherKeysInOrder(seen);
    FilterWithKeyCommute(seen, NotArrayIndex, CategoryRank, Unranked);
  }

  /** Selecting by a key and selecting by a predicate can be done in
      either order. */
  lemma {:induction false} FilterWithKeyCommute<T(!new)>(s: seq<T>, p: T -> bool, key: T -> int, k: int)
    ensures Filter(WithKey(s, key, k), p) == WithKey(Filter(s, p), key, k)
    decreases |s|
  {
    if |s| > 0 {
      var x, t := s[0], s[1..];
      assert s == [x] + t;
      FilterWithKeyCommute(t, p, key, k);
      var w, f := WithKey(t, key, k), Filter(t, p);
      WithKeyCons(x, t, key, k);
      FilterCons(x, t, p);
      if key(x) == k {
        assert WithKey(s, key, k) == [x] + w;
        FilterCons(x, w, p);
      } else {
        assert WithKey(s, key, k) == w;
      }
      if p(x) {
        assert Filter(s, p) == [x] + f;
        WithKeyCons(x, f, key, k);
      } else {
        assert Filter(s, p) == f;
      }
    }
  }

  /** An example: with the key "kofe" seen before the key "2024", the page
      still shows the section "2024" first, because "2024" is an array
      index. */
  lemma ArrayIndexKeyListedFirst(a: MenuItem, b: MenuItem)
    requires a.category == "kofe" && b.category == "2024"
    ensures FirstSeen(KeyColumn([a, b])) == ["kofe", "2024"]
    ensures Categories([a, b]) == ["2024", "kofe"]
  {
    ExampleKeys(a, b);
    ExampleOrder();
    assert Categories([a, b]) == SortBy(ObjectKeys(Keys(GroupMenu([a, b]))), CategoryRank);
  }

  lemma ExampleKeys(a: MenuItem, b: MenuItem)
    requires a.category == "kofe" && b.category == "2024"
    ensures FirstSeen(KeyColumn([a, b])) == ["kofe", "2024"]
    ensures Keys(GroupMenu([a, b])) == ["kofe", "2024"]
  {
    assert KeyColumn([a, b]) == ["kofe", "2024"];
    FirstSeenSnoc([], "kofe");
    FirstSeenSnoc(["kofe"], "2024");
    assert [] + ["kofe"] == ["kofe"] && ["kofe"] + ["2024"] == ["kofe", "2024"];
  }

  lemma ExampleOrder()
    ensures ObjectKeys(["kofe", "2024"]) == ["2024", "kofe"]
    ensures SortBy(["2024", "kofe"], CategoryRank) == ["2024", "kofe"]
  {
    RanksOfExample();
    SortTwo("kofe", "2024", PropertyRank);
    SortTwo("2024", "kofe", CategoryRank);
  }

  lemma RanksOfExample()
    ensures PropertyRank("2024") == 2024 && PropertyRank("kofe") == OtherKeyRank
    ensures CategoryRank("2024") == Unranked && CategoryRank("kofe") == Unranked
  {
    assert Numbers.DigitsValue("2024") == 2024 by {
      assert "2024"[..3] == "202" && "202"[..2] == "20" && "20"[..1] == "2" && "2"[..0] == "";
    }
    assert IsArrayIndex("2024");
    assert !Numbers.IsDigit("kofe"[0]);
    assert "2024" !in CategoryOrder && "kofe" !in CategoryOrder;
  }

  /** `categoryNames[category] || category` */
  function Heading(key: string): (h: string)
    ensures key in CategoryOrder ==> h == CategoryName(key).value && h != key
    ensures key !in CategoryOrder ==> h == key
  {
    match CategoryName(key)
    case Some(name) => name
    case None => key
  }

  /** `groupedMenu[category]?.map(...)`: a missing group shows nothing. */
  function GroupItems(groups: seq<Group>, key: string): seq<MenuItem> {
    match FindGroup(groups, key)
    case Some(i) => groups[i].items
    case None => []
  }

  datatype Section = Section(key: string, heading: string, items: seq<MenuItem>)

  /** The rendered page: one section per category, in `Categories` order. */
  function MenuPage(menu: seq<MenuItem>): (page: seq<Section>)
    ensures |page| == |Categories(menu)|
    ensures forall i :: 0 <= i < |page| ==>
      page[i].key == Categories(menu)[i]
      && page[i].heading == Heading(page[i].key)
      && page[i].items == ItemsWithKey(menu, page[i].key)
  {
    var groups := GroupMenu(menu);
    var cats := Categories(menu);
    assert forall i :: 0 <= i < |cats| ==> GroupItems(groups, cats[i]) == ItemsWithKey(menu, cats[i]) by {
      forall i | 0 <= i < |cats| ensures GroupItems(groups, cats[i]) == ItemsWithKey(menu, cats[i]) {
        assert cats[i] in KeyColumn(menu);
        GroupItemsOfKey(menu, cats[i]);
      }
    }
    seq(|cats|, i requires 0 <= i < |cats| => Section(cats[i], Heading(cats[i]), GroupItems(groups, cats[i])))
  }

  /** The group the page looks up for a key the menu uses holds exactly
      that key's items. */
  lemma GroupItemsOfKey(menu: seq<MenuItem>, k: string)
    requires k in KeyColumn(menu)
    ensures GroupItems(GroupMenu(menu), k) == ItemsWithKey(menu, k)
  {
    var groups := GroupMenu(menu);
    assert k in Keys(groups);
    var j :| 0 <= j < |groups| && Keys(groups)[j] == k;
    assert groups[j].key == k;
    var found := FindGroup(groups, k);
    assert found.Some?;
    assert groups[found.value].items == ItemsWithKey(menu, groups[found.value].key);
  }

  /** Every item of the menu shows in exactly one section. */
  lemma EveryItemShownOnce(menu: seq<MenuItem>, x: MenuItem)
    requires x in menu
    ensures exists i :: 0 <= i < |MenuPage(menu)| && x in MenuPage(menu)[i].items
    ensures forall i, j ::
      (0 <= i < |MenuPage(menu)| && 0 <= j < |MenuPage(menu)| && x in MenuPage(menu)[i].items && x in MenuPage(menu)[j].items) ==> i == j
  {
    var page := MenuPage(menu);
    var i := SectionWithItem(menu, x);
    forall a, b | 0 <= a < |page| && 0 <= b < |page| && x in page[a].items && x in page[b].items
      ensures a == b
    {
      SectionOfItem(menu, x, a);
      SectionOfItem(menu, x, b);
    }
  }

  /** The section of an item's own key lists the item. */
  lemma SectionWithItem(menu: seq<MenuItem>, x: MenuItem) returns (i: nat)
    requires x in menu
    ensures i < |MenuPage(menu)| && x in MenuPage(menu)[i].items
  {
    var cats := Categories(menu);
    var k := GroupKey(x);
    var n :| 0 <= n < |menu| && menu[n] == x;
    assert KeyColumn(menu)[n] == k;
    assert k in cats;
    i :| 0 <= i < |cats| && cats[i] == k;
    assert MenuPage(menu)[i].items == Filter(menu, HasKey(k));
  }

  /** An item shows only in the section of its own key. */
  lemma SectionOfItem(menu: seq<MenuItem>, x: MenuItem, a: int)
    requires 0 <= a < |MenuPage(menu)| && x in MenuPage(menu)[a].items
    ensures Categories(menu)[a] == GroupKey(x)
  {
    var k := Categories(menu)[a];
    assert MenuPage(menu)[a].items == Filter(menu, HasKey(k));
    assert HasKey(k)(x);
  }

  /** The names `Object.prototype` defines: on a plain `{}` each of them
      reads as an inherited, truthy value (a function, or the prototype
      itself for `__proto__`). */
  const ObjectPrototypeKeys: set<string> := {
    "constructor", "__proto__", "__defineGetter__", "__defineSetter__",
    "__lookupGetter__", "__lookupSetter__", "hasOwnProperty", "isPrototypeOf",
    "propertyIsEnumerable", "toString", "toLocaleString", "valueOf"}

  /** The item's key is one a plain `{}` already has. */
  predicate Inherited(x: MenuItem) {
    GroupKey(x) in ObjectPrototypeKeys
  }

  /** A key the items of `menu` use that a plain `{}` already has. */
  predicate HasInheritedKey(menu: seq<MenuItem>) {
    exists i :: 0 <= i < |menu| && Inherited(menu[i])
  }

  /** The `reduce` as written, over a plain `{}`: for an inherited key
      `!acc[category]` is false, so no array is created, and
      `acc[category].push(item)` throws a TypeError (None). When it does not
      throw it builds the same groups as `GroupMenu`. */
  function GroupMenuAsWritten(menu: seq<MenuItem>): (r: Option<seq<Group>>)
    ensures r.Some? ==> r.value == GroupMenu(menu)
    decreases |menu|
  {
    if |menu| == 0 then Some([])
    else
      var init := menu[..|menu| - 1];
      var x := menu[|menu| - 1];
      match GroupMenuAsWritten(init)
      case None => None
      case Some(g0) =>
        if Inherited(x) then None
        else
          assert GroupMenu(menu) == AddItem(GroupMenu(init), x);
          Some(AddItem(g0, x))
  }

  /** The reduce throws exactly when some item's key is inherited. */
  lemma {:induction false} AsWrittenThrowsIff(menu: seq<MenuItem>)
    ensures GroupMenuAsWritten(menu).None? <==> HasInheritedKey(menu)
    decreases |menu|
  {
    if |menu| > 0 {
      AsWrittenThrowsIff(menu[..|menu| - 1]);
      AsWrittenUnfold(menu);
      InheritedLast(menu);
    }
  }

  lemma AsWrittenUnfold(menu: seq<MenuItem>)
    requires |menu| > 0
    ensures GroupMenuAsWritten(menu).None? <==>
      GroupMenuAsWritten(menu[..|menu| - 1]).None? || Inherited(menu[|menu| - 1])
  {
  }

  lemma InheritedLast(menu: seq<MenuItem>)
    requires |menu| > 0
    ensures HasInheritedKey(menu) <==>
      HasInheritedKey(menu[..|menu| - 1]) || Inherited(menu[|menu| - 1])
  {
    var init := menu[..|menu| - 1];
    if HasInheritedKey(init) {
      var i :| 0 <= i < |init| && Inherited(init[i]);
      assert menu[i] == init[i];
    }
    if HasInheritedKey(menu) {
      var i :| 0 <= i < |menu| && Inherited(menu[i]);
      if i < |init| {
        assert init[i] == menu[i];
      }
    }
  }

  /** An admin who types "constructor" as the category gets that very key
      stored. */
  lemma ConstructorIsStoredAsIs()
    ensures Translit.Transliterate("constructor") == "constructor"
  {
    assert Translit.IsKey("constructor");
    Translit.KeyIsFixedPoint("constructor");
  }

  /** A menu holding an item with category "constructor" fails to render,
      where the grouping with own keys files the item normally. */
  lemma ConstructorCategoryBreaksMenu(item: MenuItem)
    requires item.category == "constructor"
    ensures GroupMenuAsWritten([item]) == None
    ensures GroupMenu([item]) == [Group("constructor", [item])]
  {
    assert [item][..0] == [];
    assert GroupMenu([]) == [];
    assert GroupKey(item) == "constructor";
  }
}
