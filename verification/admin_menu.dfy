/** The menu admin page's list logic: the search and category filter, the
    form check, the category choices and select-all. */
module AdminMenu {
  import opened Basics
  import opened ClientTypes

  /** The search matches an item when the lowercased term occurs in its
      lowercased title, description (when it has one) or category. */
  predicate SearchMatches(item: MenuItem, term: string) {
    var t := Lower(term);
    Contains(Lower(item.title), t)
    || (item.description.Some? && Contains(Lower(item.description.value), t))
    || Contains(Lower(item.category), t)
  }

  /** `filterMenu()`: an empty search term or category filters nothing. */
  function FilterMenu(menu: seq<MenuItem>, searchTerm: string, selectedCategory: string): (r: seq<MenuItem>)
    ensures IsSubsequence(r, menu)
    ensures forall x :: x in r <==>
      x in menu
      && (searchTerm == "" || SearchMatches(x, searchTerm))
      && (selectedCategory == "" || x.category == selectedCategory)
    ensures selectedCategory != "" ==> forall i :: 0 <= i < |r| ==> r[i].category == selectedCategory
  {
    var bySearch := if searchTerm == "" then menu else Filter(menu, (x: MenuItem) => SearchMatches(x, searchTerm));
    var r := if selectedCategory == "" then bySearch else Filter(bySearch, (x: MenuItem) => x.category == selectedCategory);
    SubsequenceReflexive(menu);
    SubsequenceReflexive(bySearch);
    SubsequenceTransitive(r, bySearch, menu);
    assert forall i :: 0 <= i < |r| ==> r[i] in r;
    r
  }

  /** With neither a search term nor a category, the list is shown unchanged. */
  lemma FilterMenuIdentity(menu: seq<MenuItem>)
    ensures FilterMenu(menu, "", "") == menu
  {
  }

  /** The form state. The price is the number `parseFloat` read (0 when it
      read nothing). */
  datatype MenuForm = MenuForm(
    title: string,
    price: real,
    imageCount: nat,
    calories: int,
    description: string,
    category: string)

  /** `validateForm()`: the error message for each field that fails. */
  function ValidateForm(form: MenuForm): (errors: map<string, string>)
    ensures "title" in errors <==> IsBlank(form.title)
    ensures "price" in errors <==> form.price <= 0.0
    ensures "category" in errors <==> IsBlank(form.category)
    ensures "description" in errors <==> |form.description| > 250
    ensures errors.Keys <= {"title", "price", "category", "description"}
    ensures "title" in errors ==> errors["title"] == "Title is required"
    ensures "price" in errors ==> errors["price"] == "Price must be greater than 0"
    ensures "category" in errors ==> errors["category"] == "Category is required"
    ensures "description" in errors ==> errors["description"] == "Description too long"
  {
    TrimEmptyIff(form.title);
    TrimEmptyIff(form.category);
    var e0: map<string, string> := map[];
    var e1 := if Trim(form.title) == "" then e0["title" := "Title is required"] else e0;
    var e2 := if form.price <= 0.0 then e1["price" := "Price must be greater than 0"] else e1;
    var e3 := if Trim(form.category) == "" then e2["category" := "Category is required"] else e2;
    if |form.description| > 250 then e3["description" := "Description too long"] else e3
  }

  /** The form passes exactly when the title and category are not blank,
      the price is positive and the description has at most 250 characters. */
  lemma ValidIff(form: MenuForm)
    ensures ValidateForm(form) == map[] <==>
      !IsBlank(form.title) && form.price > 0.0 && !IsBlank(form.category) && |form.description| <= 250
  {
    var e := ValidateForm(form);
    if e != map[] {
      var k :| k in e;
    }
  }

  /** `[...new Set(menu.map(item => item.category).filter(Boolean))]`: the
      non-empty categories, each once, in the order the set first saw them. */
  function Categories(menu: seq<MenuItem>): (r: seq<string>)
    ensures NoDuplicates(r)
    ensures "" !in r
    ensures forall c :: c in r <==> c != "" && exists i :: 0 <= i < |menu| && menu[i].category == c
    decreases |menu|
  {
    if |menu| == 0 then []
    else
      var init := Categories(menu[..|menu| - 1]);
      var c := menu[|menu| - 1].category;
      assert forall i :: 0 <= i < |menu| - 1 ==> menu[..|menu| - 1][i] == menu[i];
      if c == "" || c in init then init else init + [c]
  }

  /** Reference definition: the categories at the positions where a
      non-empty category occurs for the first time. */
  function FirstOccurrences(cats: seq<string>): seq<string>
    decreases |cats|
  {
    if |cats| == 0 then []
    else
      var c := cats[|cats| - 1];
      FirstOccurrences(cats[..|cats| - 1]) + (if c != "" && c !in cats[..|cats| - 1] then [c] else [])
  }

  function CategoryColumn(menu: seq<MenuItem>): (r: seq<string>)
    ensures |r| == |menu| && forall i :: 0 <= i < |menu| ==> r[i] == menu[i].category
  {
    seq(|menu|, i requires 0 <= i < |menu| => menu[i].category)
  }

  /** The category choices follow first-occurrence order. */
  lemma {:induction false} CategoriesInFirstOccurrenceOrder(menu: seq<MenuItem>)
    ensures Categories(menu) == FirstOccurrences(CategoryColumn(menu))
    decreases |menu|
  {
    if |menu| > 0 {
      var init := menu[..|menu| - 1];
      CategoriesInFirstOccurrenceOrder(init);
      var cats := CategoryColumn(menu);
      assert cats[..|cats| - 1] == CategoryColumn(init);
      var c := menu[|menu| - 1].category;
      assert c in Categories(init) <==> c != "" && c in CategoryColumn(init) by {
        if c != "" && c in CategoryColumn(init) {
          var i :| 0 <= i < |init| && CategoryColumn(init)[i] == c;
          assert init[i].category == c;
        }
        if c in Categories(init) {
          var i :| 0 <= i < |init| && init[i].category == c;
          assert CategoryColumn(init)[i] == c;
        }
      }
    }
  }
}
