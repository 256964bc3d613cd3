/** The news admin page's list logic: the search filter, the form check and
    select-all. */
module AdminNews {
  import opened Basics
  import opened ClientTypes

  /** The search matches an item when the lowercased term occurs in its
      lowercased title, description or preview (the last two when present). */
  predicate SearchMatches(item: NewsItem, term: string) {
    var t := Lower(term);
    Contains(Lower(item.title), t)
    || (item.description.Some? && Contains(Lower(item.description.value), t))
    || (item.preview.Some? && Contains(Lower(item.preview.value), t))
  }

  /** `filterNews()`: the identity for an empty term; otherwise the matching
      items, in order. */
  function FilterNews(news: seq<NewsItem>, searchTerm: string): (r: seq<NewsItem>)
    ensures searchTerm == "" ==> r == news
    ensures IsSubsequence(r, news)
    ensures forall x :: x in r <==> x in news && (searchTerm == "" || SearchMatches(x, searchTerm))
  {
    if searchTerm == "" then
      SubsequenceReflexive(news);
      news
    else Filter(news, (x: NewsItem) => SearchMatches(x, searchTerm))
  }

  /** Case does not matter to the search, for the letters `Lower` folds. */
  lemma SearchIgnoresTermCase(item: NewsItem, term: string)
    ensures SearchMatches(item, Lower(term)) <==> SearchMatches(item, term)
  {
    assert Lower(Lower(term)) == Lower(term) by {
      forall i | 0 <= i < |term| ensures LowerChar(LowerChar(term[i])) == LowerChar(term[i]) {
        LowerCharIdempotent(term[i]);
      }
    }
  }

  lemma LowerCharIdempotent(c: char)
    ensures LowerChar(LowerChar(c)) == LowerChar(c)
  {
  }

  /** The form state; `postedAt` is the text of the date-time input. */
  datatype NewsForm = NewsForm(
    title: string,
    preview: string,
    description: string,
    imageCount: nat,
    postedAt: string)

  /** `validateForm()`. The description is checked twice and the later
      check wins: a description over 250 characters reports "too long"
      even when it is also blank. */
  function ValidateForm(form: NewsForm): (errors: map<string, string>)
    ensures "title" in errors <==> IsBlank(form.title)
    ensures "description" in errors <==> IsBlank(form.description) || |form.description| > 250
    ensures "preview" in errors <==> |form.preview| > 50
    ensures errors.Keys <= {"title", "description", "preview"}
    ensures "title" in errors ==> errors["title"] == "Title is required"
    ensures "preview" in errors ==> errors["preview"] == "Preview too long"
    ensures "description" in errors ==>
      errors["description"] == if |form.description| > 250 then "Description too long" else "Description is required"
  {
    TrimEmptyIff(form.title);
    TrimEmptyIff(form.description);
    var e0: map<string, string> := map[];
    var e1 := if Trim(form.title) == "" then e0["title" := "Title is required"] else e0;
    var e2 := if Trim(form.description) == "" then e1["description" := "Description is required"] else e1;
    var e3 := if |form.preview| > 50 then e2["preview" := "Preview too long"] else e2;
    if |form.description| > 250 then e3["description" := "Description too long"] else e3
  }

  /** The form passes exactly when title and description are not blank, the
      preview has at most 50 characters and the description at most 250. */
  lemma ValidIff(form: NewsForm)
    ensures ValidateForm(form) == map[] <==>
      !IsBlank(form.title) && !IsBlank(form.description) && |form.preview| <= 50 && |form.description| <= 250
  {
    var e := ValidateForm(form);
    if e != map[] {
      var k :| k in e;
    }
  }

  /** A description of 251 spaces is both blank and too long; the message
      shown is the length one. */
  lemma TooLongOverridesRequired()
    ensures var d := seq(251, i => ' ');
      ValidateForm(NewsForm("t", "", d, 0, ""))["description"] == "Description too long"
  {
    var d := seq(251, i => ' ');
    assert IsBlank(d) by {
      forall i | 0 <= i < |d| ensures IsWhitespace(d[i]) {
      }
    }
  }
}
