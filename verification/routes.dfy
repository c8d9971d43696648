/**
 * The decisions of the `category` and `search` views: how a category name
 * from the URL is normalised and whether the page redirects, shows the
 * error page or renders, and the empty-query short cut of search.
 */
module Routes {

  import opened Wrappers
  import opened Text

  const ValidCategories: seq<string> :=
    ["technology", "business", "sports", "science", "health", "entertainment"]

  /** What the category view answers. */
  datatype CategoryPage =
    | Redirect(target: string)
    | InvalidCategory
    | Render(category: string, cacheKey: string)

  /** `category(category_name)`: lower-case, dashes to underscores, then
      redirect when the dashed form of that is a valid category and differs
      from the name as given; otherwise error unless the lower-cased name is
      valid. */
  function CategoryRoute(name: string): (p: CategoryPage)
    ensures p.Redirect? ==> p.target in ValidCategories
    ensures p.Render? ==> p.category in ValidCategories && p.cacheKey == "category_" + p.category
  {
    var lower := Lower(name);
    var normalized := ReplaceChar(lower, '-', '_');
    var dashed := ReplaceChar(normalized, '_', '-');
    if name != normalized && dashed in ValidCategories then Redirect(dashed)
    else if lower !in ValidCategories then InvalidCategory
    else Render(lower, "category_" + lower)
  }

  /** Category names are lower-case letters only. */
  lemma ValidAreLetters(v: string)
    requires v in ValidCategories
    ensures forall i :: 0 <= i < |v| ==> 'a' <= v[i] <= 'z'
  {
  }

  /** Lower-casing a name that contains no dash or underscore and then
      mapping dashes and underscores back and forth changes nothing. */
  lemma DashedIsLower(name: string)
    requires ReplaceChar(ReplaceChar(Lower(name), '-', '_'), '_', '-') in ValidCategories
           || Lower(name) in ValidCategories
    ensures ReplaceChar(Lower(name), '-', '_') == Lower(name)
    ensures ReplaceChar(ReplaceChar(Lower(name), '-', '_'), '_', '-') == Lower(name)
  {
    var lower := Lower(name);
    var normalized := ReplaceChar(lower, '-', '_');
    var dashed := ReplaceChar(normalized, '_', '-');
    if dashed in ValidCategories {
      ValidAreLetters(dashed);
      forall i | 0 <= i < |lower|
        ensures lower[i] != '-' && lower[i] != '_'
      {
        assert 'a' <= dashed[i] <= 'z';
      }
    } else {
      ValidAreLetters(lower);
    }
    assert normalized == lower;
    assert dashed == lower;
  }

  /** A valid category name is its own lower-case form. */
  lemma ValidIsLower(v: string)
    requires v in ValidCategories
    ensures Lower(v) == v
  {
    ValidAreLetters(v);
  }

  /** Exactly one of three outcomes, decided by the name alone: a valid
      name renders under itself, a name whose lower-case form is valid
      redirects to that form, and any other name is an error. */
  lemma {:induction false} CategoryDecision(name: string)
    ensures CategoryRoute(name).Render? <==> name in ValidCategories
    ensures CategoryRoute(name).Render? ==> CategoryRoute(name).category == name
    ensures CategoryRoute(name).Redirect? <==> name !in ValidCategories && Lower(name) in ValidCategories
    ensures CategoryRoute(name).Redirect? ==> CategoryRoute(name).target == Lower(name)
    ensures CategoryRoute(name).InvalidCategory? <==> Lower(name) !in ValidCategories
  {
    var lower := Lower(name);
    var dashed := ReplaceChar(ReplaceChar(lower, '-', '_'), '_', '-');
    if dashed in ValidCategories || lower in ValidCategories {
      DashedIsLower(name);
    }
    if name in ValidCategories {
      ValidIsLower(name);
    }
  }

  /** Following a redirect lands on a rendered page: there are no redirect
      chains or loops. */
  lemma RedirectSettles(name: string)
    requires CategoryRoute(name).Redirect?
    ensures CategoryRoute(CategoryRoute(name).target).Render?
  {
    CategoryDecision(name);
    CategoryDecision(CategoryRoute(name).target);
  }

  /** What the search view does with the `q` argument. */
  datatype SearchPage =
    | NoQuery
    | Search(query: string)

  /** `search()`: a missing or empty `q` renders an empty result list with
      no call to the news service; anything else is searched as given. */
  function SearchRoute(q: Option<string>): (p: SearchPage)
    ensures p.NoQuery? <==> q == None || q == Some("")
    ensures p.Search? ==> q == Some(p.query) && p.query != ""
  {
    var query := q.GetOr("");
    if query == "" then NoQuery else Search(query)
  }
}
