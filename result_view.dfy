/**
 * What the page shows for a filtered list: a "no results" message when the
 * list is empty, otherwise one row per record, in order, with the record's
 * product, its user and whether its id is in the liked set.
 */
module ResultView {
  import opened Text
  import opened Records
  import opened JoinIndex
  import opened FilterEngine
  import opened Selection

  datatype Row = Row(product: Product, user: Option<User>, liked: bool)

  datatype Screen = EmptyState | Rows(rows: seq<Row>)

  /** The branch at `filteredProducts.length === 0` and the rows of the other branch. */
  function Render(view: seq<ProductWithUser>, liked: set<int>): (s: Screen)
    ensures s.EmptyState? <==> |view| == 0
    ensures s.Rows? ==> |s.rows| == |view| && forall i :: 0 <= i < |view| ==>
      s.rows[i] == Row(view[i].product, view[i].user, view[i].product.id in liked)
  {
    if |view| == 0 then EmptyState
    else Rows(seq(|view|, i requires 0 <= i < |view| =>
                    Row(view[i].product, view[i].user, view[i].product.id in liked)))
  }

  /**
   * The empty state is shown exactly when nothing survives the filter: for a
   * blank query when there are no products, otherwise when no product
   * satisfies the search predicate.
   */
  lemma {:induction false} EmptyStateExactlyWhenNoMatch(products: seq<Product>, userMap: map<int, User>, query: string, liked: set<int>)
    ensures Render(FilterProducts(products, userMap, query), liked).EmptyState? <==>
      if AllSpace(query) then products == []
      else forall i :: 0 <= i < |products| ==>
        !Matches(products[i], Lookup(userMap, products[i].id), Normalize(query))
  {
    if !AllSpace(query) {
      var kw := Normalize(query);
      SelectIsOrderedSubsequence(userMap, products, kw);
      var idx := MatchIndices(userMap, products, kw);
      if idx != [] {
        assert idx[0] in idx;
      }
    }
  }

  /**
   * Each row shows its own record's liked state: after toggling `id`, the
   * rows of products with that id flip and every other row stays as it was.
   */
  lemma {:induction false} ToggleFlipsOnlyItsRows(view: seq<ProductWithUser>, liked: set<int>, id: int)
    requires |view| > 0
    ensures var before, after := Render(view, liked), Render(view, Toggled(liked, id));
      && before.Rows? && after.Rows? && |before.rows| == |after.rows| == |view|
      && forall i :: 0 <= i < |view| ==>
        && after.rows[i].product == before.rows[i].product == view[i].product
        && after.rows[i].user == before.rows[i].user == view[i].user
        && (after.rows[i].liked <==> (if view[i].product.id == id then !before.rows[i].liked
                                      else before.rows[i].liked))
  {
  }

  /**
   * One product "Red Shirt" with id 1 and one user Ann Lee with id 1: the
   * query "ann" finds the shirt through its user.
   */
  lemma {:induction false} AnnFindsRedShirt()
    ensures var shirt := Product(1, "Red Shirt", "", 0.0, "", []);
      var ann := User(1, "Ann", "Lee");
      FilterProducts([shirt], UserMapOf([ann]), "ann") == [ProductWithUser(shirt, Some(ann))]
  {
    var shirt := Product(1, "Red Shirt", "", 0.0, "", []);
    var ann := User(1, "Ann", "Lee");
    var userMap := UserMapOf([ann]);
    NormalizeLowercaseWord("ann");
    assert Lower("Ann") == "ann";
    assert OccursAt(Lower("Ann"), "ann", 0);
    assert Matches(shirt, Lookup(userMap, 1), "ann");
    assert Select(userMap, [shirt], "ann") == [shirt];
  }

  /** "blue" is its own keyword, and it occurs in none of the shirt's or Ann Lee's texts. */
  lemma {:induction false} BlueMatchesNeither()
    ensures !AllSpace("blue") && Normalize("blue") == "blue"
    ensures !Matches(Product(1, "Red Shirt", "", 0.0, "", []), Some(User(1, "Ann", "Lee")), "blue")
  {
    var shirt := Product(1, "Red Shirt", "", 0.0, "", []);
    var ann := User(1, "Ann", "Lee");
    NormalizeLowercaseWord("blue");
    assert !IsSpace("blue"[0]);
    LowerLacksLetter(shirt.title, 'b');
    LowerLacksLetter(shirt.description, 'b');
    LowerLacksLetter(ann.firstName, 'b');
    LowerLacksLetter(ann.lastName, 'b');
    FirstLetterAbsent(Lower(shirt.title), "blue");
    FirstLetterAbsent(Lower(shirt.description), "blue");
    FirstLetterAbsent(Lower(ann.firstName), "blue");
    FirstLetterAbsent(Lower(ann.lastName), "blue");
  }

  /** With the same data, the query "blue" finds nothing and the empty state is shown. */
  lemma {:induction false} BlueFindsNothing()
    ensures var shirt := Product(1, "Red Shirt", "", 0.0, "", []);
      var ann := User(1, "Ann", "Lee");
      Render(FilterProducts([shirt], UserMapOf([ann]), "blue"), {}) == EmptyState
  {
    var shirt := Product(1, "Red Shirt", "", 0.0, "", []);
    var ann := User(1, "Ann", "Lee");
    var userMap := UserMapOf([ann]);
    BlueMatchesNeither();
    assert Lookup(userMap, shirt.id) == Some(ann);
    EmptyStateExactlyWhenNoMatch([shirt], userMap, "blue", {});
  }
}
