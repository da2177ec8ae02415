/**
 * The filter engine behind the search box: normalise the query, keep the
 * products whose title, description or attached user's name contains it,
 * and attach to every kept product the user found under its id.
 */
module FilterEngine {
  import opened Text
  import opened Records
  import opened JoinIndex

  /** `query.trim().toLowerCase()`: the keyword actually searched for. */
  function Normalize(query: string): (kw: string)
    ensures forall i :: 0 <= i < |kw| ==> !IsUpper(kw[i])
    ensures kw == [] || (!IsSpace(kw[0]) && !IsSpace(kw[|kw| - 1]))
    ensures kw == [] <==> AllSpace(query)
  {
    var t := Trim(query);
    assert t == [] <==> AllSpace(query) by {
      var a := TrimOffset(query);
      if t == [] {
        assert forall i :: 0 <= i < |query| ==> IsSpace(query[i]);
      } else {
        assert !IsSpace(query[a]);
      }
    }
    Lower(t)
  }

  /**
   * The search predicate for one product and the user found under its id:
   * the keyword occurs in the lowercased title or description, or the user
   * exists and the keyword occurs in the lowercased first or last name.
   */
  predicate Matches(p: Product, u: Option<User>, kw: string)
    ensures kw == [] ==> Matches(p, u, kw)
  {
    || Contains(Lower(p.title), kw)
    || Contains(Lower(p.description), kw)
    || (u.Some? && (Contains(Lower(u.value.firstName), kw) || Contains(Lower(u.value.lastName), kw)))
  }

  /** `{ ...p, user: userMap.get(p.id) }` */
  function Attach(userMap: map<int, User>, p: Product): (rec: ProductWithUser)
    ensures rec.product == p
    ensures rec.user.Some? <==> p.id in userMap
    ensures rec.user.Some? ==> rec.user.value == userMap[p.id]
  {
    ProductWithUser(p, Lookup(userMap, p.id))
  }

  /** `ps.map(p => ({ ...p, user: userMap.get(p.id) }))` */
  function AttachAll(userMap: map<int, User>, ps: seq<Product>): (r: seq<ProductWithUser>)
    ensures |r| == |ps|
    ensures forall i :: 0 <= i < |ps| ==> r[i].product == ps[i] && r[i].user == Lookup(userMap, ps[i].id)
  {
    seq(|ps|, i requires 0 <= i < |ps| => Attach(userMap, ps[i]))
  }

  /** `ps.filter(p => ...)` with the search predicate for keyword `kw`. */
  function Select(userMap: map<int, User>, ps: seq<Product>, kw: string): (sel: seq<Product>)
    ensures |sel| <= |ps|
  {
    if ps == [] then []
    else
      var last := ps[|ps| - 1];
      Select(userMap, ps[..|ps| - 1], kw)
        + (if Matches(last, Lookup(userMap, last.id), kw) then [last] else [])
  }

  /** The positions in `ps` of the products `Select` keeps, in increasing order. */
  ghost function MatchIndices(userMap: map<int, User>, ps: seq<Product>, kw: string): seq<int>
  {
    if ps == [] then []
    else
      var last := ps[|ps| - 1];
      MatchIndices(userMap, ps[..|ps| - 1], kw)
        + (if Matches(last, Lookup(userMap, last.id), kw) then [|ps| - 1] else [])
  }

  /** The filtered and joined list the page shows for `query`. */
  function FilterProducts(products: seq<Product>, userMap: map<int, User>, query: string): (r: seq<ProductWithUser>)
    ensures |r| <= |products|
    ensures AllSpace(query) ==> |r| == |products|
    ensures forall rec :: rec in r ==> rec.product in products && rec.user == Lookup(userMap, rec.product.id)
  {
    var kw := Normalize(query);
    if kw == [] then AttachAll(userMap, products)
    else
      SelectIsOrderedSubsequence(userMap, products, kw);
      AttachAll(userMap, Select(userMap, products, kw))
  }

  /** The positions in `products` that `FilterProducts` keeps. */
  ghost function KeptIndices(products: seq<Product>, userMap: map<int, User>, query: string): seq<int>
  {
    var kw := Normalize(query);
    if kw == [] then seq(|products|, i => i)
    else MatchIndices(userMap, products, kw)
  }

  /**
   * `r` lists, in order, the products of `ps` at the strictly increasing
   * positions `idx`, each with the user found under its id.
   */
  ghost predicate OrderedJoin(r: seq<ProductWithUser>, ps: seq<Product>, userMap: map<int, User>, idx: seq<int>)
  {
    && |idx| == |r|
    && (forall k :: 0 <= k < |idx| ==> 0 <= idx[k] < |ps| && r[k] == Attach(userMap, ps[idx[k]]))
    && (forall k, l :: 0 <= k < l < |idx| ==> idx[k] < idx[l])
  }

  /** The positions `MatchIndices` lists lie in `ps` and increase strictly. */
  lemma {:induction false} MatchIndicesIncreasing(userMap: map<int, User>, ps: seq<Product>, kw: string)
    ensures forall k :: 0 <= k < |MatchIndices(userMap, ps, kw)| ==> 0 <= MatchIndices(userMap, ps, kw)[k] < |ps|
    ensures forall k, l :: 0 <= k < l < |MatchIndices(userMap, ps, kw)| ==>
      MatchIndices(userMap, ps, kw)[k] < MatchIndices(userMap, ps, kw)[l]
  {
    if ps != [] {
      var init := ps[..|ps| - 1];
      MatchIndicesIncreasing(userMap, init, kw);
      var idx, idx0 := MatchIndices(userMap, ps, kw), MatchIndices(userMap, init, kw);
      assert forall k :: 0 <= k < |idx0| ==> idx[k] == idx0[k];
      assert |idx| > |idx0| ==> idx[|idx0|] == |ps| - 1;
    }
  }

  /** A position is listed by `MatchIndices` exactly when its product satisfies the search predicate. */
  lemma {:induction false} MatchIndicesExact(userMap: map<int, User>, ps: seq<Product>, kw: string)
    ensures forall i :: 0 <= i < |ps| ==>
      (i in MatchIndices(userMap, ps, kw) <==> Matches(ps[i], Lookup(userMap, ps[i].id), kw))
  {
    if ps != [] {
      var init := ps[..|ps| - 1];
      MatchIndicesIncreasing(userMap, init, kw);
      MatchIndicesExact(userMap, init, kw);
      var idx := MatchIndices(userMap, ps, kw);
      var idx0 := MatchIndices(userMap, init, kw);
      forall i | 0 <= i < |ps| ensures i in idx <==> Matches(ps[i], Lookup(userMap, ps[i].id), kw) {
        if i < |ps| - 1 {
          assert ps[i] == init[i];
          assert i in idx <==> i in idx0;
        } else {
          assert forall k :: 0 <= k < |idx0| ==> idx0[k] < i;
        }
      }
    }
  }

  /** `Select` keeps the products at the positions `MatchIndices` lists, in that order. */
  lemma {:induction false} SelectAtMatchIndices(userMap: map<int, User>, ps: seq<Product>, kw: string)
    ensures var sel, idx := Select(userMap, ps, kw), MatchIndices(userMap, ps, kw);
      && |sel| == |idx|
      && (forall k :: 0 <= k < |idx| ==> 0 <= idx[k] < |ps| && sel[k] == ps[idx[k]])
  {
    MatchIndicesIncreasing(userMap, ps, kw);
    if ps != [] {
      var init := ps[..|ps| - 1];
      SelectAtMatchIndices(userMap, init, kw);
      var sel0, idx0 := Select(userMap, init, kw), MatchIndices(userMap, init, kw);
      assert forall k :: 0 <= k < |idx0| ==> ps[idx0[k]] == init[idx0[k]];
    }
  }

  /**
   * `Select` keeps, in their original order, exactly the products at the
   * positions `MatchIndices` lists, and those are exactly the positions whose
   * product satisfies the search predicate.
   */
  lemma {:induction false} SelectIsOrderedSubsequence(userMap: map<int, User>, ps: seq<Product>, kw: string)
    ensures var sel, idx := Select(userMap, ps, kw), MatchIndices(userMap, ps, kw);
      && |sel| == |idx|
      && (forall k :: 0 <= k < |idx| ==> 0 <= idx[k] < |ps| && sel[k] == ps[idx[k]])
      && (forall k, l :: 0 <= k < l < |idx| ==> idx[k] < idx[l])
      && (forall i :: 0 <= i < |ps| ==> (i in idx <==> Matches(ps[i], Lookup(userMap, ps[i].id), kw)))
  {
    MatchIndicesIncreasing(userMap, ps, kw);
    MatchIndicesExact(userMap, ps, kw);
    SelectAtMatchIndices(userMap, ps, kw);
  }

  /** With an empty keyword every product matches, so the filter keeps them all. */
  lemma {:induction false} SelectEmptyKeepsAll(userMap: map<int, User>, ps: seq<Product>)
    ensures Select(userMap, ps, []) == ps
  {
    if ps != [] {
      var last := ps[|ps| - 1];
      SelectEmptyKeepsAll(userMap, ps[..|ps| - 1]);
      assert Matches(last, Lookup(userMap, last.id), []);
      assert ps == ps[..|ps| - 1] + [last];
    }
  }

  // ---------------------------------------------------------------------------
  // Properties of the filtered list

  /**
   * The filtered list is an order-preserving subsequence of the products,
   * each product joined with the user found under its id, and no longer than
   * the product list.
   */
  lemma {:induction false} FilterIsOrderedJoin(products: seq<Product>, userMap: map<int, User>, query: string)
    ensures OrderedJoin(FilterProducts(products, userMap, query), products, userMap,
                        KeptIndices(products, userMap, query))
    ensures |FilterProducts(products, userMap, query)| <= |products|
  {
    var r, idx := FilterProducts(products, userMap, query), KeptIndices(products, userMap, query);
    var kw := Normalize(query);
    if kw != [] {
      SelectIsOrderedSubsequence(userMap, products, kw);
    }
    assert OrderedJoin(r, products, userMap, idx);
    IncreasingIndicesBound(idx, |products|);
  }

  /** Strictly increasing positions below `n` are at most `n` in number. */
  lemma {:induction false} IncreasingIndicesBound(idx: seq<int>, n: nat)
    requires forall k :: 0 <= k < |idx| ==> 0 <= idx[k] < n
    requires forall k, l :: 0 <= k < l < |idx| ==> idx[k] < idx[l]
    ensures |idx| <= n
  {
    if idx != [] {
      var init, last := idx[..|idx| - 1], idx[|idx| - 1];
      assert forall k :: 0 <= k < |init| ==> init[k] == idx[k] && idx[k] < last;
      IncreasingIndicesBound(init, last);
      assert |init| == |idx| - 1 && last < n;
    }
  }

  /**
   * With `userMap` built from `users`, every record is one of the products,
   * and its user is present exactly when some user has the product's id; it
   * is then the last such user.
   */
  lemma {:induction false} FilterAttachesLookedUpUser(products: seq<Product>, userMap: map<int, User>, query: string, users: seq<User>)
    requires userMap == UserMapOf(users)
    ensures forall rec :: rec in FilterProducts(products, userMap, query) ==>
      && rec.product in products
      && (rec.user.Some? <==> rec.product.id in IdsOf(users))
      && (rec.user.Some? ==> rec.user.value == userMap[rec.product.id]
                             && rec.user.value in users && rec.user.value.id == rec.product.id)
      && (forall i :: LastWithId(users, i) && users[i].id == rec.product.id ==> rec.user == Some(users[i]))
  {
    UserMapOfCharacterised(users);
    FilterIsOrderedJoin(products, userMap, query);
  }

  /**
   * A query that trims to nothing shows every product, in order, each with
   * the user found under its id.
   */
  lemma {:induction false} FilterBlankQueryKeepsAll(products: seq<Product>, userMap: map<int, User>, query: string)
    requires AllSpace(query)
    ensures |FilterProducts(products, userMap, query)| == |products|
    ensures forall i :: 0 <= i < |products| ==>
      FilterProducts(products, userMap, query)[i] == Attach(userMap, products[i])
  {
  }

  /**
   * A position of `products` is kept exactly when its product satisfies the
   * search predicate, and a product value appears in the result exactly when
   * it is one of the products and satisfies it. For a blank query the
   * keyword is empty and every product satisfies the predicate.
   */
  lemma {:induction false} FilterKeepsExactlyMatches(products: seq<Product>, userMap: map<int, User>, query: string)
    ensures forall i :: 0 <= i < |products| ==>
      (i in KeptIndices(products, userMap, query) <==>
       Matches(products[i], Lookup(userMap, products[i].id), Normalize(query)))
    ensures forall p :: Attach(userMap, p) in FilterProducts(products, userMap, query) <==>
      p in products && Matches(p, Lookup(userMap, p.id), Normalize(query))
  {
    if Normalize(query) == [] {
      BlankKeepsEveryProduct(products, userMap, query);
    } else {
      SearchKeepsExactlyMatches(products, userMap, query);
    }
  }

  /** For a blank query every position is kept and every product appears. */
  lemma {:induction false} BlankKeepsEveryProduct(products: seq<Product>, userMap: map<int, User>, query: string)
    requires Normalize(query) == []
    ensures forall i :: 0 <= i < |products| ==> i in KeptIndices(products, userMap, query)
    ensures forall p :: Attach(userMap, p) in FilterProducts(products, userMap, query) <==> p in products
  {
    var r, idx := FilterProducts(products, userMap, query), KeptIndices(products, userMap, query);
    forall i | 0 <= i < |products| ensures i in idx {
      assert idx[i] == i;
    }
    forall p ensures Attach(userMap, p) in r <==> p in products {
      if Attach(userMap, p) in r {
        var k :| 0 <= k < |r| && r[k] == Attach(userMap, p);
        assert p == products[k];
      }
      if p in products {
        var i :| 0 <= i < |products| && products[i] == p;
        assert r[i] == Attach(userMap, p);
      }
    }
  }

  /** For a non-blank query the result holds exactly the matching products. */
  lemma {:induction false} SearchKeepsExactlyMatches(products: seq<Product>, userMap: map<int, User>, query: string)
    requires Normalize(query) != []
    ensures forall i :: 0 <= i < |products| ==>
      (i in KeptIndices(products, userMap, query) <==>
       Matches(products[i], Lookup(userMap, products[i].id), Normalize(query)))
    ensures forall p :: Attach(userMap, p) in FilterProducts(products, userMap, query) <==>
      p in products && Matches(p, Lookup(userMap, p.id), Normalize(query))
  {
    var kw := Normalize(query);
    var r, idx := FilterProducts(products, userMap, query), KeptIndices(products, userMap, query);
    SelectIsOrderedSubsequence(userMap, products, kw);
    forall p ensures Attach(userMap, p) in r <==> p in products && Matches(p, Lookup(userMap, p.id), kw) {
      if Attach(userMap, p) in r {
        var k :| 0 <= k < |r| && r[k] == Attach(userMap, p);
        assert p == products[idx[k]];
      }
      if p in products && Matches(p, Lookup(userMap, p.id), kw) {
        var i :| 0 <= i < |products| && products[i] == p;
        var k :| 0 <= k < |idx| && idx[k] == i;
        assert r[k] == Attach(userMap, p);
      }
    }
  }

  /** A product with no user under its id is judged on its title and description alone. */
  lemma {:induction false} FilterWithoutUser(products: seq<Product>, userMap: map<int, User>, query: string, p: Product)
    requires p.id !in userMap && p in products
    ensures Attach(userMap, p) in FilterProducts(products, userMap, query) <==>
      Contains(Lower(p.title), Normalize(query)) || Contains(Lower(p.description), Normalize(query))
  {
    FilterKeepsExactlyMatches(products, userMap, query);
    ContainsEmpty(Lower(p.title));
  }

  /**
   * Skipping the filter for an empty keyword changes nothing: the empty
   * string occurs in every title, so the general branch would keep the same
   * records.
   */
  lemma {:induction false} BlankShortcutAgreesWithFilter(products: seq<Product>, userMap: map<int, User>)
    ensures FilterProducts(products, userMap, "") == AttachAll(userMap, Select(userMap, products, ""))
  {
    SelectEmptyKeepsAll(userMap, products);
  }

  // ---------------------------------------------------------------------------
  // Case and padding of the query do not matter

  /** A keyword is its own normal form. */
  lemma {:induction false} NormalizeIdempotent(query: string)
    ensures Normalize(Normalize(query)) == Normalize(query)
  {
    var kw := Normalize(query);
    TrimIs(kw, 0, |kw|);
    LowerIdempotent(Trim(query));
  }

  /** A lowercase query without surrounding space is its own keyword. */
  lemma {:induction false} NormalizeLowercaseWord(q: string)
    requires q != [] && forall i :: 0 <= i < |q| ==> 'a' <= q[i] <= 'z'
    ensures Normalize(q) == q
  {
    TrimIs(q, 0, |q|);
    assert Lower(q) == q;
  }

  /** Queries equal up to ASCII case normalise to the same keyword. */
  lemma {:induction false} NormalizeIgnoresCase(q1: string, q2: string)
    requires Lower(q1) == Lower(q2)
    ensures Normalize(q1) == Normalize(q2)
  {
    LowerTrimCommute(q1);
    LowerTrimCommute(q2);
  }

  /** Space around a query does not change its keyword. */
  lemma {:induction false} NormalizeIgnoresPadding(q: string, front: string, back: string)
    requires AllSpace(front) && AllSpace(back)
    ensures Normalize(front + q + back) == Normalize(q)
  {
    TrimIgnoresPadding(q, front, back);
  }

  /** The filtered list depends on the query only up to ASCII case. */
  lemma {:induction false} FilterIgnoresCase(products: seq<Product>, userMap: map<int, User>, q1: string, q2: string)
    requires Lower(q1) == Lower(q2)
    ensures FilterProducts(products, userMap, q1) == FilterProducts(products, userMap, q2)
  {
    NormalizeIgnoresCase(q1, q2);
  }

  /** The filtered list does not change when space is added around the query. */
  lemma {:induction false} FilterIgnoresPadding(products: seq<Product>, userMap: map<int, User>, q: string, front: string, back: string)
    requires AllSpace(front) && AllSpace(back)
    ensures FilterProducts(products, userMap, front + q + back) == FilterProducts(products, userMap, q)
  {
    NormalizeIgnoresPadding(q, front, back);
  }

  /** "ABC" and "abc" give the same filtered list. */
  lemma {:induction false} FilterUpperAbcExample(products: seq<Product>, userMap: map<int, User>)
    ensures FilterProducts(products, userMap, "ABC") == FilterProducts(products, userMap, "abc")
  {
    assert Lower("ABC") == Lower("abc") by {
      assert forall i :: 0 <= i < 3 ==> LowerChar("ABC"[i]) == "abc"[i];
    }
    FilterIgnoresCase(products, userMap, "ABC", "abc");
  }

  /** " abc " and "abc" give the same filtered list. */
  lemma {:induction false} FilterPaddedAbcExample(products: seq<Product>, userMap: map<int, User>)
    ensures FilterProducts(products, userMap, " abc ") == FilterProducts(products, userMap, "abc")
  {
    assert " abc " == " " + "abc" + " ";
    FilterIgnoresPadding(products, userMap, "abc", " ", " ");
  }
}
