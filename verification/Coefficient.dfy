/** The recommendation coefficient: its computation and its algebra. */
module Coefficient {
  import opened Models

  /** The weight of an icon; one that is not in the table weighs nothing. */
  function IconWeight(icon: string): real {
    if icon in ICON_MULTIPLIERS then ICON_MULTIPLIERS[icon] else 0.0
  }

  function TierWeight(tier: string): real {
    if tier in TIER_MULTIPLIERS then TIER_MULTIPLIERS[tier] else 0.0
  }

  function CategoryWeight(c: Category): real {
    TierWeight(c.tier) * c.amenityCount as real
  }

  function HighlightSum(hs: seq<Highlight>): real {
    if hs == [] then 0.0 else HighlightSum(hs[..|hs| - 1]) + IconWeight(hs[|hs| - 1].icon)
  }

  function CategorySum(cs: seq<Category>): real {
    if cs == [] then 0.0 else CategorySum(cs[..|cs| - 1]) + CategoryWeight(cs[|cs| - 1])
  }

  function CountSum(cs: seq<Category>): int {
    if cs == [] then 0 else CountSum(cs[..|cs| - 1]) + cs[|cs| - 1].amenityCount
  }

  function ZeroToOne(x: real): real {
    if x == 0.0 then 1.0 else x
  }

  /** The coefficient of a room with these amenities. */
  function Coef(hs: seq<Highlight>, cs: seq<Category>): real {
    Times(ZeroToOne(HighlightSum(hs)), ZeroToOne(CategorySum(cs)))
  }

  function Times(x: real, y: real): real {
    x * y
  }

  /** The first loop: icons with a known multiplier add up. */
  method SumHighlights(amenities: seq<HighlightedAmenity>) returns (highlightedSum: real)
    ensures highlightedSum == ZeroToOne(HighlightSum(Infos(amenities)))
  {
    ghost var hs := Infos(amenities);
    highlightedSum := 0.0;
    for i := 0 to |amenities|
      invariant highlightedSum == HighlightSum(hs[..i])
    {
      assert hs[..i + 1][..i] == hs[..i];
      if amenities[i].info.icon in ICON_MULTIPLIERS {
        highlightedSum := highlightedSum + ICON_MULTIPLIERS[amenities[i].info.icon];
      }
    }
    assert hs[..|amenities|] == hs;
    if highlightedSum == 0.0 {
      highlightedSum := 1.0;
    }
  }

  /** The second loop: categories of a known tier add up, each times its count. */
  method SumCategories(categories: seq<AmenityCategory>) returns (categorySum: real)
    ensures categorySum == ZeroToOne(CategorySum(Infos(categories)))
  {
    ghost var cs := Infos(categories);
    categorySum := 0.0;
    for i := 0 to |categories|
      invariant categorySum == CategorySum(cs[..i])
    {
      assert cs[..i + 1][..i] == cs[..i];
      var c := categories[i].info;
      if c.tier in TIER_MULTIPLIERS {
        categorySum := categorySum + TIER_MULTIPLIERS[c.tier] * c.amenityCount as real;
      }
    }
    assert cs[..|categories|] == cs;
    if categorySum == 0.0 {
      categorySum := 1.0;
    }
  }

  method CalculateCoef(amenities: seq<HighlightedAmenity>, categories: seq<AmenityCategory>) returns (coef: real)
    ensures coef == Coef(Infos(amenities), Infos(categories))
  {
    var highlightedSum := SumHighlights(amenities);
    var categorySum := SumCategories(categories);
    return Times(highlightedSum, categorySum);
  }

  lemma {:induction false} HighlightSumSplits(a: seq<Highlight>, b: seq<Highlight>)
    ensures HighlightSum(a + b) == HighlightSum(a) + HighlightSum(b)
  {
    if b == [] {
      assert a + b == a;
    } else {
      HighlightSumSplits(a, b[..|b| - 1]);
      assert (a + b)[..|a + b| - 1] == a + b[..|b| - 1];
    }
  }

  lemma {:induction false} CategorySumSplits(a: seq<Category>, b: seq<Category>)
    ensures CategorySum(a + b) == CategorySum(a) + CategorySum(b)
  {
    if b == [] {
      assert a + b == a;
    } else {
      CategorySumSplits(a, b[..|b| - 1]);
      assert (a + b)[..|a + b| - 1] == a + b[..|b| - 1];
    }
  }

  // ---- What is computed, from the tables of weights ----

  /** Which icons have which weight; no other icon is known. */
  lemma IconsByWeight(icon: string)
    ensures icon in ICON_MULTIPLIERS && ICON_MULTIPLIERS[icon] == 1.5 <==> icon in {"bed", "wifi"}
    ensures icon in ICON_MULTIPLIERS && ICON_MULTIPLIERS[icon] == 1.4 <==> icon == "sparkle"
    ensures icon in ICON_MULTIPLIERS && ICON_MULTIPLIERS[icon] == 1.3 <==> icon in {"utensils", "mountain"}
    ensures icon in ICON_MULTIPLIERS && ICON_MULTIPLIERS[icon] == 1.2 <==> icon in {"snowflake", "sofa", "lock"}
    ensures icon in ICON_MULTIPLIERS && ICON_MULTIPLIERS[icon] == 1.1 <==>
            icon in {"tv", "coffee", "headphones", "briefcase"}
    ensures icon in ICON_MULTIPLIERS && ICON_MULTIPLIERS[icon] == 1.0 <==> icon == "info"
    ensures icon in ICON_MULTIPLIERS ==> ICON_MULTIPLIERS[icon] in {1.0, 1.1, 1.2, 1.3, 1.4, 1.5}
  {
  }

  lemma TiersByWeight(tier: string)
    ensures tier in TIER_MULTIPLIERS && TIER_MULTIPLIERS[tier] == 0.8 <==> tier == "basic"
    ensures tier in TIER_MULTIPLIERS && TIER_MULTIPLIERS[tier] == 1.0 <==> tier == "essential"
    ensures tier in TIER_MULTIPLIERS && TIER_MULTIPLIERS[tier] == 1.2 <==> tier == "comfort"
    ensures tier in TIER_MULTIPLIERS && TIER_MULTIPLIERS[tier] == 1.5 <==> tier == "luxury"
    ensures tier in TIER_MULTIPLIERS ==> TIER_MULTIPLIERS[tier] in {0.8, 1.0, 1.2, 1.5}
  {
  }

  lemma {:induction false} HighlightsAddUp(hs: seq<Highlight>, s: seq<real>, n: nat)
    requires n <= |hs| && |s| == |hs| + 1 && s[0] == 0.0
    requires forall i :: 0 <= i < |hs| ==>
      s[i + 1] == s[i] + (if hs[i].icon in ICON_MULTIPLIERS then ICON_MULTIPLIERS[hs[i].icon] else 0.0)
    ensures HighlightSum(hs[..n]) == s[n]
  {
    if n > 0 {
      HighlightsAddUp(hs, s, n - 1);
      assert hs[..n][..n - 1] == hs[..n - 1];
      assert s[n - 1 + 1] == s[n];
    }
  }

  lemma {:induction false} CategoriesAddUp(cs: seq<Category>, u: seq<real>, n: nat)
    requires n <= |cs| && |u| == |cs| + 1 && u[0] == 0.0
    requires forall i :: 0 <= i < |cs| ==>
      u[i + 1] == u[i] +
        (if cs[i].tier in TIER_MULTIPLIERS then TIER_MULTIPLIERS[cs[i].tier] * cs[i].amenityCount as real else 0.0)
    ensures CategorySum(cs[..n]) == u[n]
  {
    if n > 0 {
      CategoriesAddUp(cs, u, n - 1);
      assert cs[..n][..n - 1] == cs[..n - 1];
      assert u[n - 1 + 1] == u[n];
      NoWeightNoSum(cs[n - 1]);
    }
  }

  lemma NoWeightNoSum(c: Category)
    ensures CategoryWeight(c) ==
      if c.tier in TIER_MULTIPLIERS then TIER_MULTIPLIERS[c.tier] * c.amenityCount as real else 0.0
  {
    var n := c.amenityCount as real;
    assert 0.0 * n == 0.0;
  }

  /** With s and u the running sums of the two lists' weights, ending at x and y, the coefficient is
      the product of x and y, where a zero sum counts as one. */
  lemma CoefFromSums(hs: seq<Highlight>, cs: seq<Category>, s: seq<real>, u: seq<real>, x: real, y: real)
    requires |s| == |hs| + 1 && s[0] == 0.0 && s[|hs|] == x && |u| == |cs| + 1 && u[0] == 0.0 && u[|cs|] == y
    requires forall i :: 0 <= i < |hs| ==>
      s[i + 1] == s[i] + (if hs[i].icon in ICON_MULTIPLIERS then ICON_MULTIPLIERS[hs[i].icon] else 0.0)
    requires forall i :: 0 <= i < |cs| ==>
      u[i + 1] == u[i] +
        (if cs[i].tier in TIER_MULTIPLIERS then TIER_MULTIPLIERS[cs[i].tier] * cs[i].amenityCount as real else 0.0)
    ensures Coef(hs, cs) == (if x == 0.0 then 1.0 else x) * (if y == 0.0 then 1.0 else y)
  {
    HighlightsAddUp(hs, s, |hs|);
    CategoriesAddUp(cs, u, |cs|);
    assert hs[..|hs|] == hs && cs[..|cs|] == cs;
    SumsMultiplied(x, y);
  }

  lemma SumsMultiplied(x: real, y: real)
    ensures Times(ZeroToOne(x), ZeroToOne(y)) == (if x == 0.0 then 1.0 else x) * (if y == 0.0 then 1.0 else y)
  {
  }

  // ---- Order does not matter ----

  lemma WithoutElement<T>(b: seq<T>, i: nat)
    requires i < |b|
    ensures b == b[..i] + [b[i]] + b[i + 1..]
    ensures multiset(b[..i] + b[i + 1..]) == multiset(b) - multiset{b[i]}
  {
    assert b == b[..i] + [b[i]] + b[i + 1..];
    assert multiset(b) == multiset(b[..i] + b[i + 1..]) + multiset{b[i]};
  }

  /** Two orderings of the same elements: the last of one, taken out of the other. */
  lemma TakeOut<T>(a: seq<T>, b: seq<T>) returns (i: nat)
    requires a != [] && multiset(a) == multiset(b)
    ensures i < |b| && b[i] == a[|a| - 1]
    ensures b == b[..i] + [b[i]] + b[i + 1..]
    ensures multiset(a[..|a| - 1]) == multiset(b[..i] + b[i + 1..])
  {
    var x := a[|a| - 1];
    assert x in multiset(b);
    i :| 0 <= i < |b| && b[i] == x;
    WithoutElement(a, |a| - 1);
    WithoutElement(b, i);
    assert a[..|a| - 1] + a[|a|..] == a[..|a| - 1];
  }

  lemma {:induction false} HighlightSumOfReordering(a: seq<Highlight>, b: seq<Highlight>)
    requires multiset(a) == multiset(b)
    ensures HighlightSum(a) == HighlightSum(b)
  {
    if a == [] {
      assert |multiset(b)| == 0;
    } else {
      var i := TakeOut(a, b);
      var x, rest := b[i], b[i + 1..];
      HighlightSumOfReordering(a[..|a| - 1], b[..i] + rest);
      HighlightSumSplits(b[..i], rest);
      HighlightSumSplits(b[..i] + [x], rest);
      assert (b[..i] + [x])[..i] == b[..i];
    }
  }

  lemma {:induction false} CategorySumOfReordering(a: seq<Category>, b: seq<Category>)
    requires multiset(a) == multiset(b)
    ensures CategorySum(a) == CategorySum(b)
  {
    if a == [] {
      assert |multiset(b)| == 0;
    } else {
      var i := TakeOut(a, b);
      var x, rest := b[i], b[i + 1..];
      CategorySumOfReordering(a[..|a| - 1], b[..i] + rest);
      CategorySumSplits(b[..i], rest);
      CategorySumSplits(b[..i] + [x], rest);
      assert (b[..i] + [x])[..i] == b[..i];
    }
  }

  /** The coefficient does not depend on the order of either list. */
  lemma CoefOfReordering(hs: seq<Highlight>, hs': seq<Highlight>, cs: seq<Category>, cs': seq<Category>)
    requires multiset(hs) == multiset(hs') && multiset(cs) == multiset(cs')
    ensures Coef(hs, cs) == Coef(hs', cs')
  {
    HighlightSumOfReordering(hs, hs');
    CategorySumOfReordering(cs, cs');
  }

  // ---- Whole numbers of hundredths ----

  /** x is a whole number. */
  ghost predicate Whole(x: real) {
    x.Floor as real == x
  }

  lemma WholeInt(x: real, k: int)
    requires x == k as real
    ensures Whole(x)
  {
  }

  lemma IconWeights(icon: string)
    ensures Whole(10.0 * IconWeight(icon))
    ensures IconWeight(icon) == 0.0 || IconWeight(icon) >= 1.0
  {
    var w := IconWeight(icon);
    assert w in {0.0, 1.0, 1.1, 1.2, 1.3, 1.4, 1.5};
  }

  lemma TierWeights(tier: string)
    ensures Whole(10.0 * TierWeight(tier))
    ensures TierWeight(tier) in {0.0, 0.8, 1.0, 1.2, 1.5}
    ensures TierWeight(tier) == 0.8 <==> tier == TIER_BASIC
  {
  }

  lemma {:induction false} HighlightSumIsWhole(hs: seq<Highlight>)
    ensures Whole(10.0 * HighlightSum(hs))
    ensures HighlightSum(hs) == 0.0 || HighlightSum(hs) >= 1.0
  {
    if hs != [] {
      HighlightSumIsWhole(hs[..|hs| - 1]);
      IconWeights(hs[|hs| - 1].icon);
      WholeSum(10.0 * HighlightSum(hs[..|hs| - 1]), 10.0 * IconWeight(hs[|hs| - 1].icon));
    }
  }

  lemma WholeProduct(x: real, y: real)
    requires Whole(x) && Whole(y)
    ensures Whole(x * y)
  {
    var i, j := x.Floor, y.Floor;
    assert x * y == i as real * j as real == (i * j) as real;
    WholeInt(x * y, i * j);
  }

  lemma CategoryWeightIsWhole(c: Category)
    ensures Whole(10.0 * CategoryWeight(c))
  {
    var w, n := TierWeight(c.tier), c.amenityCount as real;
    TierWeights(c.tier);
    WholeInt(n, c.amenityCount);
    WholeProduct(10.0 * w, n);
    assert 10.0 * w * n == 10.0 * (w * n);
  }

  lemma {:induction false} CategorySumIsWhole(cs: seq<Category>)
    ensures Whole(10.0 * CategorySum(cs))
  {
    if cs != [] {
      CategorySumIsWhole(cs[..|cs| - 1]);
      CategoryWeightIsWhole(cs[|cs| - 1]);
      WholeSum(10.0 * CategorySum(cs[..|cs| - 1]), 10.0 * CategoryWeight(cs[|cs| - 1]));
    }
  }

  lemma WholeSum(x: real, y: real)
    requires Whole(x) && Whole(y)
    ensures Whole(x + y)
  {
    WholeInt(x + y, x.Floor + y.Floor);
  }

  /** The coefficient is always a whole number of hundredths. */
  lemma CoefIsWholeHundredths(hs: seq<Highlight>, cs: seq<Category>)
    ensures Whole(100.0 * Coef(hs, cs))
  {
    HighlightSumIsWhole(hs);
    CategorySumIsWhole(cs);
    var x, y := ZeroToOne(HighlightSum(hs)), ZeroToOne(CategorySum(cs));
    WholeInt(10.0 * 1.0, 10);
    WholeTenths(x, y);
  }

  lemma WholeTenths(x: real, y: real)
    requires Whole(10.0 * x) && Whole(10.0 * y)
    ensures Whole(100.0 * Times(x, y))
  {
    var i, j := (10.0 * x).Floor, (10.0 * y).Floor;
    assert 100.0 * Times(x, y) == (10.0 * x) * (10.0 * y) == i as real * j as real == (i * j) as real;
    WholeInt(100.0 * Times(x, y), i * j);
  }

  // ---- How it grows ----

  ghost predicate Counted(cs: seq<Category>) {
    forall i :: 0 <= i < |cs| ==> cs[i].amenityCount >= 0
  }

  lemma CategoryWeights(c: Category)
    requires c.amenityCount >= 0
    ensures CategoryWeight(c) == 0.0 || CategoryWeight(c) == 0.8 || CategoryWeight(c) >= 1.0
    ensures CategoryWeight(c) == 0.8 <==> c.tier == TIER_BASIC && c.amenityCount == 1
  {
    TierWeights(c.tier);
    var w, n := TierWeight(c.tier), c.amenityCount as real;
    if w == 0.8 {
      assert w * n == 0.8 * n;
    } else if w == 1.0 {
      assert w * n == n;
    } else if w == 1.2 {
      assert w * n == 1.2 * n;
    } else if w == 1.5 {
      assert w * n == 1.5 * n;
    } else {
      assert w * n == 0.0;
    }
  }

  lemma {:induction false} CategorySumIsZeroOrLarge(cs: seq<Category>)
    requires Counted(cs)
    ensures CategorySum(cs) == 0.0 || CategorySum(cs) >= 0.8
  {
    if cs != [] {
      CategorySumIsZeroOrLarge(cs[..|cs| - 1]);
      CategoryWeights(cs[|cs| - 1]);
    }
  }

  lemma Products(x: real, y: real, z: real)
    requires x > 0.0
    ensures y < z <==> Times(x, y) < Times(x, z)
    ensures y <= z <==> Times(x, y) <= Times(x, z)
    ensures y == z <==> Times(x, y) == Times(x, z)
  {
    if y < z {
      assert x * (z - y) > 0.0;
    } else {
      assert x * (y - z) >= 0.0;
      if z < y {
        assert x * (y - z) > 0.0;
      }
    }
  }

  lemma TimesCommutes(x: real, y: real)
    ensures Times(x, y) == Times(y, x)
  {
  }

  /** With nonnegative counts the coefficient is at least 0.8. */
  lemma CoefIsAtLeast(hs: seq<Highlight>, cs: seq<Category>)
    requires Counted(cs)
    ensures Coef(hs, cs) >= 0.8
  {
    HighlightSumIsWhole(hs);
    CategorySumIsZeroOrLarge(cs);
    var x, y := ZeroToOne(HighlightSum(hs)), ZeroToOne(CategorySum(cs));
    Products(x, 0.8, y);
    assert Times(x, 0.8) >= 0.8;
  }

  /** The highlight factor held fixed, the coefficient is ordered as the category factor. */
  lemma OrderedByCategoryFactor(hs: seq<Highlight>, cs: seq<Category>, cs': seq<Category>)
    ensures Coef(hs, cs') < Coef(hs, cs) <==> ZeroToOne(CategorySum(cs')) < ZeroToOne(CategorySum(cs))
  {
    HighlightSumIsWhole(hs);
    var x, y, y' := ZeroToOne(HighlightSum(hs)), ZeroToOne(CategorySum(cs)), ZeroToOne(CategorySum(cs'));
    Products(x, y', y);
  }

  /** The category factor held fixed, the coefficient is ordered as the highlight factor. */
  lemma OrderedByHighlightFactor(hs: seq<Highlight>, hs': seq<Highlight>, cs: seq<Category>)
    requires Counted(cs) && ZeroToOne(HighlightSum(hs)) <= ZeroToOne(HighlightSum(hs'))
    ensures Coef(hs, cs) <= Coef(hs', cs)
  {
    CategorySumIsZeroOrLarge(cs);
    var x, x', y := ZeroToOne(HighlightSum(hs)), ZeroToOne(HighlightSum(hs')), ZeroToOne(CategorySum(cs));
    Products(y, x, x');
    TimesCommutes(x, y);
    TimesCommutes(x', y);
  }

  /** Adding a highlighted amenity never lowers the coefficient. */
  lemma AddingAmenityNeverLowers(hs: seq<Highlight>, h: Highlight, cs: seq<Category>)
    requires Counted(cs)
    ensures Coef(hs + [h], cs) >= Coef(hs, cs)
  {
    HighlightFactorGrows(hs, h);
    OrderedByHighlightFactor(hs, hs + [h], cs);
  }

  lemma HighlightFactorGrows(hs: seq<Highlight>, h: Highlight)
    ensures ZeroToOne(HighlightSum(hs)) <= ZeroToOne(HighlightSum(hs + [h]))
  {
    HighlightSumIsWhole(hs);
    IconWeights(h.icon);
    assert (hs + [h])[..|hs|] == hs;
  }

  /** Adding a category lowers the coefficient exactly when it is the first to weigh anything
      and is a basic one of a single amenity. */
  lemma AddingCategoryLowersIff(hs: seq<Highlight>, cs: seq<Category>, c: Category)
    requires Counted(cs + [c])
    ensures Coef(hs, cs + [c]) < Coef(hs, cs) <==>
            CategorySum(cs) == 0.0 && c.tier == TIER_BASIC && c.amenityCount == 1
  {
    assert cs == (cs + [c])[..|cs|] && c == (cs + [c])[|cs|];
    CategoryFactorFallsIff(cs, c);
    OrderedByCategoryFactor(hs, cs, cs + [c]);
  }

  lemma CategoryFactorFallsIff(cs: seq<Category>, c: Category)
    requires Counted(cs) && c.amenityCount >= 0
    ensures ZeroToOne(CategorySum(cs + [c])) < ZeroToOne(CategorySum(cs)) <==>
            CategorySum(cs) == 0.0 && c.tier == TIER_BASIC && c.amenityCount == 1
  {
    assert (cs + [c])[..|cs|] == cs;
    CategorySumIsZeroOrLarge(cs);
    CategoryWeights(c);
  }

  // ---- The formula in the source's comment ----

  /** highlighted_sum * max(category_sum, 1.0), as the comment above the code has it. */
  function DocumentedCoef(hs: seq<Highlight>, cs: seq<Category>): real {
    Times(HighlightSum(hs), if CategorySum(cs) < 1.0 then 1.0 else CategorySum(cs))
  }

  /** The categories that weigh anything. */
  function Weighing(cs: seq<Category>): seq<Category> {
    if cs == [] then []
    else
      var last := cs[|cs| - 1];
      Weighing(cs[..|cs| - 1]) + (if last.tier in TIER_MULTIPLIERS && last.amenityCount != 0 then [last] else [])
  }

  /** All that weighs is one basic category of a single amenity. */
  predicate OneBasicAmenity(cs: seq<Category>) {
    |Weighing(cs)| == 1 && Weighing(cs)[0].tier == TIER_BASIC && Weighing(cs)[0].amenityCount == 1
  }

  lemma WeighsIff(c: Category)
    requires c.amenityCount >= 0
    ensures CategoryWeight(c) == 0.0 <==> !(c.tier in TIER_MULTIPLIERS && c.amenityCount != 0)
  {
    var w, n := TierWeight(c.tier), c.amenityCount as real;
    assert w == 0.0 || w >= 0.8;
    if w != 0.0 && c.amenityCount != 0 {
      Products(w, 0.0, n);
      assert CategoryWeight(c) == Times(w, n) && Times(w, 0.0) == 0.0;
    }
  }

  lemma {:induction false} CategorySumIsLeastIff(cs: seq<Category>)
    requires Counted(cs)
    ensures CategorySum(cs) == 0.0 <==> Weighing(cs) == []
    ensures CategorySum(cs) == 0.8 <==> OneBasicAmenity(cs)
  {
    if cs != [] {
      var front, last := cs[..|cs| - 1], cs[|cs| - 1];
      CategorySumIsLeastIff(front);
      CategorySumIsZeroOrLarge(front);
      CategoryWeights(last);
      WeighsIff(last);
    }
  }

  /** The code follows its comment exactly when some highlighted icon is known and the
      categories that weigh are not just one basic one of a single amenity. */
  lemma MatchesCommentIff(hs: seq<Highlight>, cs: seq<Category>)
    requires Counted(cs)
    ensures Coef(hs, cs) == DocumentedCoef(hs, cs) <==>
            (exists i :: 0 <= i < |hs| && hs[i].icon in ICON_MULTIPLIERS) && !OneBasicAmenity(cs)
  {
    HighlightSumIsZeroIff(hs);
    HighlightSumIsWhole(hs);
    CategorySumIsZeroOrLarge(cs);
    var y := CategorySum(cs);
    CategorySumSkips(cs);
    CategorySumIsLeastIff(cs);
    var x := ZeroToOne(HighlightSum(hs));
    if HighlightSum(hs) == 0.0 {
      CoefIsAtLeast(hs, cs);
    } else {
      Products(x, ZeroToOne(y), if y < 1.0 then 1.0 else y);
    }
  }

  lemma SumsOfOne(h: Highlight, c: Category)
    ensures HighlightSum([h]) == IconWeight(h.icon) && CategorySum([c]) == CategoryWeight(c)
  {
    assert [h][..0] == [] && [c][..0] == [];
  }

  /** Two departures: a room without amenities gets 1 from the code and 0 from its comment, and
      one known icon with one basic amenity gets a fifth less than the comment says. */
  lemma DepartsFromComment(h: Highlight, c: Category)
    requires h.icon in ICON_MULTIPLIERS && c.tier == TIER_BASIC && c.amenityCount == 1
    ensures Coef([], []) == 1.0 && DocumentedCoef([], []) == 0.0
    ensures DocumentedCoef([h], [c]) > 0.0 && Coef([h], [c]) == 0.8 * DocumentedCoef([h], [c])
  {
    SumsOfOne(h, c);
    IconWeights(h.icon);
    CategoryWeights(c);
  }

  lemma {:induction false} HighlightSumIsZeroIff(hs: seq<Highlight>)
    ensures HighlightSum(hs) == 0.0 <==> forall i :: 0 <= i < |hs| ==> hs[i].icon !in ICON_MULTIPLIERS
  {
    if hs != [] {
      var front, last := hs[..|hs| - 1], hs[|hs| - 1];
      HighlightSumIsZeroIff(front);
      HighlightSumIsWhole(front);
      IconWeights(last.icon);
      assert last.icon in ICON_MULTIPLIERS ==> IconWeight(last.icon) != 0.0;
      assert forall i :: 0 <= i < |front| ==> front[i] == hs[i];
    }
  }

  /** No category sum lies strictly between 0.8 and 1. */
  lemma {:induction false} CategorySumSkips(cs: seq<Category>)
    requires Counted(cs)
    ensures !(0.8 < CategorySum(cs) < 1.0)
  {
    if cs != [] {
      var front, last := cs[..|cs| - 1], cs[|cs| - 1];
      CategorySumSkips(front);
      CategorySumIsZeroOrLarge(front);
      CategoryWeights(last);
    }
  }
}
