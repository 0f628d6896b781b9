/**
 * The OCR-text matching engine (services/productMatching.ts): classification
 * of scanned text against the catalog, the Levenshtein similarity score, the
 * auto-add threshold and the text cleaner.
 */
module ProductMatching {
  import opened Types
  import opened Seqs
  import opened Text

  // ---------------------------------------------------------------------
  // Match results
  // ---------------------------------------------------------------------

  const ExactConfidence: real := 1.0
  const MultipleConfidence: real := 0.9
  const PartialConfidence: real := 0.7
  const DefaultAutoAddThreshold: real := 0.9

  /** The `type` tag of a result: `'exact'`, `'multiple'` or `'none'`. */
  datatype MatchKind = Exact | Multiple | NoMatch

  /** `MatchResult`: the tag and the two optional fields `matches` and `confidence`. */
  datatype MatchResult = MatchResult(kind: MatchKind, matches: Option<seq<Product>>, confidence: Option<real>)

  /** The three shapes a result can take. */
  predicate WellFormed(r: MatchResult) {
    match r.kind
    case Exact =>
      r.matches.Some? && |r.matches.value| == 1 && r.confidence == Some(ExactConfidence)
    case Multiple =>
      && r.matches.Some? && |r.matches.value| >= 1
      && (r.confidence == Some(MultipleConfidence) || r.confidence == Some(PartialConfidence))
    case NoMatch =>
      r.matches.None? && r.confidence.None?
  }

  const NoMatchResult: MatchResult := MatchResult(NoMatch, None, None)

  // ---------------------------------------------------------------------
  // findMatchingProducts
  // ---------------------------------------------------------------------

  /** The text both passes compare against: lower-cased, then trimmed. */
  function SearchText(ocrText: string): string {
    Trim(Lower(ocrText))
  }

  /** First pass: the lower-cased name equals the search text, contains it, or is contained in it. */
  predicate NameMatches(search: string, p: Product) {
    var name := Lower(p.name);
    name == search || Contains(name, search) || Contains(search, name)
  }

  /** One token of the fallback: it occurs in the name, or the name occurs in it. */
  predicate TokenMatches(name: string, word: string) {
    Contains(name, word) || Contains(word, name)
  }

  /** Fallback pass: every white-space-separated token of the search text matches the name. */
  predicate TokensMatch(search: string, p: Product) {
    var name := Lower(p.name);
    All(SplitWs(search), (word: string) => TokenMatches(name, word))
  }

  function NameMatchesOf(search: string, products: seq<Product>): seq<Product> {
    Filter(products, (p: Product) => NameMatches(search, p))
  }

  function TokenMatchesOf(search: string, products: seq<Product>): seq<Product> {
    Filter(products, (p: Product) => TokensMatch(search, p))
  }

  /** `findMatchingProducts`. */
  function FindMatchingProducts(ocrText: string, products: seq<Product>): (r: MatchResult)
    ensures WellFormed(r)
  {
    if Trim(ocrText) == [] || |products| == 0 then NoMatchResult
    else
      var search := SearchText(ocrText);
      var exact := NameMatchesOf(search, products);
      if |exact| == 1 then MatchResult(Exact, Some(exact), Some(ExactConfidence))
      else if |exact| > 1 then MatchResult(Multiple, Some(exact), Some(MultipleConfidence))
      else
        var partial := TokenMatchesOf(search, products);
        if |partial| > 0 then MatchResult(Multiple, Some(partial), Some(PartialConfidence))
        else NoMatchResult
  }

  /** For non-blank text and a non-empty catalog, the result is read off the two passes' outputs. */
  lemma FindMatchingProductsPasses(ocrText: string, products: seq<Product>)
    requires !AllWs(ocrText) && products != []
    ensures var r := FindMatchingProducts(ocrText, products);
      var exact := NameMatchesOf(SearchText(ocrText), products);
      var partial := TokenMatchesOf(SearchText(ocrText), products);
      && (r.confidence == Some(PartialConfidence) <==> exact == [] && partial != [])
      && (r.kind == NoMatch <==> exact == [] && partial == [])
  {
  }

  /** The cases of `findMatchingProducts` once the text is not blank and the catalog not empty. */
  lemma PassesInOrder(ocrText: string, products: seq<Product>)
    requires !AllWs(ocrText) && products != []
    ensures var exact := NameMatchesOf(SearchText(ocrText), products);
      var partial := TokenMatchesOf(SearchText(ocrText), products);
      FindMatchingProducts(ocrText, products) ==
        if |exact| == 1 then MatchResult(Exact, Some(exact), Some(ExactConfidence))
        else if |exact| > 1 then MatchResult(Multiple, Some(exact), Some(MultipleConfidence))
        else if |partial| > 0 then MatchResult(Multiple, Some(partial), Some(PartialConfidence))
        else NoMatchResult
  {
    assert Trim(ocrText) != [];
  }

  /** Blank text or an empty catalog gives `'none'` with neither matches nor confidence. */
  lemma BlankOrEmptyGivesNone(ocrText: string, products: seq<Product>)
    requires AllWs(ocrText) || products == []
    ensures FindMatchingProducts(ocrText, products) == MatchResult(NoMatch, None, None)
  {
  }

  /** Non-blank text yields a non-blank search text with non-empty, white-space-free tokens. */
  lemma SearchTokensNonEmpty(ocrText: string)
    requires !AllWs(ocrText)
    ensures SearchText(ocrText) != []
    ensures forall i :: 0 <= i < |SplitWs(SearchText(ocrText))| ==>
      SplitWs(SearchText(ocrText))[i] != [] && NoWs(SplitWs(SearchText(ocrText))[i])
  {
    AllWsLower(ocrText);
    SplitTrimmedTokens(SearchText(ocrText));
  }

  /**
   * For a search text that is one word, the fallback's token test is the
   * first pass's test, so the fallback never finds a product the first pass
   * missed.
   */
  lemma SingleWordFallback(search: string, p: Product)
    requires search != [] && NoWs(search)
    ensures TokensMatch(search, p) <==> NameMatches(search, p)
  {
    assert WsIndex(search) == |search|;
    SplitWsWhole(search);
    ContainsSelf(search);
    var name := Lower(p.name);
    var f := (word: string) => TokenMatches(name, word);
    assert [search][0] == search;
    assert All([search], f) <==> f(search);
  }

  /**
   * `'exact'` exactly when the text is not blank and precisely one catalog
   * position passes the first pass; the single match is that product.
   */
  lemma ExactIff(ocrText: string, products: seq<Product>)
    ensures var r := FindMatchingProducts(ocrText, products);
      var keep := (p: Product) => NameMatches(SearchText(ocrText), p);
      r.kind == Exact <==> !AllWs(ocrText) && exists i :: UniquelyAt(products, keep, i)
    ensures var r := FindMatchingProducts(ocrText, products);
      var keep := (p: Product) => NameMatches(SearchText(ocrText), p);
      forall i :: !AllWs(ocrText) && UniquelyAt(products, keep, i) ==>
        r == MatchResult(Exact, Some([products[i]]), Some(ExactConfidence))
  {
    var keep := (p: Product) => NameMatches(SearchText(ocrText), p);
    FilterSingleton(products, keep);
    forall i | UniquelyAt(products, keep, i) {
      FilterUnique(products, keep, i);
    }
  }

  /** Position `i` is the only catalog position whose product passes the first pass. */
  predicate OnlyNameMatch(search: string, products: seq<Product>, i: int) {
    UniquelyAt(products, (p: Product) => NameMatches(search, p), i)
  }

  /** The position form of `ExactIff`: one passing product, all others failing, gives `'exact'` with it. */
  lemma ExactWhenUnique(ocrText: string, products: seq<Product>, i: int)
    requires !AllWs(ocrText) && OnlyNameMatch(SearchText(ocrText), products, i)
    ensures FindMatchingProducts(ocrText, products) == MatchResult(Exact, Some([products[i]]), Some(ExactConfidence))
  {
    var keep := (p: Product) => NameMatches(SearchText(ocrText), p);
    assert UniquelyAt(products, keep, i);
    ExactIff(ocrText, products);
  }

  /**
   * `'multiple'` at 0.9 exactly when the text is not blank and two or more
   * products pass the first pass; the matches are then those survivors.
   */
  lemma MultipleAtNinety(ocrText: string, products: seq<Product>)
    ensures var r := FindMatchingProducts(ocrText, products);
      var exact := NameMatchesOf(SearchText(ocrText), products);
      && (r.confidence == Some(MultipleConfidence) <==> !AllWs(ocrText) && |exact| > 1)
      && (!AllWs(ocrText) && |exact| > 1 ==> r == MatchResult(Multiple, Some(exact), Some(MultipleConfidence)))
  {
    if AllWs(ocrText) || products == [] {
      BlankOrEmptyGivesNone(ocrText, products);
      assert products == [] ==> NameMatchesOf(SearchText(ocrText), products) == [];
    } else {
      PassesInOrder(ocrText, products);
    }
  }

  /** Position `i` is the only catalog position whose product passes the token test. */
  predicate OnlyTokenMatch(search: string, products: seq<Product>, i: int) {
    UniquelyAt(products, (p: Product) => TokensMatch(search, p), i)
  }

  /**
   * When no product passes the first pass and exactly one passes the token
   * test, the result is `'multiple'` at 0.7 holding that one product.
   */
  lemma FallbackWhenUnique(ocrText: string, products: seq<Product>, i: int)
    requires !AllWs(ocrText)
    requires forall j :: 0 <= j < |products| ==> !NameMatches(SearchText(ocrText), products[j])
    requires OnlyTokenMatch(SearchText(ocrText), products, i)
    ensures FindMatchingProducts(ocrText, products) == MatchResult(Multiple, Some([products[i]]), Some(PartialConfidence))
  {
    var search := SearchText(ocrText);
    var byName := (p: Product) => NameMatches(search, p);
    var byTokens := (p: Product) => TokensMatch(search, p);
    FilterEmptyIff(products, byName);
    assert UniquelyAt(products, byTokens, i);
    FilterUnique(products, byTokens, i);
    PassesInOrder(ocrText, products);
  }

  /** One-word text that no product passes the first pass with gives `'none'`: the fallback adds nothing. */
  lemma NoneForUnmatchedWord(ocrText: string, products: seq<Product>)
    requires SearchText(ocrText) != [] && NoWs(SearchText(ocrText))
    requires forall j :: 0 <= j < |products| ==> !NameMatches(SearchText(ocrText), products[j])
    ensures FindMatchingProducts(ocrText, products) == MatchResult(NoMatch, None, None)
  {
    var search := SearchText(ocrText);
    forall j | 0 <= j < |products|
      ensures !TokensMatch(search, products[j])
    {
      SingleWordFallback(search, products[j]);
    }
    NoneIff(ocrText, products);
  }

  /**
   * The fallback (confidence 0.7) is reported exactly when the text is not
   * blank, no product passes the first pass and at least one passes the
   * token test; it is `'multiple'` even for a single candidate.
   */
  lemma FallbackIff(ocrText: string, products: seq<Product>)
    ensures var r := FindMatchingProducts(ocrText, products);
      var search := SearchText(ocrText);
      r.confidence == Some(PartialConfidence) <==>
        && !AllWs(ocrText)
        && (forall i :: 0 <= i < |products| ==> !NameMatches(search, products[i]))
        && (exists i :: 0 <= i < |products| && TokensMatch(search, products[i]))
    ensures var r := FindMatchingProducts(ocrText, products);
      r.confidence == Some(PartialConfidence) ==> r.kind == Multiple
  {
    var search := SearchText(ocrText);
    var byName := (p: Product) => NameMatches(search, p);
    var byTokens := (p: Product) => TokensMatch(search, p);
    OnlySecondFilterIff(products, byName, byTokens);
    if !AllWs(ocrText) && products != [] {
      FindMatchingProductsPasses(ocrText, products);
    }
  }

  /**
   * `'none'` exactly when the text is blank or no product passes either test
   * (an empty catalog being the case with no product at all).
   */
  lemma NoneIff(ocrText: string, products: seq<Product>)
    ensures var r := FindMatchingProducts(ocrText, products);
      var search := SearchText(ocrText);
      r.kind == NoMatch <==>
        || AllWs(ocrText)
        || forall i :: 0 <= i < |products| ==>
             !NameMatches(search, products[i]) && !TokensMatch(search, products[i])
  {
    var search := SearchText(ocrText);
    var byName := (p: Product) => NameMatches(search, p);
    var byTokens := (p: Product) => TokensMatch(search, p);
    BothFiltersEmptyIff(products, byName, byTokens);
    if !AllWs(ocrText) && products != [] {
      FindMatchingProductsPasses(ocrText, products);
    }
  }

  /**
   * The first pass keeps catalog order and is exactly the passing products:
   * each occurrence of a passing product is kept, no failing one is, and
   * the passing and the failing products together make up the catalog.
   */
  lemma NameMatchesOfSpec(search: string, products: seq<Product>)
    ensures var m := NameMatchesOf(search, products);
      && IsSubsequence(m, products)
      && (forall i :: 0 <= i < |m| ==> NameMatches(search, m[i]))
      && (forall i :: 0 <= i < |products| && NameMatches(search, products[i]) ==> products[i] in m)
      && (forall p :: multiset(m)[p] == if NameMatches(search, p) then multiset(products)[p] else 0)
      && |m| + |Filter(products, (p: Product) => !NameMatches(search, p))| == |products|
  {
    FilterExactly(products, (p: Product) => NameMatches(search, p), (p: Product) => !NameMatches(search, p));
  }

  /**
   * The fallback pass keeps catalog order and is exactly the passing products:
   * each occurrence of a passing product is kept, no failing one is, and
   * the passing and the failing products together make up the catalog.
   */
  lemma TokenMatchesOfSpec(search: string, products: seq<Product>)
    ensures var m := TokenMatchesOf(search, products);
      && IsSubsequence(m, products)
      && (forall i :: 0 <= i < |m| ==> TokensMatch(search, m[i]))
      && (forall i :: 0 <= i < |products| && TokensMatch(search, products[i]) ==> products[i] in m)
      && (forall p :: multiset(m)[p] == if TokensMatch(search, p) then multiset(products)[p] else 0)
      && |m| + |Filter(products, (p: Product) => !TokensMatch(search, p))| == |products|
  {
    FilterExactly(products, (p: Product) => TokensMatch(search, p), (p: Product) => !TokensMatch(search, p));
  }

  /**
   * The returned matches are the output of the pass that produced them: the
   * fallback when the confidence is 0.7, the first pass otherwise. So they
   * keep the catalog's order, each satisfies that pass's test, and none that
   * passes it is left out.
   */
  lemma MatchesAreTheFilteredCatalog(ocrText: string, products: seq<Product>)
    ensures var r := FindMatchingProducts(ocrText, products);
      var search := SearchText(ocrText);
      r.matches.Some? ==>
        && IsSubsequence(r.matches.value, products)
        && (r.confidence == Some(PartialConfidence) ==> r.matches.value == TokenMatchesOf(search, products))
        && (r.confidence != Some(PartialConfidence) ==> r.matches.value == NameMatchesOf(search, products))
  {
    var r := FindMatchingProducts(ocrText, products);
    var search := SearchText(ocrText);
    if AllWs(ocrText) || products == [] {
      BlankOrEmptyGivesNone(ocrText, products);
    } else {
      PassesInOrder(ocrText, products);
    }
    if r.matches.Some? {
      if r.confidence == Some(PartialConfidence) {
        assert r.matches.value == TokenMatchesOf(search, products);
        FilterIsSubsequence(products, (p: Product) => TokensMatch(search, p));
      } else {
        assert r.matches.value == NameMatchesOf(search, products);
        FilterIsSubsequence(products, (p: Product) => NameMatches(search, p));
      }
    }
  }

  // ---------------------------------------------------------------------
  // levenshteinDistance and calculateSimilarity
  // ---------------------------------------------------------------------

  function Min3(x: int, y: int, z: int): (m: int)
    ensures m <= x && m <= y && m <= z
    ensures m == x || m == y || m == z
  {
    if x <= y && x <= z then x else if y <= z then y else z
  }

  /**
   * The edit distance between the first `i` characters of `a` and the first
   * `j` characters of `b`, by the recurrence the source's matrix follows:
   * row and column 0 count insertions, equal last characters take the
   * diagonal, and otherwise one substitution, insertion or deletion is added
   * to the cheapest neighbour.
   */
  function Dist(a: string, b: string, i: nat, j: nat): nat
    requires i <= |a| && j <= |b|
    decreases i + j
  {
    if i == 0 then j
    else if j == 0 then i
    else if a[i - 1] == b[j - 1] then Dist(a, b, i - 1, j - 1)
    else Min3(Dist(a, b, i - 1, j - 1) + 1, Dist(a, b, i, j - 1) + 1, Dist(a, b, i - 1, j) + 1)
  }

  /** The Levenshtein distance between `a` and `b`. */
  function Distance(a: string, b: string): nat {
    Dist(a, b, |a|, |b|)
  }

  /** Cell `(i, j)` of `a` against `b` equals cell `(j, i)` of `b` against `a`. */
  predicate SymmetricAt(a: string, b: string, i: nat, j: nat)
    requires i <= |a| && j <= |b|
  {
    Dist(a, b, i, j) == Dist(b, a, j, i)
  }

  /** One step of the symmetry proof: the recurrence treats its two neighbours alike. */

  lemma SymmetricStep(a: string, b: string, i: nat, j: nat)
    requires 0 < i <= |a| && 0 < j <= |b|
    requires SymmetricAt(a, b, i - 1, j - 1) && SymmetricAt(a, b, i, j - 1) && SymmetricAt(a, b, i - 1, j)
    ensures SymmetricAt(a, b, i, j)
  {
    DistStep(a, b, i, j);
    DistStep(b, a, j, i);
  }

  /** Swapping the two strings transposes the matrix. */
  lemma {:induction false} DistSymmetric(a: string, b: string, i: nat, j: nat)
    requires i <= |a| && j <= |b|
    ensures SymmetricAt(a, b, i, j)
    decreases i + j
  {
    if i == 0 {
    } else if j == 0 {
    } else {
      DistSymmetric(a, b, i - 1, j - 1);
      DistSymmetric(a, b, i, j - 1);
      DistSymmetric(a, b, i - 1, j);
      SymmetricStep(a, b, i, j);
    }
  }

  /** The distance never exceeds the longer prefix. */
  lemma {:induction false} DistUpperBound(a: string, b: string, i: nat, j: nat)
    requires i <= |a| && j <= |b|
    ensures Dist(a, b, i, j) <= Max(i, j)
    decreases i + j
  {
    if i > 0 && j > 0 {
      DistUpperBound(a, b, i - 1, j - 1);
    }
  }

  /** Cell `(i, j)` is at least the difference of `i` and `j`. */
  predicate AtLeastLengthGap(a: string, b: string, i: nat, j: nat)
    requires i <= |a| && j <= |b|
  {
    Dist(a, b, i, j) >= if i < j then j - i else i - j
  }

  lemma LowerBoundStep(a: string, b: string, i: nat, j: nat)
    requires 0 < i <= |a| && 0 < j <= |b|
    requires AtLeastLengthGap(a, b, i - 1, j - 1) && AtLeastLengthGap(a, b, i, j - 1) && AtLeastLengthGap(a, b, i - 1, j)
    ensures AtLeastLengthGap(a, b, i, j)
  {
    DistStep(a, b, i, j);
  }

  /** The distance is at least the difference of the lengths. */
  lemma {:induction false} DistLowerBound(a: string, b: string, i: nat, j: nat)
    requires i <= |a| && j <= |b|
    ensures AtLeastLengthGap(a, b, i, j)
    decreases i + j
  {
    if i == 0 {
    } else if j == 0 {
    } else {
      DistLowerBound(a, b, i - 1, j - 1);
      DistLowerBound(a, b, i, j - 1);
      DistLowerBound(a, b, i - 1, j);
      LowerBoundStep(a, b, i, j);
    }
  }

  /** The distance is 0 exactly for equal prefixes. */
  lemma {:induction false} DistZeroIff(a: string, b: string, i: nat, j: nat)
    requires i <= |a| && j <= |b|
    ensures Dist(a, b, i, j) == 0 <==> a[..i] == b[..j]
    decreases i + j
  {
    if i > 0 && j > 0 {
      DistZeroIff(a, b, i - 1, j - 1);
      assert a[..i] == a[..i - 1] + [a[i - 1]];
      assert b[..j] == b[..j - 1] + [b[j - 1]];
      if a[..i] == b[..j] {
        assert a[i - 1] == b[j - 1];
        assert a[..i - 1] == b[..j - 1];
      }
    }
  }

  /** One step of the recurrence, away from the borders. */
  lemma DistStep(a: string, b: string, i: nat, j: nat)
    requires 0 < i <= |a| && 0 < j <= |b|
    ensures Dist(a, b, i, j) == if a[i - 1] == b[j - 1] then Dist(a, b, i - 1, j - 1)
      else Min3(Dist(a, b, i - 1, j - 1) + 1, Dist(a, b, i, j - 1) + 1, Dist(a, b, i - 1, j) + 1)
  {
  }

  /** The larger of two numbers. */
  function Max(x: int, y: int): (m: int)
    ensures m >= x && m >= y && (m == x || m == y)
  {
    if x < y then y else x
  }

  /** With every neighbour at the longer of its lengths, a mismatch step lands at the longer length again. */
  lemma MismatchOfLongest(i: nat, j: nat)
    requires i > 0 && j > 0
    ensures Min3(Max(i - 1, j - 1) + 1, Max(i, j - 1) + 1, Max(i - 1, j) + 1) == Max(i, j)
  {
  }

  /** Cell `(i, j)` is the larger of `i` and `j`. */
  predicate AtLongerLength(a: string, b: string, i: nat, j: nat)
    requires i <= |a| && j <= |b|
  {
    Dist(a, b, i, j) == Max(i, j)
  }

  /** One step of the disjointness proof. */
  lemma DisjointStep(a: string, b: string, i: nat, j: nat)
    requires 0 < i <= |a| && 0 < j <= |b|
    requires a[i - 1] != b[j - 1]
    requires AtLongerLength(a, b, i - 1, j - 1) && AtLongerLength(a, b, i, j - 1) && AtLongerLength(a, b, i - 1, j)
    ensures AtLongerLength(a, b, i, j)
  {
    DistStep(a, b, i, j);
    MismatchOfLongest(i, j);
  }

  /** Two strings that share no character are as far apart as the longer one is long. */
  lemma {:induction false} DistDisjoint(a: string, b: string, i: nat, j: nat)
    requires i <= |a| && j <= |b|
    requires forall x :: 0 <= x < |a| ==> a[x] !in b
    ensures AtLongerLength(a, b, i, j)
    decreases i + j
  {
    if i == 0 {
    } else if j == 0 {
    } else {
      DistDisjoint(a, b, i - 1, j - 1);
      DistDisjoint(a, b, i, j - 1);
      DistDisjoint(a, b, i - 1, j);
      assert a[i - 1] != b[j - 1];
      DisjointStep(a, b, i, j);
    }
  }

  /**
   * One pass of the outer loop of `levenshteinDistance`: with the rows above
   * `i` filled and `matrix[i, 0] == i`, fills row `i` left to right from its
   * three neighbours, touching no other row.
   */
  method FillRow(matrix: array2<nat>, str1: string, str2: string, i: nat)
    requires matrix.Length0 == |str2| + 1 && matrix.Length1 == |str1| + 1
    requires 1 <= i < matrix.Length0
    requires forall r, c {:trigger matrix[r, c]} :: 0 <= r < i && 0 <= c < matrix.Length1 ==> matrix[r, c] == Dist(str2, str1, r, c)
    requires matrix[i, 0] == i
    modifies matrix
    ensures forall r, c {:trigger matrix[r, c]} :: 0 <= r <= i && 0 <= c < matrix.Length1 ==> matrix[r, c] == Dist(str2, str1, r, c)
    ensures forall r, c {:trigger matrix[r, c]} :: i < r < matrix.Length0 && 0 <= c < matrix.Length1 ==> matrix[r, c] == old(matrix[r, c])
  {
    for j := 1 to matrix.Length1
      invariant forall r, c {:trigger matrix[r, c]} :: 0 <= r < i && 0 <= c < matrix.Length1 ==> matrix[r, c] == Dist(str2, str1, r, c)
      invariant forall c {:trigger matrix[i, c]} :: 0 <= c < j ==> matrix[i, c] == Dist(str2, str1, i, c)
      invariant forall r, c {:trigger matrix[r, c]} :: i < r < matrix.Length0 && 0 <= c < matrix.Length1 ==> matrix[r, c] == old(matrix[r, c])
    {
      assert matrix[i - 1, j - 1] == Dist(str2, str1, i - 1, j - 1);
      assert matrix[i, j - 1] == Dist(str2, str1, i, j - 1);
      assert matrix[i - 1, j] == Dist(str2, str1, i - 1, j);
      var cell;
      if str2[i - 1] == str1[j - 1] {
        cell := matrix[i - 1, j - 1];
      } else {
        cell := Min3(matrix[i - 1, j - 1] + 1, matrix[i, j - 1] + 1, matrix[i - 1, j] + 1);
      }
      DistStep(str2, str1, i, j);
      assert cell == Dist(str2, str1, i, j);
      matrix[i, j] := cell;
    }
  }

  /**
   * `levenshteinDistance(str1, str2)`: fills the `(|str2| + 1) x (|str1| + 1)`
   * matrix row by row, with row 0 holding `j` and column 0 holding `i`, and
   * returns its last cell.
   */
  method LevenshteinDistance(str1: string, str2: string) returns (d: nat)
    ensures d == Distance(str2, str1)
    ensures d == Distance(str1, str2)
  {
    var rows, cols := |str2| + 1, |str1| + 1;
    var matrix := new nat[rows, cols];
    for i := 0 to rows
      invariant forall r :: 0 <= r < i ==> matrix[r, 0] == r
    {
      matrix[i, 0] := i;
    }
    for j := 0 to cols
      invariant forall r :: 0 <= r < rows ==> matrix[r, 0] == r
      invariant forall c :: 0 <= c < j ==> matrix[0, c] == c
    {
      matrix[0, j] := j;
    }
    for i := 1 to rows
      invariant forall r, c {:trigger matrix[r, c]} :: 0 <= r < i && 0 <= c < cols ==> matrix[r, c] == Dist(str2, str1, r, c)
      invariant forall r :: i <= r < rows ==> matrix[r, 0] == r
    {
      FillRow(matrix, str1, str2, i);
    }
    d := matrix[|str2|, |str1|];
    DistSymmetric(str2, str1, |str2|, |str1|);
  }

  /** The score `calculateSimilarity` computes: 1.0 for two empty strings, else `(L - d) / L`. */
  function Similarity(str1: string, str2: string): real {
    var longer := if |str1| > |str2| then str1 else str2;
    var shorter := if |str1| > |str2| then str2 else str1;
    if |longer| == 0 then 1.0
    else (|longer| as real - Distance(shorter, longer) as real) / |longer| as real
  }

  /** Dividing by a positive bound keeps order and lands in [0, 1]. */
  lemma RatioBounds(x: real, z: real, y: real)
    requires 0.0 <= x <= z <= y && 0.0 < y
    ensures 0.0 <= x / y <= z / y <= 1.0
  {
  }

  /** The score lies in [0, 1] and never exceeds the ratio of the shorter length to the longer. */
  lemma SimilarityBounds(str1: string, str2: string)
    ensures 0.0 <= Similarity(str1, str2) <= 1.0
    ensures |str1| + |str2| > 0 ==>
      var lo := if |str1| < |str2| then |str1| else |str2|;
      var hi := if |str1| < |str2| then |str2| else |str1|;
      Similarity(str1, str2) <= lo as real / hi as real
  {
    var longer := if |str1| > |str2| then str1 else str2;
    var shorter := if |str1| > |str2| then str2 else str1;
    if |longer| > 0 {
      DistUpperBound(shorter, longer, |shorter|, |longer|);
      DistLowerBound(shorter, longer, |shorter|, |longer|);
      var L := |longer| as real;
      var d := Distance(shorter, longer) as real;
      var lo := |shorter| as real;
      RatioBounds(L - d, lo, L);
    }
  }

  /** The score is 1.0 exactly for equal strings. */
  lemma SimilarityOneIff(str1: string, str2: string)
    ensures Similarity(str1, str2) == 1.0 <==> str1 == str2
  {
    var longer := if |str1| > |str2| then str1 else str2;
    var shorter := if |str1| > |str2| then str2 else str1;
    DistZeroIff(shorter, longer, |shorter|, |longer|);
    assert shorter[..|shorter|] == shorter && longer[..|longer|] == longer;
    if |longer| > 0 {
      var L := |longer| as real;
      var d := Distance(shorter, longer) as real;
      assert Similarity(str1, str2) == (L - d) / L;
      assert (L - d) / L == 1.0 <==> d == 0.0;
    }
  }

  /** The score does not depend on the order of the arguments. */
  lemma SimilaritySymmetric(str1: string, str2: string)
    ensures Similarity(str1, str2) == Similarity(str2, str1)
  {
    DistSymmetric(str1, str2, |str1|, |str2|);
    DistSymmetric(str2, str1, |str2|, |str1|);
  }

  /**
   * Strings that share no character score 0.0, whatever their lengths, as
   * long as one is non-empty: every character of the longer must be edited.
   */
  lemma DisjointScoresZero(str1: string, str2: string)
    requires str1 != [] || str2 != []
    requires forall x :: 0 <= x < |str1| ==> str1[x] !in str2
    ensures Similarity(str1, str2) == 0.0
  {
    if |str1| > |str2| {
      DisjointFlip(str1, str2);
      DistDisjoint(str2, str1, |str2|, |str1|);
      assert Distance(str2, str1) == |str1|;
    } else {
      DistDisjoint(str1, str2, |str1|, |str2|);
      assert Distance(str1, str2) == |str2|;
    }
  }

  /** Sharing no character is symmetric. */
  lemma DisjointFlip(a: string, b: string)
    requires forall x :: 0 <= x < |a| ==> a[x] !in b
    ensures forall y :: 0 <= y < |b| ==> b[y] !in a
  {
    forall y | 0 <= y < |b|
      ensures b[y] !in a
    {
      assert forall x :: 0 <= x < |a| ==> a[x] != b[y];
    }
  }

  /**
   * Strings of different lengths score below 1.0, and above 0.5 when fewer
   * than half of the longer string's characters need editing, in either
   * order of the arguments.
   */
  lemma CloseStringsScore(str1: string, str2: string)
    requires |str1| != |str2|
    requires 2 * Distance(str1, str2) < Max(|str1|, |str2|)
    ensures 0.5 < Similarity(str1, str2) < 1.0
  {
    if |str1| < |str2| {
      CloseShorterFirst(str1, str2);
    } else {
      DistSymmetric(str1, str2, |str1|, |str2|);
      CloseShorterFirst(str2, str1);
      SimilaritySymmetric(str1, str2);
    }
  }

  lemma CloseShorterFirst(str1: string, str2: string)
    requires |str1| < |str2|
    requires 2 * Distance(str1, str2) < |str2|
    ensures 0.5 < Similarity(str1, str2) < 1.0
  {
    DistZeroIff(str1, str2, |str1|, |str2|);
    assert str1[..|str1|] != str2[..|str2|];
    var L := |str2| as real;
    var d := Distance(str1, str2) as real;
    assert Similarity(str1, str2) == (L - d) / L;
    RatioAboveHalf(L - d, L);
  }

  /** `x / y` lies strictly between one half and one when `y / 2 < x < y`. */
  lemma RatioAboveHalf(x: real, y: real)
    requires 0.0 < y && y < 2.0 * x && x < y
    ensures 0.5 < x / y < 1.0
  {
    DivideStrictly(0.5 * y, x, y);
    assert 0.5 * y / y == 0.5;
    DivideStrictly(x, y, y);
    assert y / y == 1.0;
  }

  lemma DivideStrictly(a: real, b: real, y: real)
    requires a < b && 0.0 < y
    ensures a / y < b / y
  {
    assert b / y - a / y == (b - a) / y;
  }

  /** `calculateSimilarity`: scores via the matrix method. */
  method CalculateSimilarity(str1: string, str2: string) returns (score: real)
    ensures score == Similarity(str1, str2)
    ensures 0.0 <= score <= 1.0
  {
    var longer := if |str1| > |str2| then str1 else str2;
    var shorter := if |str1| > |str2| then str2 else str1;
    SimilarityBounds(str1, str2);
    if |longer| == 0 {
      return 1.0;
    }
    var editDistance := LevenshteinDistance(longer, shorter);
    score := (|longer| as real - editDistance as real) / |longer| as real;
  }

  // ---------------------------------------------------------------------
  // shouldAutoAdd
  // ---------------------------------------------------------------------

  /**
   * `shouldAutoAdd(confidence, threshold = 0.9)`: the confidence reaches the
   * threshold. Under the default, the first pass's confidences (1.0 and 0.9)
   * clear it and the fallback's 0.7 does not.
   */
  function ShouldAutoAdd(confidence: real, threshold: real := DefaultAutoAddThreshold): (r: bool)
    ensures threshold == DefaultAutoAddThreshold ==>
      && (confidence == ExactConfidence ==> r)
      && (confidence == MultipleConfidence ==> r)
      && (confidence == PartialConfidence ==> !r)
  {
    confidence >= threshold
  }

  /**
   * The decision is monotone: a higher confidence is added whenever a lower
   * one is, and a lower threshold accepts whatever a higher one does.
   */
  lemma ShouldAutoAddMonotone(c1: real, c2: real, t1: real, t2: real)
    requires c1 <= c2 && t2 <= t1
    ensures ShouldAutoAdd(c1, t1) ==> ShouldAutoAdd(c2, t2)
  {
  }

  /**
   * Under the default threshold a result's confidence clears the bar exactly
   * when it comes from the first pass (one match, or several by name), and
   * never when it comes from the token fallback.
   */
  lemma AutoAddOnlyFirstPass(ocrText: string, products: seq<Product>)
    ensures var r := FindMatchingProducts(ocrText, products);
      r.confidence.Some? ==>
        (ShouldAutoAdd(r.confidence.value) <==> r.kind == Exact || r.confidence == Some(MultipleConfidence))
  {
  }

  // ---------------------------------------------------------------------
  // cleanOcrText
  // ---------------------------------------------------------------------

  /** The characters `[\w\s-]` that the punctuation strip keeps. */
  predicate KeptByClean(c: char) {
    IsWordChar(c) || IsWs(c) || c == '-'
  }

  predicate IsWordOrHyphen(c: char) {
    IsWordChar(c) || c == '-'
  }

  /** What can appear in cleaned text: lower-case ASCII letters, digits, `_`, `-` and the space. */
  predicate IsCleanChar(c: char) {
    ('a' <= c <= 'z') || ('0' <= c <= '9') || c == '_' || c == '-' || c == ' '
  }

  /**
   * `cleanOcrText`: trim, drop every character outside `[\w\s-]`, collapse
   * white-space runs to one space, lower-case. The result holds only clean
   * characters and never two spaces in a row.
   */
  function CleanOcrText(text: string): (r: string)
    ensures IsCleanText(r)
  {
    CleanedIsClean(text);
    Lower(CollapseWs(Filter(Trim(text), KeptByClean)))
  }

  /** Only clean characters, and never two spaces in a row. */
  predicate IsCleanText(r: string) {
    && (forall i :: 0 <= i < |r| ==> IsCleanChar(r[i]))
    && (forall i :: 0 <= i < |r| - 1 ==> !(r[i] == ' ' && r[i + 1] == ' '))
  }

  lemma CleanedIsClean(text: string)
    ensures IsCleanText(Lower(CollapseWs(Filter(Trim(text), KeptByClean))))
  {
    var kept := Filter(Trim(text), KeptByClean);
    CollapsedKeptIsClean(kept);
    CollapsedKeptHasSingleSpaces(kept);
  }

  /** A kept character other than white space, or the space, lower-cases to a clean character. */
  lemma CleanAfterLower(c: char)
    requires c == ' ' || (!IsWs(c) && KeptByClean(c))
    ensures IsCleanChar(LowerChar(c))
  {
  }

  lemma CollapsedKeptIsClean(kept: string)
    requires forall i :: 0 <= i < |kept| ==> KeptByClean(kept[i])
    ensures var r := Lower(CollapseWs(kept));
      forall i :: 0 <= i < |r| ==> IsCleanChar(r[i])
  {
    var collapsed := CollapseWs(kept);
    forall i | 0 <= i < |collapsed|
      ensures IsCleanChar(LowerChar(collapsed[i]))
    {
      if collapsed[i] != ' ' {
        var k :| 0 <= k < |kept| && kept[k] == collapsed[i];
      }
      CleanAfterLower(collapsed[i]);
    }
  }

  lemma CollapsedKeptHasSingleSpaces(kept: string)
    ensures var r := Lower(CollapseWs(kept));
      forall i :: 0 <= i < |r| - 1 ==> !(r[i] == ' ' && r[i + 1] == ' ')
  {
  }

  /** Keeping `[\w\s-]` and then dropping white space keeps exactly `[\w-]`. */
  lemma KeptNotWsIsWordOrHyphen(c: char)
    ensures IsWordOrHyphen(c) == (KeptByClean(c) && NotWs(c))
  {
    if IsWordOrHyphen(c) {
      assert 0x21 <= c as int <= 0x7E;
    }
  }

  /** The three stages of the cleaner, in order. */
  lemma CleanOcrTextStages(text: string)
    ensures CleanOcrText(text) == Lower(CollapseWs(Filter(Trim(text), KeptByClean)))
  {
  }

  /** Of the characters the strip keeps, the ones that are not white space are `[\w-]`. */
  lemma KeptWithoutWs(t: string)
    ensures Filter(Filter(t, KeptByClean), NotWs) == Filter(t, IsWordOrHyphen)
  {
    forall c: char
      ensures IsWordOrHyphen(c) == (KeptByClean(c) && NotWs(c))
    {
      KeptNotWsIsWordOrHyphen(c);
    }
    FilterFilter(t, KeptByClean, NotWs, IsWordOrHyphen);
  }

  /**
   * Apart from white space, the cleaned text is exactly the input's word
   * characters and hyphens, in order, lower-cased.
   */
  lemma CleanOcrTextContent(text: string)
    ensures Filter(CleanOcrText(text), NotWs) == Lower(Filter(text, IsWordOrHyphen))
  {
    var t := Trim(text);
    var kept := Filter(t, KeptByClean);
    var collapsed := CollapseWs(kept);
    CleanOcrTextStages(text);
    calc {
      Filter(CleanOcrText(text), NotWs);
      Filter(Lower(collapsed), NotWs);
      { LowerContent(collapsed); }
      Lower(Filter(collapsed, NotWs));
      { CollapseWsContent(kept); }
      Lower(Filter(kept, NotWs));
      { KeptWithoutWs(t); }
      Lower(Filter(t, IsWordOrHyphen));
      { FilterTrim(text, IsWordOrHyphen); }
      Lower(Filter(text, IsWordOrHyphen));
    }
  }

  /** Every character is one of `[\w-]`. */
  predicate IsWord(w: string) {
    forall i :: 0 <= i < |w| ==> IsWordOrHyphen(w[i])
  }

  /** Every character is visible ASCII punctuation outside `[\w\s-]`. */
  predicate IsPunctuation(p: string) {
    forall i :: 0 <= i < |p| ==> 0x21 <= p[i] as int <= 0x7E && !KeptByClean(p[i])
  }

  lemma WordIsKept(w: string)
    requires IsWord(w)
    ensures Filter(w, KeptByClean) == w && NoWs(w)
  {
    FilterKeepsAll(w, KeptByClean);
    NoWsVisible(w);
  }

  lemma PunctuationIsDropped(p: string)
    requires IsPunctuation(p)
    ensures Filter(p, KeptByClean) == []
  {
    FilterEmptyIff(p, KeptByClean);
  }

  /** A word of `[\w-]` followed by punctuation outside `[\w\s-]` cleans to the lower-cased word. */
  lemma CleanWordThenPunctuation(text: string, word: string, punct: string)
    requires text == word + punct
    requires word != [] && IsWord(word) && IsPunctuation(punct)
    ensures CleanOcrText(text) == Lower(word)
  {
    var s := text;
    assert s[0] == word[0];
    assert s[|s| - 1] == if punct == [] then word[|word| - 1] else punct[|punct| - 1];
    NotWsVisible(s[0]);
    NotWsVisible(s[|s| - 1]);
    TrimUnpadded(s);
    WordIsKept(word);
    PunctuationIsDropped(punct);
    FilterConcat(word, punct, KeptByClean);
    assert Filter(s, KeptByClean) == word;
    CollapseWsNoWsPrefix(word, []);
    assert word + [] == word;
    CleanOcrTextStages(s);
  }

  lemma CollapseTwoWords(w1: string, gap: string, w2: string)
    requires w1 != [] && w2 != [] && IsWord(w1) && IsWord(w2)
    requires gap != [] && AllWs(gap)
    ensures CollapseWs(w1 + gap + w2) == w1 + [' '] + w2
  {
    WordIsKept(w1);
    WordIsKept(w2);
    CollapseAroundRun(w1, gap, w2);
  }

  lemma CollapseAroundRun(a: string, gap: string, b: string)
    requires NoWs(a) && b != [] && NoWs(b) && gap != [] && AllWs(gap)
    ensures CollapseWs(a + gap + b) == a + [' '] + b
  {
    CollapseAfterWord(a, gap, b);
    CollapseRunBeforeWord(a, gap, b);
  }

  lemma CollapseAfterWord(a: string, gap: string, b: string)
    requires NoWs(a)
    ensures CollapseWs(a + gap + b) == a + CollapseWs(gap + b)
  {
    assert a + gap + b == a + (gap + b);
    CollapseWsNoWsPrefix(a, gap + b);
  }

  lemma CollapseRunBeforeWord(a: string, gap: string, b: string)
    requires gap != [] && AllWs(gap) && b != [] && NoWs(b)
    ensures a + CollapseWs(gap + b) == a + [' '] + b
  {
    CollapseWsRun(gap, b);
    CollapseWsFixed(b);
    assert a + ([' '] + b) == a + [' '] + b;
  }

  lemma KeepTwoWords(w1: string, gap: string, w2: string)
    requires IsWord(w1) && IsWord(w2) && AllWs(gap)
    ensures Filter(w1 + gap + w2, KeptByClean) == w1 + gap + w2
  {
    WordIsKept(w1);
    WordIsKept(w2);
    FilterKeepsAll(gap, KeptByClean);
    FilterConcat(w1 + gap, w2, KeptByClean);
    FilterConcat(w1, gap, KeptByClean);
  }

  /**
   * Two words of `[\w-]` separated by any white-space run and padded by any
   * white space clean to the two lower-cased words joined by one space.
   */
  lemma CleanTwoWords(text: string, pad1: string, w1: string, gap: string, w2: string, pad2: string)
    requires text == pad1 + w1 + gap + w2 + pad2
    requires AllWs(pad1) && AllWs(pad2) && gap != [] && AllWs(gap)
    requires w1 != [] && w2 != [] && IsWord(w1) && IsWord(w2)
    ensures CleanOcrText(text) == Lower(w1) + " " + Lower(w2)
  {
    var core := w1 + gap + w2;
    assert core[0] == w1[0] && core[|core| - 1] == w2[|w2| - 1];
    NotWsVisible(w1[0]);
    NotWsVisible(w2[|w2| - 1]);
    calc {
      CleanOcrText(text);
      { assert text == pad1 + core + pad2; }
      CleanOcrText(pad1 + core + pad2);
      { CleanOcrTextStages(pad1 + core + pad2); }
      Lower(CollapseWs(Filter(Trim(pad1 + core + pad2), KeptByClean)));
      { TrimPadded(pad1, core, pad2); }
      Lower(CollapseWs(Filter(core, KeptByClean)));
      { KeepTwoWords(w1, gap, w2); }
      Lower(CollapseWs(core));
      { CollapseTwoWords(w1, gap, w2); }
      Lower(w1 + [' '] + w2);
      { LowerConcat(w1 + [' '], w2); LowerConcat(w1, [' ']); }
      Lower(w1) + " " + Lower(w2);
    }
  }

  /** A word of `[\w-]` padded by any white space cleans to the lower-cased word. */
  lemma CleanPaddedWord(text: string, pad1: string, word: string, pad2: string)
    requires text == pad1 + word + pad2
    requires AllWs(pad1) && AllWs(pad2) && word != [] && IsWord(word)
    ensures CleanOcrText(text) == Lower(word)
  {
    NotWsVisible(word[0]);
    NotWsVisible(word[|word| - 1]);
    WordIsKept(word);
    calc {
      CleanOcrText(text);
      { CleanOcrTextStages(text); }
      Lower(CollapseWs(Filter(Trim(text), KeptByClean)));
      { TrimPadded(pad1, word, pad2); }
      Lower(CollapseWs(word));
      { CollapseWsNoWsPrefix(word, []); assert word + [] == word; }
      Lower(word);
    }
  }

  lemma KeepWordSpacePunctuation(word: string, gap: string, punct: string)
    requires IsWord(word) && AllWs(gap) && IsPunctuation(punct)
    ensures Filter(word + gap + punct, KeptByClean) == word + gap
  {
    WordIsKept(word);
    PunctuationIsDropped(punct);
    FilterKeepsAll(gap, KeptByClean);
    FilterConcat(word + gap, punct, KeptByClean);
    FilterConcat(word, gap, KeptByClean);
    assert word + gap + [] == word + gap;
  }

  lemma CollapseWordSpace(word: string, gap: string)
    requires IsWord(word) && gap != [] && AllWs(gap)
    ensures CollapseWs(word + gap) == word + [' ']
  {
    WordIsKept(word);
    CollapseWsNoWsPrefix(word, gap);
    CollapseWsRun(gap, []);
    assert gap + [] == gap;
  }

  /**
   * A word, then white space, then punctuation: trimming runs before the
   * punctuation is removed, so the space in front of it survives.
   */
  lemma CleanWordSpacePunctuation(text: string, word: string, gap: string, punct: string)
    requires text == word + gap + punct
    requires word != [] && IsWord(word) && gap != [] && AllWs(gap)
    requires punct != [] && IsPunctuation(punct)
    ensures CleanOcrText(text) == Lower(word) + " "
  {
    assert text[0] == word[0] && text[|text| - 1] == punct[|punct| - 1];
    NotWsVisible(word[0]);
    NotWsVisible(punct[|punct| - 1]);
    calc {
      CleanOcrText(text);
      { CleanOcrTextStages(text); }
      Lower(CollapseWs(Filter(Trim(text), KeptByClean)));
      { TrimUnpadded(text); }
      Lower(CollapseWs(Filter(word + gap + punct, KeptByClean)));
      { KeepWordSpacePunctuation(word, gap, punct); }
      Lower(CollapseWs(word + gap));
      { CollapseWordSpace(word, gap); }
      Lower(word + [' ']);
      { LowerConcat(word, [' ']); }
      Lower(word) + " ";
    }
  }

  // ---------------------------------------------------------------------
  // cleanOcrText with the trim moved last
  // ---------------------------------------------------------------------

  /** Clean text with no space at either end. */
  predicate IsTrimmedCleanText(r: string) {
    IsCleanText(r) && (r == [] || (r[0] != ' ' && r[|r| - 1] != ' '))
  }

  /**
   * The cleaner with the trim moved after the strip and the collapse, so
   * that white space left at either end by dropped punctuation goes too.
   * Its results are clean, unpadded, and cleaning them again changes nothing.
   */
  function CleanOcrTextTrimLast(text: string): (r: string)
    ensures IsTrimmedCleanText(r)
  {
    TrimLastIsClean(text);
    Lower(Trim(CollapseWs(Filter(text, KeptByClean))))
  }

  lemma TrimLastIsClean(text: string)
    ensures IsTrimmedCleanText(Lower(Trim(CollapseWs(Filter(text, KeptByClean)))))
  {
    CollapsedIsSpaced(Filter(text, KeptByClean));
    TrimmedSpacedIsClean(CollapseWs(Filter(text, KeptByClean)));
  }

  lemma TrimmedSpacedIsClean(c: string)
    requires IsSpacedKept(c)
    ensures IsTrimmedCleanText(Lower(Trim(c)))
  {
    TrimKeepsSpaced(c);
    LowerSpacedIsClean(Trim(c));
  }

  /** Kept characters and single spaces, never two spaces in a row. */
  predicate IsSpacedKept(c: string) {
    && (forall i :: 0 <= i < |c| ==> c[i] == ' ' || (!IsWs(c[i]) && KeptByClean(c[i])))
    && (forall i :: 0 <= i < |c| - 1 ==> !(c[i] == ' ' && c[i + 1] == ' '))
  }

  lemma CollapsedIsSpaced(kept: string)
    requires forall i :: 0 <= i < |kept| ==> KeptByClean(kept[i])
    ensures IsSpacedKept(CollapseWs(kept))
  {
    var c := CollapseWs(kept);
    forall i | 0 <= i < |c| && c[i] != ' '
      ensures KeptByClean(c[i])
    {
      var k :| 0 <= k < |kept| && kept[k] == c[i];
    }
  }

  lemma TrimKeepsSpaced(c: string)
    requires IsSpacedKept(c)
    ensures IsSpacedKept(Trim(c))
  {
    var k := TrimSlice(c);
    SliceIsSpaced(c, Trim(c), k);
  }

  lemma SliceIsSpaced(c: string, t: string, lo: nat)
    requires lo + |t| <= |c| && t == c[lo..lo + |t|] && IsSpacedKept(c)
    ensures IsSpacedKept(t)
  {
    assert forall i :: 0 <= i < |t| ==> t[i] == c[lo + i];
  }

  lemma LowerSpacedIsClean(t: string)
    requires IsSpacedKept(t)
    requires t == [] || (!IsWs(t[0]) && !IsWs(t[|t| - 1]))
    ensures IsTrimmedCleanText(Lower(t))
  {
    forall i | 0 <= i < |t|
      ensures IsCleanChar(LowerChar(t[i]))
    {
      CleanAfterLower(t[i]);
    }
  }

  /** A clean character other than the space is visible ASCII, so not white space. */
  lemma CleanCharIsKept(ch: char)
    requires IsCleanChar(ch)
    ensures KeptByClean(ch) && (IsWs(ch) ==> ch == ' ') && !('A' <= ch <= 'Z')
  {
    if ch != ' ' {
      NotWsVisible(ch);
    }
  }

  /** The corrected cleaner is idempotent: its output is a fixed point of every stage. */
  lemma CleanTrimLastIdempotent(text: string)
    ensures CleanOcrTextTrimLast(CleanOcrTextTrimLast(text)) == CleanOcrTextTrimLast(text)
  {
    var r := CleanOcrTextTrimLast(text);
    forall i | 0 <= i < |r|
      ensures KeptByClean(r[i]) && (IsWs(r[i]) ==> r[i] == ' ') && !('A' <= r[i] <= 'Z')
    {
      CleanCharIsKept(r[i]);
    }
    FilterKeepsAll(r, KeptByClean);
    CollapseWsFixed(r);
    if r != [] {
      CleanCharIsKept(r[0]);
      CleanCharIsKept(r[|r| - 1]);
    }
    TrimUnpadded(r);
    LowerFixed(r);
  }

  /**
   * A word, then white space, then punctuation: with the trim last, the
   * space left in front of the dropped punctuation is removed.
   */
  lemma CleanTrimLastWordSpacePunctuation(text: string, word: string, gap: string, punct: string)
    requires text == word + gap + punct
    requires word != [] && IsWord(word) && gap != [] && AllWs(gap) && IsPunctuation(punct)
    ensures CleanOcrTextTrimLast(text) == Lower(word)
  {
    KeepWordSpacePunctuation(word, gap, punct);
    CollapseWordSpace(word, gap);
    TrimWordSpace(word);
  }

  /** A word followed by one space trims to the word. */
  lemma TrimWordSpace(word: string)
    requires word != [] && IsWord(word)
    ensures Trim(word + [' ']) == word
  {
    NotWsVisible(word[0]);
    NotWsVisible(word[|word| - 1]);
    assert word + [' '] == [] + word + [' '];
    TrimPadded([], word, [' ']);
  }
}
