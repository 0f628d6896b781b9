/**
 * The `findMatchingProducts` cases of
 * __tests__/services/productMatching.test.ts, on the test catalog
 * [Coca Cola, Pepsi, Kit Kat], proved about the model.
 */
module FindMatchingExamples {
  import opened Types
  import opened Seqs
  import opened Text
  import opened ProductMatching

  const CocaCola: Product := Product("1", "Coca Cola", Some("Soft drink"), Some(250), None, None)
  const Pepsi: Product := Product("2", "Pepsi", Some("Soft drink"), Some(225), None, None)
  const KitKat: Product := Product("3", "Kit Kat", Some("Chocolate bar"), Some(150), None, None)
  const Catalog: seq<Product> := [CocaCola, Pepsi, KitKat]

  lemma CatalogNames()
    ensures Lower(CocaCola.name) == "coca cola"
    ensures Lower(Pepsi.name) == "pepsi"
    ensures Lower(KitKat.name) == "kit kat"
  {
    assert Lower("Coca Cola") == "coca cola";
    assert Lower("Pepsi") == "pepsi";
    assert Lower("Kit Kat") == "kit kat";
  }

  lemma SearchCocaCola(text: string)
    requires text == "Coca Cola" || text == "coca cola"
    ensures SearchText(text) == "coca cola"
  {
    assert Lower(text) == "coca cola";
    TrimUnpadded("coca cola");
  }

  /**
   * A product whose lower-cased name is shorter than the search text and
   * holds a character the search text lacks fails the first pass.
   */
  lemma NameMisses(search: string, p: Product, k: nat)
    requires |Lower(p.name)| < |search|
    requires k < |Lower(p.name)|
    requires forall i :: 0 <= i < |search| ==> search[i] != Lower(p.name)[k]
    ensures !NameMatches(search, p)
  {
    NotContainsMissingChar(search, Lower(p.name), k);
  }

  lemma PepsiAndKitKatMissCocaCola(search: string)
    requires search == "coca cola"
    ensures !NameMatches(search, Pepsi) && !NameMatches(search, KitKat)
  {
    CatalogNames();
    NameMisses(search, Pepsi, 0);
    NameMisses(search, KitKat, 0);
  }

  /** Text whose search form is `coca cola` picks out Coca Cola alone. */
  lemma ExactForCocaCola(text: string)
    requires SearchText(text) == "coca cola"
    ensures FindMatchingProducts(text, Catalog) == MatchResult(Exact, Some([CocaCola]), Some(1.0))
  {
    AllWsLower(text);
    OnlyCocaColaMatchesCocaCola(SearchText(text));
    ExactWhenUnique(text, Catalog, 0);
  }

  lemma OnlyCocaColaMatchesCocaCola(search: string)
    requires search == "coca cola"
    ensures OnlyNameMatch(search, Catalog, 0)
  {
    CatalogNames();
    assert NameMatches(search, CocaCola);
    PepsiAndKitKatMissCocaCola(search);
  }

  /** Identical text and the lower-cased text both pick out Coca Cola alone. */
  lemma ExactForFullName(text: string)
    requires text == "Coca Cola" || text == "coca cola"
    ensures FindMatchingProducts(text, Catalog) == MatchResult(Exact, Some([CocaCola]), Some(1.0))
  {
    SearchCocaCola(text);
    ExactForCocaCola(text);
  }

  /**
   * A product whose lower-cased name is longer than the search text and
   * lacks one of its characters fails the first pass.
   */
  lemma NameMissesLonger(search: string, p: Product, k: nat)
    requires |search| < |Lower(p.name)|
    requires k < |search|
    requires forall i :: 0 <= i < |Lower(p.name)| ==> Lower(p.name)[i] != search[k]
    ensures !NameMatches(search, p)
  {
    NotContainsMissingChar(Lower(p.name), search, k);
  }

  lemma SearchCola(text: string)
    requires text == "Cola"
    ensures SearchText(text) == "cola"
  {
    assert Lower(text) == "cola";
    TrimUnpadded("cola");
  }

  lemma CocaColaContainsCola(search: string)
    requires search == "cola"
    ensures NameMatches(search, CocaCola)
  {
    CatalogNames();
    assert OccursAt("coca cola", search, 5);
    ContainsAt("coca cola", search);
  }

  lemma PepsiAndKitKatMissCola(search: string)
    requires search == "cola"
    ensures !NameMatches(search, Pepsi) && !NameMatches(search, KitKat)
  {
    CatalogNames();
    NameMissesLonger(search, Pepsi, 0);
    NameMissesLonger(search, KitKat, 0);
  }

  /** Text whose search form is `cola` picks out Coca Cola alone, by containment. */
  lemma ExactForCola(text: string)
    requires SearchText(text) == "cola"
    ensures FindMatchingProducts(text, Catalog) == MatchResult(Exact, Some([CocaCola]), Some(1.0))
  {
    AllWsLower(text);
    OnlyCocaColaMatchesCola(SearchText(text));
    ExactWhenUnique(text, Catalog, 0);
  }

  lemma OnlyCocaColaMatchesCola(search: string)
    requires search == "cola"
    ensures OnlyNameMatch(search, Catalog, 0)
  {
    CocaColaContainsCola(search);
    PepsiAndKitKatMissCola(search);
  }

  /** A substring of one name picks out that product. */
  lemma ExactForSubstring(text: string)
    requires text == "Cola"
    ensures FindMatchingProducts(text, Catalog) == MatchResult(Exact, Some([CocaCola]), Some(1.0))
  {
    SearchCola(text);
    ExactForCola(text);
  }

  lemma LowerSprite(text: string)
    requires text == "Sprite"
    ensures Lower(text) == "sprite"
  {
  }

  lemma SpriteIsOneWord(search: string)
    requires search == "sprite"
    ensures NoWs(search)
  {
    NoWsVisible(search);
  }

  lemma SearchSprite(text: string)
    requires text == "Sprite"
    ensures SearchText(text) == "sprite"
  {
    LowerSprite(text);
    TrimUnpadded("sprite");
  }

  /** `pepsi` shares every letter with `sprite` but occurs at neither offset. */
  lemma SpriteLacksPepsi(search: string)
    requires search == "sprite"
    ensures !Contains(search, "pepsi")
  {
    ContainsAt(search, "pepsi");
    forall i | 0 <= i && i + 5 <= |search|
      ensures !OccursAt(search, "pepsi", i)
    {
      assert search[i..i + 5][1] == search[i + 1];
    }
  }

  lemma CocaColaAndKitKatMissSprite(search: string)
    requires search == "sprite"
    ensures !NameMatches(search, CocaCola) && !NameMatches(search, KitKat)
  {
    CatalogNames();
    NameMissesLonger(search, CocaCola, 0);
    NameMissesLonger(search, KitKat, 0);
  }

  lemma PepsiMissesSprite(search: string)
    requires search == "sprite"
    ensures !NameMatches(search, Pepsi)
  {
    CatalogNames();
    SpriteLacksPepsi(search);
  }

  lemma NothingMatchesSprite(search: string)
    requires search == "sprite"
    ensures forall j :: 0 <= j < |Catalog| ==> !NameMatches(search, Catalog[j])
  {
    CocaColaAndKitKatMissSprite(search);
    PepsiMissesSprite(search);
  }

  /** Text whose search form is `sprite` matches nothing, and the fallback adds nothing. */
  lemma NoneForSprite(text: string)
    requires SearchText(text) == "sprite"
    ensures FindMatchingProducts(text, Catalog) == MatchResult(NoMatch, None, None)
  {
    SpriteIsOneWord(SearchText(text));
    NothingMatchesSprite(SearchText(text));
    NoneForUnmatchedWord(text, Catalog);
  }

  lemma NoneForNonExistentProduct(text: string)
    requires text == "Sprite"
    ensures FindMatchingProducts(text, Catalog) == MatchResult(NoMatch, None, None)
  {
    SearchSprite(text);
    NoneForSprite(text);
  }

  lemma SearchKatKit(text: string)
    requires text == "Kat Kit"
    ensures SearchText(text) == "kat kit"
  {
    assert Lower(text) == "kat kit";
    TrimUnpadded("kat kit");
  }

  /** `kat kit` splits into its two words. */
  lemma SplitKatKit(search: string)
    requires search == "kat kit"
    ensures SplitWs(search) == ["kat", "kit"]
  {
    NoWsVisible("kat");
    NoWsVisible("kit");
    assert search == "kat" + " " + "kit";
    SplitWsWordRun("kat", " ", "kit");
    assert WsIndex("kit") == 3;
    SplitWsWhole("kit");
  }

  lemma KitKatHoldsKat(name: string, word: string)
    requires name == "kit kat" && word == "kat"
    ensures TokenMatches(name, word)
  {
    assert OccursAt(name, word, 4);
    ContainsAt(name, word);
  }

  lemma KitKatHoldsKit(name: string, word: string)
    requires name == "kit kat" && word == "kit"
    ensures TokenMatches(name, word)
  {
    assert OccursAt(name, word, 0);
    ContainsAt(name, word);
  }

  lemma KitKatHoldsWords(name: string, words: seq<string>)
    requires name == "kit kat" && words == ["kat", "kit"]
    ensures forall i :: 0 <= i < |words| ==> TokenMatches(name, words[i])
  {
    KitKatHoldsKat(name, words[0]);
    KitKatHoldsKit(name, words[1]);
  }

  /** Kit Kat holds both words of `kat kit`, so it passes the token test. */
  lemma KitKatTokensMatch(search: string)
    requires search == "kat kit"
    ensures TokensMatch(search, KitKat)
  {
    CatalogNames();
    SplitKatKit(search);
    KitKatHoldsWords(Lower(KitKat.name), SplitWs(search));
  }

  /** A name without the letter `k` holds neither `kat` nor, being no shorter, is held by it. */
  lemma MissesKat(name: string, word: string)
    requires name == "coca cola" || name == "pepsi"
    requires word == "kat"
    ensures !TokenMatches(name, word)
  {
    NotContainsMissingChar(name, word, 0);
  }

  /** Neither Coca Cola nor Pepsi holds the word `kat`, so both fail the token test. */
  lemma CocaColaAndPepsiMissKat(search: string)
    requires search == "kat kit"
    ensures !TokensMatch(search, CocaCola) && !TokensMatch(search, Pepsi)
  {
    CatalogNames();
    SplitKatKit(search);
    var words := SplitWs(search);
    MissesKat(Lower(CocaCola.name), words[0]);
    MissesKat(Lower(Pepsi.name), words[0]);
  }

  /** `kit kat` and `kat kit` have the same length but differ, so neither contains the other. */
  lemma KitKatMissesKatKit(search: string)
    requires search == "kat kit"
    ensures !NameMatches(search, KitKat)
  {
    CatalogNames();
    var name := Lower(KitKat.name);
    assert name[1] != search[1];
    NotContainsSameLength(name, search);
    NotContainsSameLength(search, name);
  }

  lemma NothingMatchesKatKit(search: string)
    requires search == "kat kit"
    ensures forall j :: 0 <= j < |Catalog| ==> !NameMatches(search, Catalog[j])
  {
    KatKitMissesColaAndPepsi(search);
    KitKatMissesKatKit(search);
    NoneOfThree(search, CocaCola, Pepsi, KitKat);
  }

  lemma NoneOfThree(search: string, a: Product, b: Product, c: Product)
    requires !NameMatches(search, a) && !NameMatches(search, b) && !NameMatches(search, c)
    ensures forall j :: 0 <= j < 3 ==> !NameMatches(search, [a, b, c][j])
  {
  }

  lemma KatKitMissesColaAndPepsi(search: string)
    requires search == "kat kit"
    ensures !NameMatches(search, CocaCola) && !NameMatches(search, Pepsi)
  {
    CatalogNames();
    NameMissesLonger(search, CocaCola, 0);
    NameMisses(search, Pepsi, 0);
  }

  lemma OnlyKitKatHasTokens(search: string)
    requires search == "kat kit"
    ensures OnlyTokenMatch(search, Catalog, 2)
  {
    KitKatTokensMatch(search);
    CocaColaAndPepsiMissKat(search);
    OnlyLastOfThree(search, CocaCola, Pepsi, KitKat);
  }

  lemma OnlyLastOfThree(search: string, a: Product, b: Product, c: Product)
    requires !TokensMatch(search, a) && !TokensMatch(search, b) && TokensMatch(search, c)
    ensures OnlyTokenMatch(search, [a, b, c], 2)
  {
  }

  /**
   * The words of `Kat Kit` in the other order: no name passes the first pass,
   * and the token fallback finds Kit Kat alone, at confidence 0.7.
   */
  lemma FallbackForKatKit(text: string)
    requires text == "Kat Kit"
    ensures FindMatchingProducts(text, Catalog) == MatchResult(Multiple, Some([KitKat]), Some(0.7))
  {
    SearchKatKit(text);
    assert !IsWs(text[0]);
    NothingMatchesKatKit(SearchText(text));
    OnlyKitKatHasTokens(SearchText(text));
    FallbackWhenUnique(text, Catalog, 2);
  }

  lemma NoneForEmptyInput()
    ensures FindMatchingProducts("", Catalog) == MatchResult(NoMatch, None, None)
  {
    BlankOrEmptyGivesNone("", Catalog);
  }

  lemma NoneForEmptyCatalog(text: string)
    requires text == "Coca Cola"
    ensures FindMatchingProducts(text, []) == MatchResult(NoMatch, None, None)
  {
    BlankOrEmptyGivesNone(text, []);
  }
}
