/**
 * The concrete cases of __tests__/services/productMatching.test.ts, proved
 * about the model. Each case takes its input as a parameter fixed by its
 * precondition, so that the verifier reasons from the general lemmas
 * instead of evaluating the cleaner on a literal.
 */
module ProductMatchingExamples {
  import opened Types
  import opened Seqs
  import opened Text
  import opened ProductMatching

  lemma CleanEmpty()
    ensures CleanOcrText("") == ""
  {
  }

  lemma LowerCocaHyphenCola()
    ensures Lower("Coca-Cola") == "coca-cola"
  {
  }

  /** Special characters other than the hyphen are removed. */
  lemma CleanRemovesSpecialCharacters(text: string)
    requires text == "Coca-Cola!"
    ensures CleanOcrText(text) == "coca-cola"
  {
    assert IsWord("Coca-Cola");
    assert IsPunctuation("!");
    assert text == "Coca-Cola" + "!";
    CleanWordThenPunctuation(text, "Coca-Cola", "!");
    LowerCocaHyphenCola();
  }

  lemma LowerTwoWords()
    ensures Lower("Coca") + " " + Lower("Cola") == "coca cola"
    ensures Lower("COCA") + " " + Lower("COLA") == "coca cola"
  {
    assert Lower("Coca") == "coca" && Lower("Cola") == "cola";
    assert Lower("COCA") == "coca" && Lower("COLA") == "cola";
  }

  /** Padding is trimmed and the inner run of spaces becomes one space. */
  lemma CleanNormalizesWhitespace(text: string)
    requires text == "  Coca   Cola  "
    ensures CleanOcrText(text) == "coca cola"
  {
    assert AllWs("  ") && AllWs("   ");
    assert IsWord("Coca") && IsWord("Cola");
    assert text == "  " + "Coca" + "   " + "Cola" + "  ";
    CleanTwoWords(text, "  ", "Coca", "   ", "Cola", "  ");
    LowerTwoWords();
  }

  lemma CleanLowerCases(text: string)
    requires text == "COCA COLA"
    ensures CleanOcrText(text) == "coca cola"
  {
    assert AllWs("") && AllWs(" ");
    assert IsWord("COCA") && IsWord("COLA");
    assert text == "" + "COCA" + " " + "COLA" + "";
    CleanTwoWords(text, "", "COCA", " ", "COLA", "");
    LowerTwoWords();
  }

  lemma LowerCola()
    ensures Lower("Cola") + " " == "cola "
    ensures Lower("cola") == "cola"
  {
    assert Lower("Cola") == "cola";
  }

  /** "Cola !" is a word, a space and punctuation. */
  lemma ColaSpaceBangShape(text: string)
    requires text == "Cola !"
    ensures text == "Cola" + " " + "!" && IsWord("Cola") && AllWs(" ") && IsPunctuation("!")
  {
  }

  lemma CleanColaSpaceBang(text: string)
    requires text == "Cola !"
    ensures CleanOcrText(text) == "cola "
  {
    ColaSpaceBangShape(text);
    CleanWordSpacePunctuation(text, "Cola", " ", "!");
    LowerCola();
  }

  lemma CleanColaSpace(text: string)
    requires text == "cola "
    ensures CleanOcrText(text) == "cola"
  {
    assert IsWord("cola") && AllWs("") && AllWs(" ");
    assert text == "" + "cola" + " ";
    CleanPaddedWord(text, "", "cola", " ");
    LowerCola();
  }

  /**
   * Cleaning is not idempotent: a space in front of stripped punctuation is
   * kept on the first pass and trimmed on the second.
   */
  lemma CleanNotIdempotent(text: string)
    requires text == "Cola !"
    ensures CleanOcrText(CleanOcrText(text)) != CleanOcrText(text)
  {
    CleanColaSpaceBang(text);
    CleanColaSpace(CleanOcrText(text));
  }

  /** With the trim moved last, the same input cleans to the bare word in one pass. */
  lemma TrimLastCleansColaSpaceBang(text: string)
    requires text == "Cola !"
    ensures CleanOcrTextTrimLast(text) == "cola"
  {
    ColaSpaceBangShape(text);
    CleanTrimLastWordSpacePunctuation(text, "Cola", " ", "!");
    LowerCola();
  }
}
