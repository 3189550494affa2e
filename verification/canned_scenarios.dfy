/**
 * Concrete conversations with the chat page's canned-reply selection: an
 * earlier entry beats a later one, a Bengali sentence finds its keyword, and a
 * misspelling is corrected only when it is the whole text.
 *
 * Each lemma takes the typed text as a parameter fixed by its requires, and
 * each conversation is split into its cleaning step and its matching step, so
 * that the verifier reasons from the lemmas about cleaning and matching rather
 * than by evaluating the whole pipeline on a literal.
 */
module CannedScenarios {
  import JsText
  import Canned

  lemma ThisPriceSelectsHi(text: string)
    requires text == "this price"
    ensures Canned.SelectReply(Canned.Table, text) == Canned.Table[1].1
  {
    Canned.MissingChar(text, Canned.Table[0].0, 'র');
    assert JsText.OccursAt(text, "hi", 1);
    JsText.IncludesIff(text, "hi");
    Canned.TableReplyAt(text, 1);
  }

  /** "this price" holds both "hi" and "price"; the earlier entry, "hi", wins. */
  lemma EarlierEntryWins(message: string)
    requires message == "this price"
    ensures Canned.ReplyTo(Canned.Table, message) == Canned.Table[1].1
  {
    Canned.CleanTextUnchanged(message);
    ThisPriceSelectsHi(message);
    Canned.ReplyThroughCorrected(message, message);
  }

  lemma SentenceSelectsFasting(text: string)
    requires text == "আমি রোজা রাখতে চাই"
    ensures Canned.SelectReply(Canned.Table, text) == Canned.Table[0].1
  {
    assert JsText.OccursAt(text, Canned.Canonical, 4);
    JsText.IncludesIff(text, Canned.Canonical);
    Canned.TableReplyAt(text, 0);
  }

  /** A Bengali sentence holding the canonical word gets the fasting reply. */
  lemma BengaliSentenceMatches(message: string)
    requires message == "আমি রোজা রাখতে চাই"
    ensures Canned.ReplyTo(Canned.Table, message) == Canned.Table[0].1
  {
    Canned.CleanTextUnchanged(message);
    SentenceSelectsFasting(message);
    Canned.ReplyThroughCorrected(message, message);
  }

  lemma CanonicalSelectsFasting(text: string)
    requires text == Canned.Canonical
    ensures Canned.SelectReply(Canned.Table, text) == Canned.Table[0].1
  {
    assert JsText.Includes(text, text) by { assert text <= text; }
    Canned.TableReplyAt(text, 0);
  }

  lemma LowerCaseOf(message: string, lowered: string)
    requires |message| == |lowered|
    requires forall k :: 0 <= k < |message| ==> Canned.LowerChar(message[k]) == [lowered[k]]
    ensures Canned.ToLower(message) == lowered
    decreases |message|
  {
    if message != [] {
      LowerCaseOf(message[1..], lowered[1..]);
      assert lowered == [lowered[0]] + lowered[1..];
    }
  }

  /** A misspelling typed alone, in any letter case, is corrected and matched. */
  lemma LoneMisspellingMatches(message: string)
    requires message == "Roza"
    ensures Canned.ReplyTo(Canned.Table, message) == Canned.Table[0].1
  {
    LowerCaseOf(message, "roza");
    Canned.CleanIsLowerCase(message);
    CanonicalSelectsFasting(Canned.Canonical);
    Canned.ReplyThroughCorrected(message, Canned.Canonical);
  }

  lemma PhraseSelectsNothing(text: string)
    requires text == "roza please"
    ensures Canned.SelectReply(Canned.Table, text) == Canned.Fallback
  {
    Canned.MissesEveryKey(text, "রhhicb");
  }

  lemma PhraseLowerCase(message: string)
    requires message == "ROZA please"
    ensures Canned.ToLower(message) == "roza please"
  {
    LowerCaseOf(message, "roza please");
  }

  lemma PhraseCleaned(message: string)
    requires message == "ROZA please"
    ensures Canned.CorrectSpelling(Canned.Clean(message)) == "roza please"
  {
    PhraseLowerCase(message);
    Canned.CleanIsLowerCase(message);
    Canned.PhraseNotCorrected();
  }

  /** A misspelling inside a phrase is not corrected, and no key occurs: the fallback is shown. */
  lemma PhraseWithMisspellingFallsBack(message: string)
    requires message == "ROZA please"
    ensures Canned.ReplyTo(Canned.Table, message) == Canned.Fallback
  {
    PhraseCleaned(message);
    var phrase := Canned.CorrectSpelling(Canned.Clean(message));
    PhraseSelectsNothing(phrase);
    Canned.ReplyThroughCorrected(message, phrase);
  }

  lemma ConstructorSelectsNothing(text: string)
    requires text == "constructor"
    ensures Canned.SelectReply(Canned.Table, text) == Canned.Fallback
  {
    Canned.MissesEveryKey(text, "রhhpab");
  }

  /**
   * Typing "constructor": as written, the spelling lookup returns the inherited
   * `Object` constructor, `.includes` throws and the page shows its apology,
   * although no key occurs and the intended reply is the fallback.
   */
  lemma ConstructorShowsApologyAsWritten(message: string)
    requires message == "constructor"
    ensures Canned.ReplyAsWritten(message).None?
    ensures Canned.ReplyTo(Canned.Table, message) == Canned.Fallback
  {
    Canned.CleanFixed(message);
    Canned.AsWrittenDeparture(message);
    Canned.CleanTextUnchanged(message);
    ConstructorSelectsNothing(message);
    Canned.ReplyThroughCorrected(message, message);
  }

  lemma QuestionCleaned(message: string, word: string)
    requires message == "price?" && word == "price"
    ensures Canned.Clean(message) == word
  {
    assert message == word + ['?'];
    assert forall i :: 0 <= i < |word| ==> Canned.IsCleanChar(word[i]);
    Canned.TrailingDropped(word, '?');
  }

  lemma PriceSelectsPrice(text: string)
    requires text == "price"
    ensures Canned.SelectReply(Canned.Table, text) == Canned.Table[3].1
  {
    Canned.MissingChar(text, Canned.Table[0].0, 'র');
    Canned.MissingChar(text, Canned.Table[1].0, 'h');
    Canned.MissingChar(text, Canned.Table[2].0, 'h');
    assert JsText.Includes(text, Canned.Table[3].0) by { assert Canned.Table[3].0 <= text; }
    Canned.TableReplyAt(text, 3);
  }

  /** Punctuation is removed before matching: "price?" gets the price answer. */
  lemma PunctuationIgnored(message: string)
    requires message == "price?"
    ensures Canned.ReplyTo(Canned.Table, message) == Canned.Table[3].1
  {
    QuestionCleaned(message, "price");
    var corrected := Canned.CorrectSpelling(Canned.Clean(message));
    assert corrected == "price";
    PriceSelectsPrice(corrected);
  }
}
