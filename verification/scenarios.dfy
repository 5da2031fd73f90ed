/** Worked examples of `predict`, for any character model that agrees with
    Python on ASCII. */
module Scenarios {
  import opened Wrappers
  import opened Json
  import opened Text
  import opened Lexicon
  import opened Pipeline
  import Config

  /** Words spelled with ASCII letters, digits and underscores are words of
      any character model that agrees with Python on ASCII. */
  lemma AsciiWords(cs: CharModel, ws: seq<string>)
    requires AgreesOnAscii(cs)
    requires forall i :: 0 <= i < |ws| ==> |ws[i]| > 0 && forall k :: 0 <= k < |ws[i]| ==> ws[i][k] < '\U{80}' && AsciiWord(ws[i][k])
    ensures forall i :: 0 <= i < |ws| ==> IsWord(ws[i], cs.isWord)
  {
  }

  /** Words joined by a separator and closed by punctuation tokenise back to
      the words. */
  lemma JoinedTokens(ws: seq<string>, sep: char, tail: char, isWord: char -> bool)
    requires forall i :: 0 <= i < |ws| ==> IsWord(ws[i], isWord)
    requires !isWord(sep) && !isWord(tail)
    ensures Tokens(Join(ws, sep) + [tail], isWord) == ws
  {
    TokensOfJoin(ws, sep, isWord);
    TokensSnocSep(Join(ws, sep), tail, isWord);
  }

  /** ASCII text that neither starts nor ends with whitespace is its own strip. */
  lemma AsciiStripped(cs: CharModel, s: string)
    requires AgreesOnAscii(cs)
    requires |s| > 0 && s[0] < '\U{80}' && s[|s| - 1] < '\U{80}'
    requires !AsciiSpace(s[0]) && !AsciiSpace(s[|s| - 1])
    ensures Strip(s, cs.isSpace) == s
  {
    assert s == [] + s + [];
    StripSplit([], s, [], cs.isSpace);
  }

  /** Without a classifier, a text that is its own strip is decided by the
      hit counts of its words in the selected lexicon. */
  lemma FallbackFromTokens(p: SentimentPipeline, cs: CharModel, text: string, language: Option<string>,
                           low: string, ts: seq<string>, lang: Lang, pos: nat, neg: nat)
    requires p.handle.None? && text != [] && Strip(text, cs.isSpace) == text
    requires Lower(text, cs.lower) == low && Tokens(low, cs.isWord) == ts
    requires SelectLanguage(language, cs.lower) == lang
    requires |(set w | w in ts) * Positives(lang)| == pos && |(set w | w in ts) * Negatives(lang)| == neg
    ensures Predict(p, cs, text, language)
      == Success(Prediction(JStr(Decide(pos, neg).sentiment.Name()), Decide(pos, neg).confidence))
  {
  }

  /** Five words separated by a non-word character and closed by another
      tokenise back to the five words. */
  lemma FiveWordTokens(a: string, b: string, c: string, d: string, e: string, sep: char, tail: char, isWord: char -> bool)
    requires IsWord(a, isWord) && IsWord(b, isWord) && IsWord(c, isWord) && IsWord(d, isWord) && IsWord(e, isWord)
    requires !isWord(sep) && !isWord(tail)
    ensures Tokens(a + [sep] + (b + [sep] + (c + [sep] + (d + [sep] + (e + [tail])))), isWord) == [a, b, c, d, e]
  {
    ClosedPairTokens(d, e, sep, tail, isWord);
    var r3 := d + [sep] + (e + [tail]);
    var r2 := c + [sep] + r3;
    TokensCons(c, sep, r3, isWord);
    var r1 := b + [sep] + r2;
    TokensCons(b, sep, r2, isWord);
    TokensCons(a, sep, r1, isWord);
  }

  /** Two words separated by a non-word character and closed by another. */
  lemma ClosedPairTokens(d: string, e: string, sep: char, tail: char, isWord: char -> bool)
    requires IsWord(d, isWord) && IsWord(e, isWord)
    requires !isWord(sep) && !isWord(tail)
    ensures Tokens(d + [sep] + (e + [tail]), isWord) == [d, e]
  {
    TokensSingle(e, isWord);
    TokensSnocSep(e, tail, isWord);
    TokensCons(d, sep, e + [tail], isWord);
  }

  /** The tokens of the lower-cased English example. */
  lemma LoveIsPositiveTokens(isWord: char -> bool)
    requires forall i :: 0 <= i < 5 ==> IsWord(["i", "absolutely", "love", "this", "product"][i], isWord)
    requires !isWord(' ') && !isWord('!')
    ensures Tokens("i absolutely love this product!", isWord) == ["i", "absolutely", "love", "this", "product"]
  {
    var ws := ["i", "absolutely", "love", "this", "product"];
    assert IsWord(ws[0], isWord) && IsWord(ws[1], isWord) && IsWord(ws[2], isWord);
    assert IsWord(ws[3], isWord) && IsWord(ws[4], isWord);
    FiveWordTokens("i", "absolutely", "love", "this", "product", ' ', '!', isWord);
    LoveIsPositiveSpelling();
  }

  lemma LoveIsPositiveSpelling()
    ensures "i" + [' '] + ("absolutely" + [' '] + ("love" + [' '] + ("this" + [' '] + ("product" + ['!']))))
      == "i absolutely love this product!"
  {
  }

  /** The tokens of the lower-cased French example: the apostrophe splits
      "c'est". */
  lemma MauvaisIsNegativeTokens(isWord: char -> bool)
    requires forall i :: 0 <= i < 5 ==> IsWord(["c", "est", "un", "mauvais", "film"][i], isWord)
    requires !isWord(' ') && !isWord('\'')
    ensures Tokens("c'est un mauvais film", isWord) == ["c", "est", "un", "mauvais", "film"]
  {
    var ws := ["c", "est", "un", "mauvais", "film"];
    assert IsWord(ws[0], isWord) && IsWord(ws[1], isWord) && IsWord(ws[2], isWord);
    assert IsWord(ws[3], isWord) && IsWord(ws[4], isWord);
    ElidedFiveWordTokens("c", "est", "un", "mauvais", "film", '\'', ' ', isWord);
    MauvaisIsNegativeSpelling();
  }

  /** A word, an elision mark, then four words separated by a non-word
      character: five tokens. */
  lemma ElidedFiveWordTokens(a: string, b: string, c: string, d: string, e: string, mark: char, sep: char,
                             isWord: char -> bool)
    requires IsWord(a, isWord) && IsWord(b, isWord) && IsWord(c, isWord) && IsWord(d, isWord) && IsWord(e, isWord)
    requires !isWord(mark) && !isWord(sep)
    ensures Tokens(a + [mark] + (b + [sep] + (c + [sep] + (d + [sep] + e))), isWord) == [a, b, c, d, e]
  {
    FourWordTokens(b, c, d, e, sep, isWord);
    TokensCons(a, mark, b + [sep] + (c + [sep] + (d + [sep] + e)), isWord);
  }

  /** Four words separated by a non-word character tokenise back to the four
      words. */
  lemma FourWordTokens(a: string, b: string, c: string, d: string, sep: char, isWord: char -> bool)
    requires IsWord(a, isWord) && IsWord(b, isWord) && IsWord(c, isWord) && IsWord(d, isWord)
    requires !isWord(sep)
    ensures Tokens(a + [sep] + (b + [sep] + (c + [sep] + d)), isWord) == [a, b, c, d]
  {
    TokensSingle(d, isWord);
    TokensCons(c, sep, d, isWord);
    var r2 := c + [sep] + d;
    TokensCons(b, sep, r2, isWord);
    TokensCons(a, sep, b + [sep] + r2, isWord);
  }

  lemma MauvaisIsNegativeSpelling()
    ensures "c" + ['\''] + ("est" + [' '] + ("un" + [' '] + ("mauvais" + [' '] + "film")))
      == "c'est un mauvais film"
  {
  }

  lemma FineIsNeutralTokens(isWord: char -> bool)
    requires forall i :: 0 <= i < 3 ==> IsWord(["this", "is", "fine"][i], isWord)
    requires !isWord(' ') && !isWord('.')
    ensures Tokens("this is fine.", isWord) == ["this", "is", "fine"]
  {
    var ws := ["this", "is", "fine"];
    JoinedTokens(ws, ' ', '.', isWord);
    assert Join(ws, ' ') + ['.'] == "this is fine.";
  }


  lemma LoveIsPositiveFacts(cs: CharModel)
    requires AgreesOnAscii(cs)
    ensures Strip("I absolutely love this product!", cs.isSpace) == "I absolutely love this product!"
    ensures Lower("I absolutely love this product!", cs.lower) == "i absolutely love this product!"
    ensures Tokens("i absolutely love this product!", cs.isWord) == ["i", "absolutely", "love", "this", "product"]
    ensures SelectLanguage(Some("en"), cs.lower) == En
  {
    AsciiStripped(cs, "I absolutely love this product!");
    LoveIsPositiveLower(cs);
    LoveIsPositiveWords(cs);
    SelectLanguageExamples(cs, Some("en"));
  }

  lemma LoveIsPositiveLower(cs: CharModel)
    requires AgreesOnAscii(cs)
    ensures Lower("I absolutely love this product!", cs.lower) == "i absolutely love this product!"
  {
    LowerAscii(cs, "I absolutely love this product!", "i absolutely love this product!");
  }

  lemma LoveIsPositiveWords(cs: CharModel)
    requires AgreesOnAscii(cs)
    ensures Tokens("i absolutely love this product!", cs.isWord) == ["i", "absolutely", "love", "this", "product"]
  {
    AsciiWords(cs, ["i", "absolutely", "love", "this", "product"]);
    LoveIsPositiveTokens(cs.isWord);
  }

  lemma LoveIsPositiveCounts()
    ensures |(set w | w in ["i", "absolutely", "love", "this", "product"]) * Positives(En)| == 1
    ensures |(set w | w in ["i", "absolutely", "love", "this", "product"]) * Negatives(En)| == 0
  {
    var ws := set w | w in ["i", "absolutely", "love", "this", "product"];
    assert ws == {"i", "absolutely", "love", "this", "product"};
    LoveIsPositiveHits();
  }

  lemma LoveIsPositiveHits()
    ensures {"i", "absolutely", "love", "this", "product"} * Positives(En) == {"love"}
    ensures {"i", "absolutely", "love", "this", "product"} * Negatives(En) == {}
  {
  }

  /** "I absolutely love this product!" in English, without a classifier:
      one positive trigger ("love"), so positive at 0.6. */
  lemma LoveIsPositive(p: SentimentPipeline, cs: CharModel)
    requires AgreesOnAscii(cs) && p.handle.None?
    ensures Predict(p, cs, "I absolutely love this product!", Some("en")) == Success(Prediction(JStr("positive"), 0.6))
  {
    LoveIsPositiveFacts(cs);
    LoveIsPositiveCounts();
    FallbackFromTokens(p, cs, "I absolutely love this product!", Some("en"), "i absolutely love this product!", ["i", "absolutely", "love", "this", "product"], En, 1, 0);
  }

  lemma MauvaisIsNegativeFacts(cs: CharModel)
    requires AgreesOnAscii(cs)
    ensures Strip("C'est un mauvais film", cs.isSpace) == "C'est un mauvais film"
    ensures Lower("C'est un mauvais film", cs.lower) == "c'est un mauvais film"
    ensures Tokens("c'est un mauvais film", cs.isWord) == ["c", "est", "un", "mauvais", "film"]
    ensures SelectLanguage(Some("fr"), cs.lower) == Fr
  {
    AsciiStripped(cs, "C'est un mauvais film");
    MauvaisIsNegativeLower(cs);
    MauvaisIsNegativeWords(cs);
    SelectLanguageExamples(cs, Some("fr"));
  }

  lemma MauvaisIsNegativeLower(cs: CharModel)
    requires AgreesOnAscii(cs)
    ensures Lower("C'est un mauvais film", cs.lower) == "c'est un mauvais film"
  {
    LowerAscii(cs, "C'est un mauvais film", "c'est un mauvais film");
  }

  lemma MauvaisIsNegativeWords(cs: CharModel)
    requires AgreesOnAscii(cs)
    ensures Tokens("c'est un mauvais film", cs.isWord) == ["c", "est", "un", "mauvais", "film"]
  {
    AsciiWords(cs, ["c", "est", "un", "mauvais", "film"]);
    MauvaisIsNegativeTokens(cs.isWord);
  }

  lemma MauvaisIsNegativeCounts()
    ensures |(set w | w in ["c", "est", "un", "mauvais", "film"]) * Positives(Fr)| == 0
    ensures |(set w | w in ["c", "est", "un", "mauvais", "film"]) * Negatives(Fr)| == 1
  {
    var ws := set w | w in ["c", "est", "un", "mauvais", "film"];
    assert ws == {"c", "est", "un", "mauvais", "film"};
    MauvaisIsNegativeHits();
  }

  lemma MauvaisIsNegativeHits()
    ensures {"c", "est", "un", "mauvais", "film"} * Positives(Fr) == {}
    ensures {"c", "est", "un", "mauvais", "film"} * Negatives(Fr) == {"mauvais"}
  {
  }

  /** "C'est un mauvais film" in French, without a classifier: the apostrophe
      splits "c'est", and "mauvais" is the one negative trigger. */
  lemma MauvaisIsNegative(p: SentimentPipeline, cs: CharModel)
    requires AgreesOnAscii(cs) && p.handle.None?
    ensures Predict(p, cs, "C'est un mauvais film", Some("fr")) == Success(Prediction(JStr("negative"), 0.6))
  {
    MauvaisIsNegativeFacts(cs);
    MauvaisIsNegativeCounts();
    FallbackFromTokens(p, cs, "C'est un mauvais film", Some("fr"), "c'est un mauvais film", ["c", "est", "un", "mauvais", "film"], Fr, 0, 1);
  }

  lemma FineIsNeutralFacts(cs: CharModel)
    requires AgreesOnAscii(cs)
    ensures Strip("This is fine.", cs.isSpace) == "This is fine."
    ensures Lower("This is fine.", cs.lower) == "this is fine."
    ensures Tokens("this is fine.", cs.isWord) == ["this", "is", "fine"]
    ensures SelectLanguage(Some("en"), cs.lower) == En
  {
    AsciiStripped(cs, "This is fine.");
    LowerAscii(cs, "This is fine.", "this is fine.");
    AsciiWords(cs, ["this", "is", "fine"]);
    FineIsNeutralTokens(cs.isWord);
    SelectLanguageExamples(cs, Some("en"));
  }

  lemma FineIsNeutralCounts()
    ensures |(set w | w in ["this", "is", "fine"]) * Positives(En)| == 0
    ensures |(set w | w in ["this", "is", "fine"]) * Negatives(En)| == 0
  {
    var ws := set w | w in ["this", "is", "fine"];
    assert ws == {"this", "is", "fine"};
    assert ws * Positives(En) == {};
    assert ws * Negatives(En) == {};
  }

  /** "This is fine." in English, without a classifier: no trigger at all,
      so neutral at 0.5. */
  lemma FineIsNeutral(p: SentimentPipeline, cs: CharModel)
    requires AgreesOnAscii(cs) && p.handle.None?
    ensures Predict(p, cs, "This is fine.", Some("en")) == Success(Prediction(JStr("neutral"), 0.5))
  {
    FineIsNeutralFacts(cs);
    FineIsNeutralCounts();
    FallbackFromTokens(p, cs, "This is fine.", Some("en"), "this is fine.", ["this", "is", "fine"], En, 0, 0);
  }

  /** The empty text is neutral at 0.0 in every state. */
  lemma EmptyIsNeutralZero(p: SentimentPipeline, cs: CharModel, language: Option<string>)
    ensures Predict(p, cs, "", language) == Success(Prediction(JStr("neutral"), 0.0))
  {
  }

  /** A classifier answering "LABEL_2" with 0.87, under the default
      configuration, gives positive at 0.87. */
  lemma Label2IsPositive(cs: CharModel, classify: Classifier, text: string, language: Option<string>)
    requires AgreesOnAscii(cs)
    requires Strip(text, cs.isSpace) != []
    requires classify(Strip(text, cs.isSpace)) == [RawOutput(Some("LABEL_2"), Some(0.87))]
    ensures Predict(NewPipeline(Config.Defaults, Some(classify)), cs, text, language) == Success(Prediction(JStr("positive"), 0.87))
  {
    var lowered := Lower("LABEL_2", cs.lower);
    assert lowered[0] == 'l';
    assert lowered !in CanonicalNames;
  }
}
