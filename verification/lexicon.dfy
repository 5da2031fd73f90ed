/** The rule-based fallback scorer (`SentimentPipeline._rule_based`): fixed
    per-language trigger-word sets, distinct-token counting and a three-way
    decision rule. */
module Lexicon {
  import opened Wrappers
  import opened Text

  /** The three canonical sentiment labels. */
  datatype Sentiment = Negative | Neutral | Positive {
    function Name(): (s: string)
      ensures s in {"negative", "neutral", "positive"}
    {
      match this
      case Negative => "negative"
      case Neutral => "neutral"
      case Positive => "positive"
    }
  }

  /** A label with its confidence, as `_rule_based` returns it. */
  datatype Verdict = Verdict(sentiment: Sentiment, confidence: real)

  /** The languages that have a lexicon. */
  datatype Lang = En | Ar | Fr

  /** The positive triggers of `lex` in src/models/pipeline.py; none is empty. */
  function Positives(lang: Lang): (ws: set<string>)
    ensures "" !in ws
  {
    match lang
    case En => {"good", "great", "excellent", "love", "amazing", "happy", "awesome", "wonderful", "nice", "like"}
    case Ar => {"جيد", "رائع", "ممتاز", "أحب", "سعيد", "جميل", "مذهل", "لطيف"}
    case Fr => {"bon", "génial", "excellent", "j'aime", "heureux", "incroyable", "agréable", "super"}
  }

  /** The negative triggers of `lex`; none is empty. */
  function Negatives(lang: Lang): (ws: set<string>)
    ensures "" !in ws
  {
    match lang
    case En => {"bad", "terrible", "awful", "hate", "sad", "horrible", "worst", "disappoint", "poor", "angry"}
    case Ar => {"سيئ", "فظيع", "كريه", "أكره", "حزين", "مزري", "أسوأ", "مخيب", "رديء", "غاضب"}
    case Fr => {"mauvais", "terrible", "affreux", "je déteste", "triste", "horrible", "pire", "décevant", "pauvre", "fâché"}
  }

  /** No word of any lexicon is both a positive and a negative trigger. */
  lemma LexiconsDisjoint(lang: Lang)
    ensures Positives(lang) * Negatives(lang) == {}
  {
    match lang
    case En => DisjointEn();
    case Ar => DisjointAr();
    case Fr => DisjointFr();
  }

  lemma DisjointEn()
    ensures Positives(En) * Negatives(En) == {}
  {
  }

  lemma DisjointAr()
    ensures Positives(Ar) * Negatives(Ar) == {}
  {
  }

  lemma DisjointFr()
    ensures Positives(Fr) * Negatives(Fr) == {}
  {
  }

  /** The lower-cased language code: a missing or empty code reads as "en". */
  function LanguageCode(language: Option<string>, lower: char -> char): (code: string)
    ensures language.None? || language == Some("") ==> code == Lower("en", lower)
    ensures language.Some? && language.value != "" ==> |code| == |language.value|
    ensures language.Some? && language.value != "" ==>
              forall k :: 0 <= k < |code| ==> code[k] == lower(language.value[k])
  {
    match language
    case Some(l) => if l == "" then Lower("en", lower) else Lower(l, lower)
    case None => Lower("en", lower)
  }

  /** `lex.get(lang, lex["en"])`: "ar" and "fr" select their lexicons, every
      other code selects English. */
  function SelectLanguage(language: Option<string>, lower: char -> char): (lang: Lang)
    ensures lang == Ar <==> LanguageCode(language, lower) == "ar"
    ensures lang == Fr <==> LanguageCode(language, lower) == "fr"
  {
    var code := LanguageCode(language, lower);
    if code == "ar" then Ar else if code == "fr" then Fr else En
  }

  /** With Python's ASCII lower-casing, any ASCII code selects its lexicon
      case-insensitively: Arabic exactly when it lowers to "ar", French
      exactly when it lowers to "fr", English for every other code, and a
      missing or empty code reads as "en". */
  lemma SelectLanguageAscii(cs: CharModel, language: Option<string>)
    requires AgreesOnAscii(cs)
    requires language.Some? ==> forall k :: 0 <= k < |language.value| ==> language.value[k] < '\U{80}'
    ensures var code := if language.None? || language.value == "" then "en" else Lower(language.value, AsciiLower);
      && (SelectLanguage(language, cs.lower) == Ar <==> code == "ar")
      && (SelectLanguage(language, cs.lower) == Fr <==> code == "fr")
      && (SelectLanguage(language, cs.lower) == En <==> code != "ar" && code != "fr")
  {
    LowerAscii(cs, "en", "en");
    if language.Some? && language.value != "" {
      LowerAscii(cs, language.value, Lower(language.value, AsciiLower));
    }
  }

  /** Nine codes worked out: none, "", "en", "EN" and "de" select English;
      "fr" and "FR" select French; "ar" and "Ar" select Arabic. */
  lemma SelectLanguageExamples(cs: CharModel, language: Option<string>)
    requires AgreesOnAscii(cs)
    ensures language.None? ==> SelectLanguage(language, cs.lower) == En
    ensures language == Some("") ==> SelectLanguage(language, cs.lower) == En
    ensures language == Some("en") || language == Some("EN") ==> SelectLanguage(language, cs.lower) == En
    ensures language == Some("fr") || language == Some("FR") ==> SelectLanguage(language, cs.lower) == Fr
    ensures language == Some("ar") || language == Some("Ar") ==> SelectLanguage(language, cs.lower) == Ar
    ensures language == Some("de") ==> SelectLanguage(language, cs.lower) == En
  {
    LowerAscii(cs, "en", "en");
    LowerAscii(cs, "EN", "en");
    LowerAscii(cs, "fr", "fr");
    LowerAscii(cs, "FR", "fr");
    LowerAscii(cs, "ar", "ar");
    LowerAscii(cs, "Ar", "ar");
    LowerAscii(cs, "de", "de");
  }

  /** The distance between the two counts. */
  function Margin(a: nat, b: nat): (m: nat)
    ensures m as int == a - b || m as int == b - a
    ensures m == 0 <==> a == b
  {
    if a >= b then a - b else b - a
  }

  /** The decision rule: a tie is neutral at 0.5; otherwise the larger side
      wins with 0.5 plus 0.1 per hit of margin, capped at 1. */
  function Decide(pos: nat, neg: nat): (v: Verdict)
    ensures v.sentiment == Neutral <==> pos == neg
    ensures v.sentiment == Positive <==> pos > neg
    ensures v.sentiment == Negative <==> neg > pos
    ensures pos == neg ==> v.confidence == 0.5
    ensures pos != neg && Margin(pos, neg) < 5 ==> v.confidence == 0.5 + Margin(pos, neg) as real / 10.0
    ensures pos != neg && Margin(pos, neg) >= 5 ==> v.confidence == 1.0
  {
    if pos == neg then Verdict(Neutral, 0.5)
    else if pos > neg then Verdict(Positive, Min(1.0, 0.5 + (pos - neg) as real * 0.1))
    else Verdict(Negative, Min(1.0, 0.5 + (neg - pos) as real * 0.1))
  }

  function Min(a: real, b: real): (m: real)
    ensures m <= a && m <= b
    ensures m == a || m == b
  {
    if a <= b then a else b
  }

  /** Swapping the counts swaps positive and negative and keeps the confidence. */
  lemma DecideSymmetric(pos: nat, neg: nat)
    ensures Decide(neg, pos).confidence == Decide(pos, neg).confidence
    ensures Decide(pos, neg).sentiment == Positive <==> Decide(neg, pos).sentiment == Negative
  {
  }

  /** A wider margin never lowers the confidence. */
  lemma DecideMonotone(a: nat, b: nat, c: nat, d: nat)
    requires Margin(a, b) <= Margin(c, d)
    ensures Decide(a, b).confidence <= Decide(c, d).confidence
  {
  }

  /** `set(re.findall(...))` on the lower-cased text: distinct non-empty runs
      of word characters. */
  function Words(text: string, cs: CharModel): (ws: set<string>)
    ensures forall w :: w in ws ==> IsWord(w, cs.isWord)
  {
    TokenSet(Lower(text, cs.lower), cs.isWord)
  }

  /** Number of distinct tokens that are positive triggers of the language. */
  function PosHits(text: string, language: Option<string>, cs: CharModel): (n: nat)
    ensures n <= |Words(text, cs)|
    ensures n <= |Positives(SelectLanguage(language, cs.lower))|
  {
    var ws := Words(text, cs);
    var lex := Positives(SelectLanguage(language, cs.lower));
    SubsetCard(ws * lex, ws);
    SubsetCard(ws * lex, lex);
    |ws * lex|
  }

  /** Number of distinct tokens that are negative triggers of the language. */
  function NegHits(text: string, language: Option<string>, cs: CharModel): (n: nat)
    ensures n <= |Words(text, cs)|
    ensures n <= |Negatives(SelectLanguage(language, cs.lower))|
  {
    var ws := Words(text, cs);
    var lex := Negatives(SelectLanguage(language, cs.lower));
    SubsetCard(ws * lex, ws);
    SubsetCard(ws * lex, lex);
    |ws * lex|
  }

  /** `_rule_based(text, language)`. The label is always one of the three,
      neutral exactly on a tie, and the confidence lies in [0.5, 1]; it is 0.5
      exactly when the verdict is neutral. */
  function RuleBased(text: string, language: Option<string>, cs: CharModel): (v: Verdict)
    ensures v.sentiment == Neutral <==> PosHits(text, language, cs) == NegHits(text, language, cs)
    ensures v.sentiment == Positive <==> PosHits(text, language, cs) > NegHits(text, language, cs)
    ensures v.sentiment == Negative <==> NegHits(text, language, cs) > PosHits(text, language, cs)
    ensures 0.5 <= v.confidence <= 1.0
    ensures v.confidence == 0.5 <==> v.sentiment == Neutral
  {
    Decide(PosHits(text, language, cs), NegHits(text, language, cs))
  }

  /** Because the two trigger sets are disjoint, no token counts on both
      sides: the hits together never exceed the number of distinct tokens. */
  lemma HitsBounded(text: string, language: Option<string>, cs: CharModel)
    ensures PosHits(text, language, cs) + NegHits(text, language, cs) <= |Words(text, cs)|
  {
    var lang := SelectLanguage(language, cs.lower);
    LexiconsDisjoint(lang);
    DisjointHits(Words(text, cs), Positives(lang), Negatives(lang));
  }

  lemma DisjointHits<T>(ws: set<T>, p: set<T>, n: set<T>)
    requires p * n == {}
    ensures |ws * p| + |ws * n| <= |ws|
  {
    assert (ws * p) * (ws * n) == {};
    assert |(ws * p) + (ws * n)| == |ws * p| + |ws * n|;
    SubsetCard((ws * p) + (ws * n), ws);
  }

  lemma {:induction false} SubsetCard<T>(a: set<T>, b: set<T>)
    requires a <= b
    ensures |a| <= |b|
    decreases |a|
  {
    if a != {} {
      var x :| x in a;
      SubsetCard(a - {x}, b - {x});
    }
  }

  /** Text without any word token is neutral at 0.5 (not 0.0: only the
      predictor short-circuits blank text). */
  lemma RuleBasedNoTokens(text: string, language: Option<string>, cs: CharModel)
    requires Words(text, cs) == {}
    ensures RuleBased(text, language, cs) == Verdict(Neutral, 0.5)
  {
  }

  /** Only the set of distinct words matters: two texts whose lower-cased
      forms have the same maximal word runs score alike, whatever the order,
      repetition or separators. */
  lemma RuleBasedSameRuns(t1: string, t2: string, language: Option<string>, cs: CharModel)
    requires forall w :: RunWord(Lower(t1, cs.lower), w, cs.isWord) <==> RunWord(Lower(t2, cs.lower), w, cs.isWord)
    ensures RuleBased(t1, language, cs) == RuleBased(t2, language, cs)
  {
    forall w ensures w in Words(t1, cs) <==> w in Words(t2, cs) {
      TokenSetIsRuns(Lower(t1, cs.lower), cs.isWord, w);
      TokenSetIsRuns(Lower(t2, cs.lower), cs.isWord, w);
      assert RunWord(Lower(t1, cs.lower), w, cs.isWord) <==> RunWord(Lower(t2, cs.lower), w, cs.isWord);
    }
    assert Words(t1, cs) == Words(t2, cs);
  }

  /** Lower-case words joined by one shared separator, in any order and with
      any repetition, score alike. */
  lemma RuleBasedWordSet(ws1: seq<string>, ws2: seq<string>, sep: char, language: Option<string>, cs: CharModel)
    requires forall i :: 0 <= i < |ws1| ==> IsWord(ws1[i], cs.isWord) && Lower(ws1[i], cs.lower) == ws1[i]
    requires forall i :: 0 <= i < |ws2| ==> IsWord(ws2[i], cs.isWord) && Lower(ws2[i], cs.lower) == ws2[i]
    requires !cs.isWord(sep) && cs.lower(sep) == sep
    requires (set w | w in ws1) == (set w | w in ws2)
    ensures RuleBased(Join(ws1, sep), language, cs) == RuleBased(Join(ws2, sep), language, cs)
  {
    WordsOfJoin(ws1, sep, cs);
    WordsOfJoin(ws2, sep, cs);
  }

  /** The words of lower-case words joined by a separator are those words. */
  lemma {:induction false} WordsOfJoin(ws: seq<string>, sep: char, cs: CharModel)
    requires forall i :: 0 <= i < |ws| ==> IsWord(ws[i], cs.isWord) && Lower(ws[i], cs.lower) == ws[i]
    requires !cs.isWord(sep) && cs.lower(sep) == sep
    ensures Words(Join(ws, sep), cs) == (set w | w in ws)
  {
    LowerJoin(ws, sep, cs.lower);
    TokensOfJoin(ws, sep, cs.isWord);
  }

  lemma {:induction false} LowerJoin(ws: seq<string>, sep: char, lower: char -> char)
    requires forall i :: 0 <= i < |ws| ==> Lower(ws[i], lower) == ws[i]
    requires lower(sep) == sep
    ensures Lower(Join(ws, sep), lower) == Join(ws, sep)
  {
    if |ws| > 1 {
      LowerJoin(ws[1..], sep, lower);
      var s := Join(ws, sep);
      var t := Join(ws[1..], sep);
      assert s == ws[0] + [sep] + t;
      forall k | 0 <= k < |s| ensures lower(s[k]) == s[k] {
        if k < |ws[0]| {
          assert s[k] == ws[0][k];
          assert Lower(ws[0], lower)[k] == lower(ws[0][k]);
        } else if k > |ws[0]| {
          assert s[k] == t[k - |ws[0]| - 1];
          assert Lower(t, lower)[k - |ws[0]| - 1] == lower(t[k - |ws[0]| - 1]);
        }
      }
    }
  }

  /** The regex never yields a token with an apostrophe or a space, so the
      lexicon entries "j'aime" and "je déteste" can never be counted. */
  lemma MultiWordEntriesNeverMatch(text: string, cs: CharModel)
    requires AgreesOnAscii(cs)
    ensures "j'aime" !in Words(text, cs)
    ensures "je déteste" !in Words(text, cs)
    ensures PosHits(text, Some("fr"), cs) <= |Positives(Fr)| - 1
    ensures NegHits(text, Some("fr"), cs) <= |Negatives(Fr)| - 1
  {
    var ws := Words(text, cs);
    assert "j'aime"[1] == '\'';
    assert "je déteste"[2] == ' ';
    assert !cs.isWord('\'') && !cs.isWord(' ');
    SelectLanguageExamples(cs, Some("fr"));
    var p := Positives(Fr);
    var n := Negatives(Fr);
    assert ws * p <= p - {"j'aime"};
    assert ws * n <= n - {"je déteste"};
    SubsetCard(ws * p, p - {"j'aime"});
    SubsetCard(ws * n, n - {"je déteste"});
  }
}
