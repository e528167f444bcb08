/**
 * Worked inputs for the extraction and voice selection of `Tts`: the page of
 * the repository's own unit test, and inputs that show how the code behaves
 * at its edges. Each fact is split into small steps so that the string
 * computations stay cheap to check.
 */
module TtsExamples {
  import opened Wrappers
  import opened Text
  import opened Html
  import opened Tts

  // ---------------------------------------------------------------------------
  // A script's text is deleted from prose too

  /**
   * Deletion is by content, not by element: a script's text is also deleted
   * where it happens to appear in ordinary prose.
   */
  lemma CoincidentalTextDeleted()
    ensures Normalize(RawText(ParsedHtml(Some(["Call foo now", "foo"]), [], [["foo"]]))) == "Call now"
  {
    RawCallFooNow();
    NormalizeCallNow();
  }

  // Proof steps of CoincidentalTextDeleted. Each lemma below states one fact
  // about these string literals; none is a property of the service on its own.
  // Kept separate so that each string computation is checked on its own.

  lemma RawCallFooNow()
    ensures RawText(ParsedHtml(Some(["Call foo now", "foo"]), [], [["foo"]])) == "Call  now "
  {
    calc {
      RawText(ParsedHtml(Some(["Call foo now", "foo"]), [], [["foo"]]));
      RemoveEach(Join(["Call foo now", "foo"], " "), Flatten([["foo"]]));
      { FlattenOne(); JoinCallFoo(); }
      RemoveEach("Call foo now foo", ["foo"]);
      { RemoveEachOne(); }
      RemoveAll("Call foo now foo", "foo");
      { RemoveFirstFoo(); }
      "Call " + RemoveAll(" now foo", "foo");
      { RemoveSecondFoo(); }
      "Call " + " now ";
      { CallNowConcat(); }
      "Call  now ";
    }
  }

  lemma CallNowConcat()
    ensures "Call " + " now " == "Call  now "
  {
  }

  lemma FlattenOne()
    ensures Flatten([["foo"]]) == ["foo"]
  {
    assert [["foo"]][..0] == [];
  }

  lemma RemoveEachOne()
    ensures RemoveEach("Call foo now foo", ["foo"]) == RemoveAll("Call foo now foo", "foo")
  {
    assert ["foo"][..0] == [];
  }

  lemma JoinCallFoo()
    ensures Join(["Call foo now", "foo"], " ") == "Call foo now foo"
  {
  }

  lemma RemoveFirstFoo()
    ensures RemoveAll("Call foo now foo", "foo") == "Call " + RemoveAll(" now foo", "foo")
  {
    assert "Call foo now foo" == "Call " + "foo" + " now foo";
    RemoveAllFirstAvoiding("Call ", "foo", " now foo");
  }

  lemma RemoveSecondFoo()
    ensures RemoveAll(" now foo", "foo") == " now "
  {
    assert " now foo" == " now " + "foo" + "";
    RemoveAllFirstAvoiding(" now ", "foo", "");
  }

  lemma NormalizeCallNow()
    ensures Normalize("Call  now ") == "Call now"
  {
    calc {
      Normalize("Call  now ");
      { NormalizeIsJoinedWords("Call  now "); }
      Join(SplitWhitespace("Call  now "), " ");
      { WordsCallNow(); }
      Join(["Call", "now"], " ");
      { JoinCallNow(); }
      "Call now";
    }
  }

  lemma JoinCallNow()
    ensures Join(["Call", "now"], " ") == "Call now"
  {
  }

  lemma WordsCallNow()
    ensures SplitWhitespace("Call  now ") == ["Call", "now"]
  {
    SplitCallNow();
    WordsCall();
    WordsSpaceNow();
  }

  lemma SplitCallNow()
    ensures SplitWhitespace("Call  now ") == SplitWhitespace("Call") + SplitWhitespace(" now ")
  {
    assert "Call  now " == "Call" + [' '] + " now ";
    SplitAround("Call", ' ', " now ");
  }

  lemma WordsCall()
    ensures SplitWhitespace("Call") == ["Call"]
  {
    VisibleWord("Call");
    SplitJoin(["Call"]);
  }

  lemma WordsSpace()
    ensures SplitWhitespace(" ") == []
  {
    assert " "[1..] == "";
  }

  lemma WordsNowSpace()
    ensures SplitWhitespace("now ") == ["now"]
  {
    LeadingWordOf("now", " ");
    assert "now " == "now" + " ";
    assert "now "[3..] == " ";
    WordsSpace();
  }

  lemma WordsSpaceNow()
    ensures SplitWhitespace(" now ") == ["now"]
  {
    assert " now "[1..] == "now ";
    WordsNowSpace();
  }

  // ---------------------------------------------------------------------------
  // The page of the unit test at tts.rs:307-323

  const Indent: string := "\n            "
  const Outdent: string := "\n        "
  const Script: string := "var x = 10;"

  /** The text nodes of the body before the script, those after it, and the page itself. */
  function Before(): seq<string> {
    [Indent, "Chapter 1", Indent, "This is a test paragraph.", Indent]
  }

  function After(): seq<string> {
    [Indent, "Another paragraph.", Outdent]
  }

  function TestPage(): ParsedHtml {
    var nodes := Before() + [Script] + After();
    ParsedHtml(Some(nodes), nodes, [[Script]])
  }

  /** The unit test's expectation: headings and paragraphs survive, the script's text does not. */
  lemma TestPageExtract()
    ensures Normalize(RawText(TestPage())) == "Chapter 1 This is a test paragraph. Another paragraph."
  {
    TestPageRaw();
    TestPageWords();
    NormalizeIsJoinedWords((Join(Before(), " ") + " ") + (" " + Join(After(), " ")));
    TestPageJoinWords();
  }

  // Proof steps of TestPageExtract, down to the end of this section: the raw
  // text, its words, and their join, one literal fact per lemma. None of them is a
  // property of the service on its own.

  lemma TestPageRaw()
    ensures RawText(TestPage()) == (Join(Before(), " ") + " ") + (" " + Join(After(), " "))
  {
    TestPageRemoval();
    TestPageJoinParts();
    NoVInBefore();
    NoVInAfter();
    assert Script[0] == 'v';
    RemoveAllOnceAvoiding(Join(Before(), " ") + " ", Script, " " + Join(After(), " "));
  }

  lemma TestPageRemoval()
    ensures RawText(TestPage()) == RemoveAll(Join(Before() + [Script] + After(), " "), Script)
  {
    assert [[Script]][..0] == [] && [Script][..0] == [];
  }

  lemma TestPageJoinParts()
    ensures Join(Before() + [Script] + After(), " ")
      == (Join(Before(), " ") + " ") + Script + (" " + Join(After(), " "))
  {
    JoinAround(Before(), Script, After(), " ");
  }

  lemma NoVInBefore()
    ensures 'v' !in Join(Before(), " ") + " "
  {
    var bs := Before();
    assert forall k :: 0 <= k < |bs| ==> 'v' !in bs[k];
    JoinAvoids(bs, " ", 'v');
  }

  lemma NoVInAfter()
    ensures 'v' !in " " + Join(After(), " ")
  {
    var ys := After();
    assert forall k :: 0 <= k < |ys| ==> 'v' !in ys[k];
    JoinAvoids(ys, " ", 'v');
  }

  lemma TestPageWords()
    ensures SplitWhitespace((Join(Before(), " ") + " ") + (" " + Join(After(), " ")))
      == ["Chapter", "1", "This", "is", "a", "test", "paragraph.", "Another", "paragraph."]
  {
    SplitAcrossSpaces(Join(Before(), " "), Join(After(), " "));
    SplitJoinParts(Before());
    SplitJoinParts(After());
    BeforeWords();
    AfterWords();
    TestPageWordsConcat();
  }

  lemma TestPageWordsConcat()
    ensures ["Chapter", "1", "This", "is", "a", "test", "paragraph."] + ["Another", "paragraph."]
      == ["Chapter", "1", "This", "is", "a", "test", "paragraph.", "Another", "paragraph."]
  {
  }

  lemma IndentHasNoWords()
    ensures SplitWhitespace(Indent) == [] && SplitWhitespace(Outdent) == []
  {
    IndentIsWhitespace();
    SplitAllWhitespace(Indent);
    SplitAllWhitespace(Outdent);
  }

  lemma IndentIsWhitespace()
    ensures AllWhitespace(Indent) && AllWhitespace(Outdent)
  {
    assert forall i :: 0 <= i < |Indent| ==> Indent[i] == '\n' || Indent[i] == ' ';
    assert forall i :: 0 <= i < |Outdent| ==> Outdent[i] == '\n' || Outdent[i] == ' ';
  }

  lemma ChapterOneJoin()
    ensures Join(["Chapter", "1"], " ") == "Chapter 1"
  {
  }

  lemma ChapterOneWords()
    ensures SplitWhitespace("Chapter 1") == ["Chapter", "1"]
  {
    ChapterOneJoin();
    ChapterOneAreWords();
    SplitJoin(["Chapter", "1"]);
  }

  lemma ChapterOneAreWords()
    ensures AllWords(["Chapter", "1"])
  {
    VisibleWord("Chapter");
    VisibleWord("1");
  }

  lemma ParagraphJoin()
    ensures Join(["This", "is", "a", "test", "paragraph."], " ") == "This is a test paragraph."
  {
    calc {
      Join(["This", "is", "a", "test", "paragraph."], " ");
      { JoinAppend(["This", "is"], ["a", "test", "paragraph."], " "); }
      Join(["This", "is"], " ") + " " + Join(["a", "test", "paragraph."], " ");
      { ThisIsJoin(); ATestParagraphJoin(); }
      "This is" + " " + "a test paragraph.";
      { ParagraphConcat(); }
      "This is a test paragraph.";
    }
  }

  lemma ThisIsJoin()
    ensures Join(["This", "is"], " ") == "This is"
  {
  }

  lemma ATestParagraphJoin()
    ensures Join(["a", "test", "paragraph."], " ") == "a test paragraph."
  {
  }

  lemma ParagraphConcat()
    ensures "This is" + " " + "a test paragraph." == "This is a test paragraph."
  {
  }

  lemma ParagraphWords()
    ensures SplitWhitespace("This is a test paragraph.") == ["This", "is", "a", "test", "paragraph."]
  {
    ParagraphJoin();
    ParagraphAreWords();
    SplitJoin(["This", "is", "a", "test", "paragraph."]);
  }

  lemma ParagraphAreWords()
    ensures AllWords(["This", "is", "a", "test", "paragraph."])
  {
    VisibleWord("This");
    VisibleWord("is");
    VisibleWord("a");
    VisibleWord("test");
    VisibleWord("paragraph.");
  }

  lemma AnotherJoin()
    ensures Join(["Another", "paragraph."], " ") == "Another paragraph."
  {
  }

  lemma AnotherWords()
    ensures SplitWhitespace("Another paragraph.") == ["Another", "paragraph."]
  {
    AnotherJoin();
    AnotherAreWords();
    SplitJoin(["Another", "paragraph."]);
  }

  lemma AnotherAreWords()
    ensures AllWords(["Another", "paragraph."])
  {
    VisibleWord("Another");
    VisibleWord("paragraph.");
  }

  lemma BeforeWords()
    ensures WordsOfEach(Before()) == ["Chapter", "1", "This", "is", "a", "test", "paragraph."]
  {
    BeforeWordsFrom1();
    IndentHasNoWords();
    WordsOfEachCons(Before());
  }

  lemma BeforeWordsFrom1()
    ensures WordsOfEach(Before()[1..]) == ["Chapter", "1", "This", "is", "a", "test", "paragraph."]
  {
    BeforeWordsFrom2();
    ChapterOneWords();
    var bs := Before()[1..];
    WordsOfEachCons(bs);
    assert bs[0] == "Chapter 1";
    assert bs[1..] == Before()[2..];
    BeforeWordsConcat();
  }

  lemma BeforeWordsConcat()
    ensures ["Chapter", "1"] + ["This", "is", "a", "test", "paragraph."]
      == ["Chapter", "1", "This", "is", "a", "test", "paragraph."]
  {
  }

  lemma BeforeWordsFrom2()
    ensures WordsOfEach(Before()[2..]) == ["This", "is", "a", "test", "paragraph."]
  {
    BeforeWordsFrom3();
    IndentHasNoWords();
    var bs := Before()[2..];
    WordsOfEachCons(bs);
    assert bs[0] == Indent;
    assert bs[1..] == Before()[3..];
  }

  lemma BeforeWordsFrom3()
    ensures WordsOfEach(Before()[3..]) == ["This", "is", "a", "test", "paragraph."]
  {
    var bs := Before()[3..];
    assert bs == ["This is a test paragraph.", Indent];
    var ws := ["This", "is", "a", "test", "paragraph."];
    calc {
      WordsOfEach(bs);
      { WordsOfEachCons(bs); }
      SplitWhitespace(bs[0]) + WordsOfEach(bs[1..]);
      { ParagraphWords(); }
      ws + WordsOfEach(bs[1..]);
      { WordsOfEachCons(bs[1..]); assert bs[1..][1..] == []; }
      ws + (SplitWhitespace(Indent) + []);
      { IndentHasNoWords(); }
      ws + ([] + []);
      ws;
    }
  }

  lemma WordsOfEachCons(parts: seq<string>)
    requires parts != []
    ensures WordsOfEach(parts) == SplitWhitespace(parts[0]) + WordsOfEach(parts[1..])
  {
  }

  lemma AfterWords()
    ensures WordsOfEach(After()) == ["Another", "paragraph."]
  {
    var ys := After();
    WordsOfEachCons(ys);
    IndentHasNoWords();
    WordsOfEachCons(ys[1..]);
    AnotherWords();
    WordsOfEachCons(ys[1..][1..]);
    assert ys[1..][1..][1..] == [];
  }

  lemma TestPageJoinWords()
    ensures Join(["Chapter", "1", "This", "is", "a", "test", "paragraph.", "Another", "paragraph."], " ")
      == "Chapter 1 This is a test paragraph. Another paragraph."
  {
    var ws := ["Chapter", "1", "This", "is", "a", "test", "paragraph.", "Another", "paragraph."];
    var xs, ys, zs := ["Chapter", "1"], ["This", "is", "a", "test", "paragraph."], ["Another", "paragraph."];
    assert ws == xs + ys + zs;
    JoinAppend(xs + ys, zs, " ");
    JoinAppend(xs, ys, " ");
    ChapterOneJoin();
    ParagraphJoin();
    AnotherJoin();
    SentenceConcat();
  }

  lemma SentenceConcat()
    ensures "Chapter 1" + " " + "This is a test paragraph." + " " + "Another paragraph."
      == "Chapter 1 This is a test paragraph. Another paragraph."
  {
    Concat1();
    Concat2();
    Concat3();
    Concat4();
  }

  lemma Concat1()
    ensures "Chapter 1" + " " == "Chapter 1 "
  {
  }

  lemma Concat2()
    ensures "Chapter 1 " + "This is a test paragraph." == "Chapter 1 This is a test paragraph."
  {
  }

  lemma Concat3()
    ensures "Chapter 1 This is a test paragraph." + " " == "Chapter 1 This is a test paragraph. "
  {
  }

  lemma Concat4()
    ensures "Chapter 1 This is a test paragraph. " + "Another paragraph."
      == "Chapter 1 This is a test paragraph. Another paragraph."
  {
  }

  // ---------------------------------------------------------------------------
  // Voice selection

  /**
   * Only the two exact tags pick the Russian voice: a weighted list, an
   * underscore form or a different case all fall back to English.
   */
  lemma RussianOnlyOnExactTags()
    ensures FromLanguage("ru").voiceName == RussianVoice
    ensures FromLanguage("ru-RU").voiceName == RussianVoice
    ensures FromLanguage("ru-RU,en;q=0.8").voiceName == EnglishVoice
    ensures FromLanguage("ru_RU").voiceName == EnglishVoice
    ensures FromLanguage("RU").voiceName == EnglishVoice
  {
    assert !SelectsRussian("ru-RU,en;q=0.8");
    assert !SelectsRussian("ru_RU");
    assert !SelectsRussian("RU");
  }

  /**
   * `new` on the default voice does not reproduce the default configuration:
   * its language is the voice name's prefix "en_US", not "en-US".
   */
  lemma NewOnDefaultVoice()
    ensures NewConfig(EnglishVoice, DefaultSampleRate).language == "en_US"
    ensures NewConfig(EnglishVoice, DefaultSampleRate) != DefaultConfig()
  {
    var v := EnglishVoice;
    assert v == "en_US" + ['-'] + "ryan-high";
    UntilFirstOf("en_US", '-', "ryan-high");
  }
}
