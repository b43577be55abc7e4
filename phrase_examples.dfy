/**
 * Worked examples of the phrase queries, proved on concrete records (the
 * Hello/Goodbye ones follow the service's test suite).
 */
module PhraseExamples {
  import opened Wrappers
  import opened PhraseTypes
  import opened PhraseSort
  import opened PhraseService

  function Record(id: int, text: string, translations: Option<map<string, string>>): Phrase {
    Phrase(id, text, "published", "2024-01-01", "2024-01-01", translations)
  }

  lemma HelloMatches()
    ensures Matches(Record(1, "Hello", None), "hello")
  {
    assert JsStrings.Lower("Hello") == "hello";
    assert JsStrings.Lower("hello") == "hello";
    assert JsStrings.OccursAt("hello", "hello", 0);
  }

  lemma GoodbyeDoesNotMatch()
    ensures !Matches(Record(2, "Goodbye", None), "hello")
  {
    assert JsStrings.Lower("Goodbye") == "goodbye";
    assert JsStrings.Lower("hello") == "hello";
    forall i | 0 <= i <= 2 ensures !JsStrings.OccursAt("goodbye", "hello", i) {
      assert "goodbye"[i..i + 5][0] != 'h';
    }
  }

  lemma HelloIsNotBlank()
    ensures !IsBlank(Some("hello"))
  {
    assert !JsStrings.IsWhiteSpace("hello"[0]);
  }

  lemma FilterHelloExample()
    ensures KeepMatching([Record(1, "Hello", None), Record(2, "Goodbye", None)], "hello") == [Record(1, "Hello", None)]
  {
    var hello, goodbye := Record(1, "Hello", None), Record(2, "Goodbye", None);
    HelloMatches();
    GoodbyeDoesNotMatch();
    assert [hello, goodbye][1..] == [goodbye];
  }

  /** Searching "hello" among "Hello" and "Goodbye" finds "Hello" only. */
  lemma SearchHelloExample()
    ensures var hello, goodbye := Record(1, "Hello", None), Record(2, "Goodbye", None);
            GetPhrasesBySearch(Success([hello, goodbye]), Some("hello"), None, None) == Success([hello])
  {
    var hello, goodbye := Record(1, "Hello", None), Record(2, "Goodbye", None);
    HelloIsNotBlank();
    FilterHelloExample();
    assert Sort([hello], PhraseText, Asc) == [hello];
  }

  /** A descending sort on the phrase text puts "B" before "A". */
  lemma SortDescendingExample()
    ensures var a, b := Record(1, "A", None), Record(2, "B", None);
            Sort([a, b], PhraseText, Desc) == [b, a]
  {
    var a, b := Record(1, "A", None), Record(2, "B", None);
    assert JsStrings.Less("A", "B");
    assert [a, b][1..] == [b];
  }

  /** A stored empty translation reads as missing. */
  lemma EmptyTranslationExample()
    ensures GetPhraseTranslationByLanguage(Success([Record(1, "Hello", Some(map["es" := ""]))]), 1, "es")
            == Success(None)
  {
    assert IsFirstWithId([Record(1, "Hello", Some(map["es" := ""]))], 1, 0);
  }

  /**
   * As written, asking for a translation of a record that has no
   * translations fails with a `TypeError` instead of reporting the
   * translation as not found.
   */
  lemma MissingTranslationsThrows()
    ensures GetPhraseTranslationByLanguage(Success([Record(1, "Hello", None)]), 1, "es")
            == Failure(TypeError("es"))
  {
    assert IsFirstWithId([Record(1, "Hello", None)], 1, 0);
  }
}
