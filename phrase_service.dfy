/**
 * The phrase service (packages/api/src/services/phrase-service.ts): three
 * read-only queries over the phrase records loaded from the data file. The
 * read and parse of that file is the `loaded` argument of every query, either
 * the parsed records or the error the read or the parse raised.
 */
module PhraseService {
  import opened Wrappers
  import opened PhraseTypes
  import opened JsStrings
  import opened PhraseSort

  /** `i` is the position of the first record whose `id` is `id`. */
  predicate IsFirstWithId(ps: seq<Phrase>, id: int, i: int) {
    0 <= i < |ps| && ps[i].id == id && forall j :: 0 <= j < i ==> ps[j].id != id
  }

  /** `phrases.find(phrase => phrase.id === id)`, giving the position of the record found. */
  function FindById(ps: seq<Phrase>, id: int): (r: Option<nat>)
    ensures r.Some? ==> IsFirstWithId(ps, id, r.value)
    ensures r.None? ==> forall i :: 0 <= i < |ps| ==> ps[i].id != id
  {
    if ps == [] then None
    else if ps[0].id == id then Some(0)
    else match FindById(ps[1..], id)
      case None => None
      case Some(i) => Some(i + 1)
  }

  /**
   * `getPhraseById`: the first record with the given `id`, without its
   * translations; `None` when no record has that `id`.
   */
  function GetPhraseById(loaded: Result<seq<Phrase>, Error>, id: int): (r: Result<Option<Phrase>, Error>)
    ensures loaded.Failure? ==> r == Failure(loaded.error)
    ensures loaded.Success? && (forall i :: 0 <= i < |loaded.value| ==> loaded.value[i].id != id) ==>
              r == Success(None)
    ensures forall i :: loaded.Success? && IsFirstWithId(loaded.value, id, i) ==>
              && r.Success? && r.value.Some?
              && r.value.value.translations.None?
              && SameButTranslations(r.value.value, loaded.value[i])
  {
    match loaded
    case Failure(e) => Failure(e)
    case Success(ps) =>
      match FindById(ps, id)
      case None => Success(None)
      case Some(i) => Success(Some(Redacted(ps[i])))
  }

  /**
   * `getPhraseTranslationByLanguage`: the non-empty translation of the first
   * record with the given `id` into `language`. `None` when no record has the
   * `id`, when its translations lack `language`, or when the translation is
   * the empty string. A record with no translations at all makes the lookup
   * read a property of `undefined`, which fails with a `TypeError`.
   */
  function GetPhraseTranslationByLanguage(loaded: Result<seq<Phrase>, Error>, id: int, language: string)
    : (r: Result<Option<string>, Error>)
    ensures loaded.Failure? ==> r == Failure(loaded.error)
    ensures loaded.Success? && (forall i :: 0 <= i < |loaded.value| ==> loaded.value[i].id != id) ==>
              r == Success(None)
    ensures forall i :: loaded.Success? && IsFirstWithId(loaded.value, id, i) ==>
              match loaded.value[i].translations
              case None => r == Failure(TypeError(language))
              case Some(m) =>
                if language in m && m[language] != "" then r == Success(Some(m[language]))
                else r == Success(None)
  {
    match loaded
    case Failure(e) => Failure(e)
    case Success(ps) =>
      match FindById(ps, id)
      case None => Success(None)
      case Some(i) =>
        match ps[i].translations
        case None => Failure(TypeError(language))
        case Some(m) =>
          var translation := if language in m then m[language] else "";
          if translation == "" then Success(None) else Success(Some(translation))
  }

  /**
   * The translation lookup as evidently intended: a record without
   * translations has no translation for any language.
   */
  function GetPhraseTranslationOrNone(loaded: Result<seq<Phrase>, Error>, id: int, language: string)
    : (r: Result<Option<string>, Error>)
    ensures loaded.Failure? ==> r == Failure(loaded.error)
    ensures loaded.Success? ==> r.Success?
    ensures forall i :: loaded.Success? && IsFirstWithId(loaded.value, id, i) && loaded.value[i].translations.None? ==>
              r == Success(None)
    ensures GetPhraseTranslationByLanguage(loaded, id, language).Success? ==>
              r == GetPhraseTranslationByLanguage(loaded, id, language)
  {
    match loaded
    case Failure(e) => Failure(e)
    case Success(ps) =>
      match FindById(ps, id)
      case None => Success(None)
      case Some(i) =>
        var translation :=
          if ps[i].translations.Some? && language in ps[i].translations.value
          then ps[i].translations.value[language] else "";
        if translation == "" then Success(None) else Success(Some(translation))
  }

  /** A query that `!query?.trim()` treats as absent: missing, or nothing but white space. */
  predicate IsBlank(query: Option<string>): (r: bool)
    ensures r <==> query.None? || AllWhiteSpace(query.value)
  {
    query.None? || Trim(query.value) == ""
  }

  /** The case-insensitive substring test of the search filter. */
  predicate Matches(p: Phrase, query: string): (r: bool)
    ensures r <==> exists i :: OccursAt(Lower(p.phrase), Lower(query), i)
    ensures query == "" ==> r
  {
    assert OccursAt(Lower(p.phrase), Lower(query), 0) <== query == "";
    Includes(Lower(p.phrase), Lower(query))
  }

  /** `phrases.filter(...)`: the records matching `query`, each as often as it occurs in `ps`. */
  function KeepMatching(ps: seq<Phrase>, query: string): (r: seq<Phrase>)
    ensures forall x {:trigger multiset(r)[x]} :: multiset(r)[x] == if Matches(x, query) then multiset(ps)[x] else 0
  {
    if ps == [] then []
    else
      assert ps == [ps[0]] + ps[1..];
      if Matches(ps[0], query) then [ps[0]] + KeepMatching(ps[1..], query)
      else KeepMatching(ps[1..], query)
  }

  /** Filtering keeps the order of the records: it distributes over concatenation. */
  lemma {:induction false} KeepMatchingAppend(a: seq<Phrase>, b: seq<Phrase>, query: string)
    ensures KeepMatching(a + b, query) == KeepMatching(a, query) + KeepMatching(b, query)
  {
    if a == [] {
      assert a + b == b;
    } else {
      var x, tail := a[0], a[1..];
      var pre := if Matches(x, query) then [x] else [];
      assert a + b == [x] + (tail + b);
      assert a == [x] + tail;
      calc {
        KeepMatching(a + b, query);
        { KeepMatchingCons(x, tail + b, query); }
        pre + KeepMatching(tail + b, query);
        { KeepMatchingAppend(tail, b, query); }
        pre + (KeepMatching(tail, query) + KeepMatching(b, query));
        (pre + KeepMatching(tail, query)) + KeepMatching(b, query);
        { KeepMatchingCons(x, tail, query); }
        KeepMatching(a, query) + KeepMatching(b, query);
      }
    }
  }

  /** Filtering a sequence with a first record keeps that record exactly when it matches. */
  lemma KeepMatchingCons(x: Phrase, s: seq<Phrase>, query: string)
    ensures KeepMatching([x] + s, query) == (if Matches(x, query) then [x] else []) + KeepMatching(s, query)
  {
    assert ([x] + s)[0] == x && ([x] + s)[1..] == s;
  }

  /** The `sortKey` parameter: the key given, or `phrase` when the caller passes none. */
  function KeyOrDefault(sortKey: Option<SortKey>): (k: SortKey)
    ensures sortKey.None? ==> k == PhraseText
    ensures sortKey.Some? ==> k == sortKey.value
  {
    if sortKey.Some? then sortKey.value else PhraseText
  }

  /** The `sortOrder` parameter: the order given, or ascending when the caller passes none. */
  function OrderOrDefault(sortOrder: Option<SortOrder>): (o: SortOrder)
    ensures sortOrder.None? ==> o == Asc
    ensures sortOrder.Some? ==> o == sortOrder.value
  {
    if sortOrder.Some? then sortOrder.value else Asc
  }

  /**
   * `getPhrasesBySearch`: every record, as loaded, when the query is blank;
   * otherwise the records whose text contains the query regardless of ASCII
   * case, stably sorted on `sortKey` (default `phrase`) in `sortOrder`
   * (default ascending).
   */
  function GetPhrasesBySearch(loaded: Result<seq<Phrase>, Error>, query: Option<string>,
                              sortKey: Option<SortKey>, sortOrder: Option<SortOrder>)
    : (r: Result<seq<Phrase>, Error>)
    ensures loaded.Failure? ==> r == Failure(loaded.error)
    ensures loaded.Success? && IsBlank(query) ==> r == Success(loaded.value)
    ensures loaded.Success? && !IsBlank(query) ==>
              && r.Success?
              && (forall x :: multiset(r.value)[x] == if Matches(x, query.value) then multiset(loaded.value)[x] else 0)
              && Sorted(r.value, KeyOrDefault(sortKey), OrderOrDefault(sortOrder))
              && (forall p :: Ties(r.value, p, KeyOrDefault(sortKey))
                              == Ties(KeepMatching(loaded.value, query.value), p, KeyOrDefault(sortKey)))
  {
    match loaded
    case Failure(e) => Failure(e)
    case Success(phrases) =>
      if IsBlank(query) then Success(phrases)
      else
        var matching := KeepMatching(phrases, query.value);
        Success(Sort(matching, KeyOrDefault(sortKey), OrderOrDefault(sortOrder)))
  }

  /** A lookup by `id` finds a record exactly when some record has that `id`, and never returns its translations. */
  lemma GetPhraseByIdFound(loaded: Result<seq<Phrase>, Error>, id: int)
    requires loaded.Success?
    ensures GetPhraseById(loaded, id).Success?
    ensures GetPhraseById(loaded, id).value.Some? <==>
              exists i :: 0 <= i < |loaded.value| && loaded.value[i].id == id
    ensures GetPhraseById(loaded, id).value.Some? ==>
              var q := GetPhraseById(loaded, id).value.value;
              q.id == id && q.translations.None?
  {
    var ps := loaded.value;
    match FindById(ps, id)
    case None =>
    case Some(i) => assert IsFirstWithId(ps, id, i);
  }

  /** A translation that is returned is never empty and belongs to a record with the requested `id`. */
  lemma TranslationFound(loaded: Result<seq<Phrase>, Error>, id: int, language: string)
    requires GetPhraseTranslationByLanguage(loaded, id, language).Success?
    requires GetPhraseTranslationByLanguage(loaded, id, language).value.Some?
    ensures loaded.Success?
    ensures var t := GetPhraseTranslationByLanguage(loaded, id, language).value.value;
            t != "" && exists i :: IsFirstWithId(loaded.value, id, i)
                                   && loaded.value[i].translations.Some?
                                   && language in loaded.value[i].translations.value
                                   && loaded.value[i].translations.value[language] == t
  {
    var ps := loaded.value;
    match FindById(ps, id)
    case None =>
    case Some(i) => assert IsFirstWithId(ps, id, i);
  }

  /** A non-blank query that no record matches yields the empty sequence, not an error. */
  lemma SearchWithoutMatchIsEmpty(loaded: Result<seq<Phrase>, Error>, query: string,
                                  sortKey: Option<SortKey>, sortOrder: Option<SortOrder>)
    requires loaded.Success? && !IsBlank(Some(query))
    requires forall i :: 0 <= i < |loaded.value| ==> !Matches(loaded.value[i], query)
    ensures GetPhrasesBySearch(loaded, Some(query), sortKey, sortOrder) == Success([])
  {
  }

  /**
   * The search result is the one and only sequence that is a stable sort of
   * the matching records, so it does not depend on which stable sorting
   * algorithm the JavaScript engine uses.
   */
  lemma SearchIsTheStableSort(loaded: Result<seq<Phrase>, Error>, query: string,
                              sortKey: Option<SortKey>, sortOrder: Option<SortOrder>, s: seq<Phrase>)
    requires loaded.Success? && !IsBlank(Some(query))
    requires multiset(s) == multiset(KeepMatching(loaded.value, query))
    requires Sorted(s, KeyOrDefault(sortKey), OrderOrDefault(sortOrder))
    requires forall p :: Ties(s, p, KeyOrDefault(sortKey)) == Ties(KeepMatching(loaded.value, query), p, KeyOrDefault(sortKey))
    ensures GetPhrasesBySearch(loaded, Some(query), sortKey, sortOrder) == Success(s)
  {
    var r := GetPhrasesBySearch(loaded, Some(query), sortKey, sortOrder).value;
    StableSortUnique(r, s, KeyOrDefault(sortKey), OrderOrDefault(sortOrder));
  }
}
