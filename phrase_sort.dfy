/**
 * The ordering step of `getPhrasesBySearch`: the comparator built from a sort
 * key and a sort order, and the stable sort `Array.prototype.sort` performs
 * with it.
 */
module PhraseSort {
  import opened PhraseTypes
  import opened JsStrings

  /** The fields a search can be ordered on: `keyof Phrase` without `translations`. */
  datatype SortKey = Id | PhraseText | Status | CreatedAt | UpdatedAt

  datatype SortOrder = Asc | Desc

  /**
   * `a[sortKey] < b[sortKey]`: numeric order on `id`, string order on the
   * text fields. Records with the same value in the field are never less
   * than one another.
   */
  predicate KeyLess(a: Phrase, b: Phrase, key: SortKey): (r: bool)
    ensures r ==> !SameKey(a, b, key)
  {
    LessIrreflexive(a.phrase); LessIrreflexive(a.status);
    LessIrreflexive(a.createdAt); LessIrreflexive(a.updatedAt);
    match key
    case Id => a.id < b.id
    case PhraseText => Less(a.phrase, b.phrase)
    case Status => Less(a.status, b.status)
    case CreatedAt => Less(a.createdAt, b.createdAt)
    case UpdatedAt => Less(a.updatedAt, b.updatedAt)
  }

  /** `a` and `b` hold the same value in the field `key`. */
  predicate SameKey(a: Phrase, b: Phrase, key: SortKey) {
    match key
    case Id => a.id == b.id
    case PhraseText => a.phrase == b.phrase
    case Status => a.status == b.status
    case CreatedAt => a.createdAt == b.createdAt
    case UpdatedAt => a.updatedAt == b.updatedAt
  }

  /** Exactly one of: `a` before `b`, `b` before `a`, the same key. */
  lemma KeyTrichotomy(a: Phrase, b: Phrase, key: SortKey)
    ensures !(KeyLess(a, b, key) && KeyLess(b, a, key))
    ensures SameKey(a, b, key) <==> !KeyLess(a, b, key) && !KeyLess(b, a, key)
  {
    match key
    case Id =>
    case PhraseText =>
      LessAsymmetric(a.phrase, b.phrase); LessIrreflexive(a.phrase);
      if a.phrase != b.phrase { LessTotal(a.phrase, b.phrase); }
    case Status =>
      LessAsymmetric(a.status, b.status); LessIrreflexive(a.status);
      if a.status != b.status { LessTotal(a.status, b.status); }
    case CreatedAt =>
      LessAsymmetric(a.createdAt, b.createdAt); LessIrreflexive(a.createdAt);
      if a.createdAt != b.createdAt { LessTotal(a.createdAt, b.createdAt); }
    case UpdatedAt =>
      LessAsymmetric(a.updatedAt, b.updatedAt); LessIrreflexive(a.updatedAt);
      if a.updatedAt != b.updatedAt { LessTotal(a.updatedAt, b.updatedAt); }
  }

  /** `!(a[key] < b[key])` together with `!(b[key] < c[key])` gives `!(a[key] < c[key])`. */
  lemma KeyNotLessTransitive(a: Phrase, b: Phrase, c: Phrase, key: SortKey)
    requires !KeyLess(b, a, key) && !KeyLess(c, b, key)
    ensures !KeyLess(c, a, key)
  {
    match key
    case Id =>
    case PhraseText => NotLessTransitive(a.phrase, b.phrase, c.phrase);
    case Status => NotLessTransitive(a.status, b.status, c.status);
    case CreatedAt => NotLessTransitive(a.createdAt, b.createdAt, c.createdAt);
    case UpdatedAt => NotLessTransitive(a.updatedAt, b.updatedAt, c.updatedAt);
  }

  lemma NotLessTransitive(x: string, y: string, z: string)
    requires !Less(y, x) && !Less(z, y)
    ensures !Less(z, x)
  {
    if x != y { LessTotal(x, y); }
    if y != z { LessTotal(y, z); }
    if x != y && y != z { LessTransitive(x, y, z); LessAsymmetric(x, z); }
    if x == y && y == z { LessIrreflexive(x); }
  }

  /**
   * The comparator passed to `sort`: negative when `a` goes before `b`,
   * positive when after, zero when their keys are equal.
   */
  function Compare(a: Phrase, b: Phrase, key: SortKey, order: SortOrder): (c: int)
    ensures c == 0 <==> SameKey(a, b, key)
    ensures c < 0 <==> (if order == Asc then KeyLess(a, b, key) else KeyLess(b, a, key))
    ensures c > 0 <==> (if order == Asc then KeyLess(b, a, key) else KeyLess(a, b, key))
  {
    KeyTrichotomy(a, b, key);
    var sortOrderInt := if order == Asc then 1 else -1;
    if KeyLess(a, b, key) then -1 * sortOrderInt
    else if KeyLess(b, a, key) then 1 * sortOrderInt
    else 0
  }

  /** The comparator is antisymmetric, as `Array.prototype.sort` needs of a consistent comparator. */
  lemma CompareAntisymmetric(a: Phrase, b: Phrase, key: SortKey, order: SortOrder)
    ensures Compare(a, b, key, order) == -Compare(b, a, key, order)
  {
    KeyTrichotomy(a, b, key);
  }

  /** Every neighbouring pair is in comparator order. */
  predicate Sorted(s: seq<Phrase>, key: SortKey, order: SortOrder) {
    forall i :: 0 < i < |s| ==> Compare(s[i - 1], s[i], key, order) <= 0
  }

  /** "Does not sort after" is transitive. */
  lemma CompareNotAfterTransitive(a: Phrase, b: Phrase, c: Phrase, key: SortKey, order: SortOrder)
    requires Compare(a, b, key, order) <= 0 && Compare(b, c, key, order) <= 0
    ensures Compare(a, c, key, order) <= 0
  {
    if order == Asc {
      KeyNotLessTransitive(a, b, c, key);
    } else {
      KeyNotLessTransitive(c, b, a, key);
    }
  }

  /**
   * A sorted sequence is ordered on every pair, not only on neighbours: with
   * `Asc` no later key is below an earlier one, with `Desc` no later key is above.
   */
  lemma {:induction false} SortedPairwise(s: seq<Phrase>, key: SortKey, order: SortOrder)
    requires Sorted(s, key, order)
    ensures forall i, j :: 0 <= i < j < |s| ==> Compare(s[i], s[j], key, order) <= 0
    ensures forall i, j :: 0 <= i < j < |s| ==>
              if order == Asc then !KeyLess(s[j], s[i], key) else !KeyLess(s[i], s[j], key)
  {
    if |s| > 1 {
      SortedPairwise(s[1..], key, order);
      forall j | 1 < j < |s| ensures Compare(s[0], s[j], key, order) <= 0 {
        assert Compare(s[1], s[j], key, order) <= 0 by {
          assert s[1] == s[1..][0] && s[j] == s[1..][j - 1];
        }
        CompareNotAfterTransitive(s[0], s[1], s[j], key, order);
      }
      forall i, j | 0 <= i < j < |s| ensures Compare(s[i], s[j], key, order) <= 0 {
        if i > 0 {
          assert s[i] == s[1..][i - 1] && s[j] == s[1..][j - 1];
        }
      }
    }
  }

  /** The records of `s` whose key equals that of `p`, in the order of `s`. */
  function Ties(s: seq<Phrase>, p: Phrase, key: SortKey): (r: seq<Phrase>)
    ensures |r| <= |s|
    ensures forall x :: x in r ==> x in s && SameKey(x, p, key)
  {
    if s == [] then []
    else if SameKey(s[0], p, key) then [s[0]] + Ties(s[1..], p, key)
    else Ties(s[1..], p, key)
  }

  /**
   * Puts `x` into `t` in front of the first record that does not sort
   * strictly before it, so `x` precedes the records it ties with.
   */
  function Insert(x: Phrase, t: seq<Phrase>, key: SortKey, order: SortOrder): (r: seq<Phrase>)
    ensures multiset(r) == multiset(t) + multiset{x}
    ensures |r| == |t| + 1
    ensures r[0] == x || (t != [] && r[0] == t[0])
  {
    if t != [] && Compare(t[0], x, key, order) < 0 then
      assert t == [t[0]] + t[1..];
      [t[0]] + Insert(x, t[1..], key, order)
    else
      [x] + t
  }

  /** Inserting into a sorted sequence gives a sorted sequence. */
  lemma {:induction false} InsertSorted(x: Phrase, t: seq<Phrase>, key: SortKey, order: SortOrder)
    requires Sorted(t, key, order)
    ensures Sorted(Insert(x, t, key, order), key, order)
  {
    var r := Insert(x, t, key, order);
    if t != [] {
      CompareAntisymmetric(t[0], x, key, order);
      if Compare(t[0], x, key, order) < 0 {
        var rest := Insert(x, t[1..], key, order);
        SortedTail(t, key, order);
        InsertSorted(x, t[1..], key, order);
        assert r == [t[0]] + rest;
        assert Compare(t[0], rest[0], key, order) <= 0;
        forall i | 1 < i < |r| ensures Compare(r[i - 1], r[i], key, order) <= 0 {
          assert r[i - 1] == rest[i - 2] && r[i] == rest[i - 1];
        }
      } else {
        assert r == [x] + t;
        forall i | 1 < i < |r| ensures Compare(r[i - 1], r[i], key, order) <= 0 {
          assert r[i - 1] == t[i - 2] && r[i] == t[i - 1];
        }
      }
    }
  }

  /** Among the records tying with any `p`, the inserted `x` comes first and the rest keep their order. */
  lemma {:induction false} InsertTies(x: Phrase, t: seq<Phrase>, p: Phrase, key: SortKey, order: SortOrder)
    ensures Ties(Insert(x, t, key, order), p, key)
            == if SameKey(x, p, key) then [x] + Ties(t, p, key) else Ties(t, p, key)
  {
    var r := Insert(x, t, key, order);
    if t != [] && Compare(t[0], x, key, order) < 0 {
      InsertTies(x, t[1..], p, key, order);
      assert r[1..] == Insert(x, t[1..], key, order);
      if SameKey(x, p, key) {
        assert !SameKey(t[0], p, key);
      }
    } else {
      assert r[1..] == t;
    }
  }

  /**
   * The array after `sort(comparator)`: ordered by the comparator, a
   * permutation of the input, and stable, that is, records with equal keys
   * keep their relative order.
   */
  function Sort(s: seq<Phrase>, key: SortKey, order: SortOrder): (r: seq<Phrase>)
    ensures multiset(r) == multiset(s)
    ensures |r| == |s|
    ensures Sorted(r, key, order)
    ensures forall p :: Ties(r, p, key) == Ties(s, p, key)
  {
    if s == [] then []
    else
      var rest := Sort(s[1..], key, order);
      assert s == [s[0]] + s[1..];
      InsertSorted(s[0], rest, key, order);
      forall p ensures Ties(Insert(s[0], rest, key, order), p, key) == Ties(s, p, key) {
        InsertTies(s[0], rest, p, key, order);
      }
      Insert(s[0], rest, key, order)
  }

  lemma SortedTail(s: seq<Phrase>, key: SortKey, order: SortOrder)
    requires s != [] && Sorted(s, key, order)
    ensures Sorted(s[1..], key, order)
  {
    forall i | 0 < i < |s| - 1 ensures Compare(s[1..][i - 1], s[1..][i], key, order) <= 0 {
      assert s[1..][i - 1] == s[i] && s[1..][i] == s[i + 1];
    }
  }

  lemma TiesTail(s: seq<Phrase>, p: Phrase, key: SortKey)
    requires s != []
    ensures Ties(s[1..], p, key) == if SameKey(s[0], p, key) then Ties(s, p, key)[1..] else Ties(s, p, key)
  {
  }

  /** Two sorted sequences with the same elements start with records of equal key. */
  lemma SortedHeadsTie(r1: seq<Phrase>, r2: seq<Phrase>, key: SortKey, order: SortOrder)
    requires r1 != [] && multiset(r1) == multiset(r2)
    requires Sorted(r1, key, order) && Sorted(r2, key, order)
    ensures r2 != [] && SameKey(r2[0], r1[0], key)
  {
    assert |multiset(r2)| == |r1|;
    var a, b := r1[0], r2[0];
    assert a in multiset(r2) && b in multiset(r1);
    SortedPairwise(r1, key, order);
    SortedPairwise(r2, key, order);
    assert Compare(a, b, key, order) <= 0;
    assert Compare(b, a, key, order) <= 0;
    CompareAntisymmetric(a, b, key, order);
  }

  /** Two sorted permutations of the same records that order every group of ties alike start with the same record. */
  lemma StableHeadsEqual(r1: seq<Phrase>, r2: seq<Phrase>, key: SortKey, order: SortOrder)
    requires r1 != [] && multiset(r1) == multiset(r2)
    requires Sorted(r1, key, order) && Sorted(r2, key, order)
    requires forall p :: Ties(r1, p, key) == Ties(r2, p, key)
    ensures r2 != [] && r1[0] == r2[0]
  {
    SortedHeadsTie(r1, r2, key, order);
    var a, b := r1[0], r2[0];
    assert Ties(r1, a, key) == [a] + Ties(r1[1..], a, key);
    assert Ties(r2, a, key) == [b] + Ties(r2[1..], a, key);
  }

  /** Removing a common first record keeps every group of ties alike. */
  lemma TailsTie(r1: seq<Phrase>, r2: seq<Phrase>, key: SortKey)
    requires r1 != [] && r2 != [] && r1[0] == r2[0]
    requires forall p :: Ties(r1, p, key) == Ties(r2, p, key)
    ensures forall p :: Ties(r1[1..], p, key) == Ties(r2[1..], p, key)
  {
    forall p ensures Ties(r1[1..], p, key) == Ties(r2[1..], p, key) {
      TiesTail(r1, p, key);
      TiesTail(r2, p, key);
    }
  }

  /** Dropping the head removes one occurrence of it from the multiset. */
  lemma MultisetTail(s: seq<Phrase>)
    requires s != []
    ensures multiset(s[1..]) == multiset(s) - multiset{s[0]}
  {
    assert s == [s[0]] + s[1..];
  }

  /** Both tails of two sorted, stable permutations of the same records again satisfy all of that. */
  lemma StableTails(r1: seq<Phrase>, r2: seq<Phrase>, key: SortKey, order: SortOrder)
    requires r1 != [] && multiset(r1) == multiset(r2)
    requires Sorted(r1, key, order) && Sorted(r2, key, order)
    requires forall p :: Ties(r1, p, key) == Ties(r2, p, key)
    ensures r2 != [] && r1[0] == r2[0]
    ensures multiset(r1[1..]) == multiset(r2[1..])
    ensures Sorted(r1[1..], key, order) && Sorted(r2[1..], key, order)
    ensures forall p :: Ties(r1[1..], p, key) == Ties(r2[1..], p, key)
  {
    StableHeadsEqual(r1, r2, key, order);
    TailsTie(r1, r2, key);
    MultisetTail(r1);
    MultisetTail(r2);
    SortedTail(r1, key, order);
    SortedTail(r2, key, order);
  }

  /**
   * A sorted, stable permutation is unique: any two sequences with the same
   * elements that are both sorted and agree on the order of every group of
   * ties are equal. So every stable sort of the same input with this
   * comparator returns the same sequence as `Sort`.
   */
  lemma {:induction false} StableSortUnique(r1: seq<Phrase>, r2: seq<Phrase>, key: SortKey, order: SortOrder)
    requires multiset(r1) == multiset(r2)
    requires Sorted(r1, key, order) && Sorted(r2, key, order)
    requires forall p :: Ties(r1, p, key) == Ties(r2, p, key)
    ensures r1 == r2
  {
    if r1 == [] {
      assert |multiset(r2)| == 0;
    } else {
      StableTails(r1, r2, key, order);
      StableSortUnique(r1[1..], r2[1..], key, order);
      assert r1 == [r1[0]] + r1[1..] && r2 == [r2[0]] + r2[1..];
    }
  }
}
