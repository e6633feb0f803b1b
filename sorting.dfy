/** sort_cards: `sorted(proofs, key=lambda x: x['tagline'].lower())`.
    Python's sorted is stable, so the model is a stable insertion sort whose
    result is proved ordered, a permutation of its input, and stable (cards
    with equal keys keep their relative order). */
module Sorting {
  import opened Text
  import opened Cards

  /** Inserts c in front of the first card whose key is not below c's. */
  function Insert(c: Card, s: seq<Card>): seq<Card>
  {
    if s == [] then [c]
    else if StrLe(Key(c), Key(s[0])) then [c] + s
    else [s[0]] + Insert(c, s[1..])
  }

  /** The stable sort of s by lower-cased tagline. */
  function SortByTagline(s: seq<Card>): seq<Card>
  {
    if s == [] then [] else Insert(s[0], SortByTagline(s[1..]))
  }

  /** The cards of s whose key is k, in their order in s. */
  function WithKey(s: seq<Card>, k: string): seq<Card>
  {
    if s == [] then []
    else (if Key(s[0]) == k then [s[0]] else []) + WithKey(s[1..], k)
  }

  lemma {:induction false} InsertPermutes(c: Card, s: seq<Card>)
    ensures multiset(Insert(c, s)) == multiset(s) + multiset{c}
  {
    if s != [] && !StrLe(Key(c), Key(s[0])) {
      InsertPermutes(c, s[1..]);
      assert s == [s[0]] + s[1..];
      assert multiset(s) == multiset{s[0]} + multiset(s[1..]);
    }
  }

  lemma {:induction false} InsertSorted(c: Card, s: seq<Card>)
    requires SortedByKey(s)
    ensures SortedByKey(Insert(c, s))
  {
    if s == [] {
    } else if StrLe(Key(c), Key(s[0])) {
      forall j | 0 < j < |s| ensures StrLe(Key(c), Key(s[j])) {
        StrLeTransitive(Key(c), Key(s[0]), Key(s[j]));
      }
    } else {
      StrLeTotal(Key(c), Key(s[0]));
      InsertSorted(c, s[1..]);
      InsertPermutes(c, s[1..]);
      var t := Insert(c, s[1..]);
      forall j | 0 <= j < |t| ensures StrLe(Key(s[0]), Key(t[j])) {
        assert t[j] in multiset(t);
        if t[j] != c {
          assert t[j] in multiset(s[1..]);
          var m :| 0 <= m < |s[1..]| && s[1..][m] == t[j];
          assert s[m + 1] == t[j];
        }
      }
    }
  }

  /** Inserting c in front of its equals is what makes the sort stable: among
      the cards of key k, c comes first when it has that key. */
  lemma {:induction false} InsertWithKey(c: Card, s: seq<Card>, k: string)
    ensures WithKey(Insert(c, s), k) == (if Key(c) == k then [c] else []) + WithKey(s, k)
  {
    if s == [] {
      assert WithKey([c], k) == (if Key(c) == k then [c] else []) + WithKey([], k);
    } else if StrLe(Key(c), Key(s[0])) {
      assert ([c] + s)[1..] == s;
    } else {
      StrLeReflexive(Key(c));
      InsertWithKey(c, s[1..], k);
      assert ([s[0]] + Insert(c, s[1..]))[1..] == Insert(c, s[1..]);
    }
  }

  lemma {:induction false} InsertLength(c: Card, s: seq<Card>)
    ensures |Insert(c, s)| == |s| + 1
  {
    if s != [] && !StrLe(Key(c), Key(s[0])) {
      InsertLength(c, s[1..]);
    }
  }

  /** Every card of Insert(c, s) is c or a card of s. */
  lemma {:induction false} InsertFrom(c: Card, s: seq<Card>)
    ensures forall x :: x in Insert(c, s) ==> x == c || x in s
  {
    if s != [] && !StrLe(Key(c), Key(s[0])) {
      InsertFrom(c, s[1..]);
    }
  }

  lemma {:induction false} InsertKeepsUnique(c: Card, s: seq<Card>)
    requires UniqueKeys(s) && !HasKey(s, Key(c))
    ensures UniqueKeys(Insert(c, s))
  {
    if s != [] && !StrLe(Key(c), Key(s[0])) {
      assert !HasKey(s[1..], Key(c)) by {
        forall m | 0 <= m < |s[1..]| ensures Key(s[1..][m]) != Key(c) {
          assert s[1..][m] == s[m + 1];
        }
      }
      InsertKeepsUnique(c, s[1..]);
      InsertFrom(c, s[1..]);
      var t := Insert(c, s[1..]);
      forall j | 0 <= j < |t| ensures Key(s[0]) != Key(t[j]) {
        assert t[j] in t;
        if t[j] != c {
          var m :| 0 <= m < |s[1..]| && s[1..][m] == t[j];
          assert s[m + 1] == t[j];
        }
      }
      var r := [s[0]] + t;
      assert forall j :: 0 < j < |r| ==> r[j] == t[j - 1];
    }
  }

  /** Sorting is a permutation: the same cards, each as often. */
  lemma {:induction false} SortPermutes(s: seq<Card>)
    ensures multiset(SortByTagline(s)) == multiset(s)
    ensures |SortByTagline(s)| == |s|
  {
    if s != [] {
      var t := SortByTagline(s[1..]);
      SortPermutes(s[1..]);
      InsertPermutes(s[0], t);
      InsertLength(s[0], t);
      assert SortByTagline(s) == Insert(s[0], t);
      assert s == [s[0]] + s[1..];
    }
  }

  /** Sorting orders the cards by lower-cased tagline. */
  lemma {:induction false} SortSorted(s: seq<Card>)
    ensures SortedByKey(SortByTagline(s))
  {
    if s != [] {
      SortSorted(s[1..]);
      InsertSorted(s[0], SortByTagline(s[1..]));
    }
  }

  /** Sorting is stable: for every key, the cards with that key appear in the
      result in the order they had in the input. */
  lemma {:induction false} SortStable(s: seq<Card>, k: string)
    ensures WithKey(SortByTagline(s), k) == WithKey(s, k)
  {
    if s != [] {
      SortStable(s[1..], k);
      InsertWithKey(s[0], SortByTagline(s[1..]), k);
    }
  }

  /** A card is in the sorted deck exactly when it was in the deck, so the
      tagline keys are the same before and after. */
  lemma SortSameKeys(s: seq<Card>, k: string)
    ensures HasKey(SortByTagline(s), k) <==> HasKey(s, k)
  {
    SortPermutes(s);
    var r := SortByTagline(s);
    if HasKey(r, k) {
      var i :| 0 <= i < |r| && Key(r[i]) == k;
      assert r[i] in multiset(s);
      var j :| 0 <= j < |s| && s[j] == r[i];
    }
    if HasKey(s, k) {
      var j :| 0 <= j < |s| && Key(s[j]) == k;
      assert s[j] in multiset(r);
      var i :| 0 <= i < |r| && r[i] == s[j];
    }
  }

  /** Sorting keeps taglines unique. */
  lemma {:induction false} SortKeepsUnique(s: seq<Card>)
    requires UniqueKeys(s)
    ensures UniqueKeys(SortByTagline(s))
  {
    if s != [] {
      assert UniqueKeys(s[1..]) by {
        forall i, j | 0 <= i < j < |s[1..]| ensures Key(s[1..][i]) != Key(s[1..][j]) {
          assert s[1..][i] == s[i + 1] && s[1..][j] == s[j + 1];
        }
      }
      SortKeepsUnique(s[1..]);
      assert !HasKey(s[1..], Key(s[0])) by {
        forall m | 0 <= m < |s[1..]| ensures Key(s[1..][m]) != Key(s[0]) {
          assert s[1..][m] == s[m + 1];
        }
      }
      SortSameKeys(s[1..], Key(s[0]));
      InsertKeepsUnique(s[0], SortByTagline(s[1..]));
    }
  }

  /** A deck that is already sorted is left as it is: sorting is idempotent. */
  lemma {:induction false} SortOfSorted(s: seq<Card>)
    requires SortedByKey(s)
    ensures SortByTagline(s) == s
  {
    if s != [] {
      assert SortedByKey(s[1..]) by {
        forall i, j | 0 <= i < j < |s[1..]| ensures StrLe(Key(s[1..][i]), Key(s[1..][j])) {
          assert s[1..][i] == s[i + 1] && s[1..][j] == s[j + 1];
        }
      }
      SortOfSorted(s[1..]);
      if |s| > 1 {
        assert StrLe(Key(s[0]), Key(s[1]));
      }
      assert s == [s[0]] + s[1..];
    }
  }
}
