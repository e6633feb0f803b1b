/** CardManager's data layer: the open deck and the editing operations the
    buttons of the editor run on its card list. Dialog answers (the tagline
    typed, the list-box selection, the yes/no confirmation, the parsed import
    file) are parameters; after every operation the card list stays sorted by
    lower-cased tagline. */
module Manager {
  import opened Wrappers
  import opened Text
  import opened Cards
  import opened Sorting
  import opened ImportMerge

  datatype AddOutcome = AddCancelled | AddDuplicate | CardAdded
  datatype EditOutcome = EditNoSelection | EditUnchanged | EditDuplicate | CardRenamed
  datatype DeleteOutcome = DeleteNoSelection | DeleteDeclined | CardDeleted
  datatype ImportOutcome = ImportBadFormat | ImportDone(added: nat, skipped: nat)

  /** Some card other than the one at index i has key k. */
  predicate CollidesElsewhere(s: seq<Card>, i: nat, k: string)
  {
    exists j :: 0 <= j < |s| && j != i && Key(s[j]) == k
  }

  /** The deck with the tagline of the card at index i replaced by t. */
  function Renamed(s: seq<Card>, i: nat, t: string): seq<Card>
    requires i < |s|
  {
    s[i := s[i].(tagline := t)]
  }

  class CardManager {
    var deckName: string
    var isValid: bool
    var proofs: seq<Card>

    /** The invariant every operation keeps: the cards are sorted. */
    ghost predicate Valid()
      reads this
    {
      SortedByKey(proofs)
    }

    /** __init__: the document load_data produced (None when the file was
        missing or could not be read, which falls back to the default deck),
        followed by sort_cards. */
    constructor (loaded: Option<Deck>)
      ensures Valid()
      ensures var d := loaded.GetOr(DefaultDeck());
        deckName == d.deckName && isValid == d.isValid && proofs == SortByTagline(d.proofs)
    {
      var d := loaded.GetOr(DefaultDeck());
      deckName := d.deckName;
      isValid := d.isValid;
      proofs := SortByTagline(d.proofs);
      SortSorted(d.proofs);
    }

    /** sort_cards: replaces the card list by its stable sort. */
    method SortCards()
      modifies this`proofs
      ensures Valid()
      ensures proofs == SortByTagline(old(proofs))
      ensures multiset(proofs) == multiset(old(proofs))
      ensures forall k :: WithKey(proofs, k) == WithKey(old(proofs), k)
    {
      SortSorted(proofs);
      SortPermutes(proofs);
      forall k ensures WithKey(SortByTagline(proofs), k) == WithKey(proofs, k) {
        SortStable(proofs, k);
      }
      proofs := SortByTagline(proofs);
    }

    /** add_card with the tagline the dialog returned (empty when cancelled). */
    method AddCard(tagline: string) returns (outcome: AddOutcome)
      requires Valid()
      modifies this`proofs
      ensures Valid()
      ensures tagline == [] ==> outcome == AddCancelled
      ensures tagline != [] && HasKey(old(proofs), Lower(tagline)) ==> outcome == AddDuplicate
      ensures tagline != [] && !HasKey(old(proofs), Lower(tagline)) ==> outcome == CardAdded
      ensures outcome != CardAdded ==> proofs == old(proofs)
      ensures outcome == CardAdded ==>
        proofs == SortByTagline(old(proofs) + [NewCard(tagline)]) &&
        multiset(proofs) == multiset(old(proofs)) + multiset{NewCard(tagline)} &&
        |proofs| == |old(proofs)| + 1
      ensures UniqueKeys(old(proofs)) ==> UniqueKeys(proofs)
    {
      if tagline == [] {
        return AddCancelled;
      }
      var taglineLower := Lower(tagline);
      if HasKey(proofs, taglineLower) {
        return AddDuplicate;
      }
      if UniqueKeys(proofs) {
        AddKeepsUnique(proofs, tagline);
      }
      proofs := proofs + [NewCard(tagline)];
      SortCards();
      assert |multiset(proofs)| == |proofs|;
      outcome := CardAdded;
    }

    /** edit_card with the list-box selection and the tagline the dialog
        returned (empty when cancelled). */
    method EditCard(selection: Option<nat>, newTagline: string) returns (outcome: EditOutcome)
      requires Valid()
      requires selection.Some? ==> selection.value < |proofs|
      modifies this`proofs
      ensures Valid()
      ensures selection.None? ==> outcome == EditNoSelection
      ensures selection.Some? && (newTagline == [] || newTagline == old(proofs)[selection.value].tagline) ==>
        outcome == EditUnchanged
      ensures selection.Some? && newTagline != [] && newTagline != old(proofs)[selection.value].tagline ==>
        outcome == (if CollidesElsewhere(old(proofs), selection.value, Lower(newTagline)) then EditDuplicate else CardRenamed)
      ensures outcome != CardRenamed ==> proofs == old(proofs)
      ensures outcome == CardRenamed ==> proofs == SortByTagline(Renamed(old(proofs), selection.value, newTagline))
      ensures UniqueKeys(old(proofs)) ==> UniqueKeys(proofs)
    {
      if selection.None? {
        return EditNoSelection;
      }
      var index := selection.value;
      var oldTagline := proofs[index].tagline;
      if newTagline == [] || newTagline == oldTagline {
        return EditUnchanged;
      }
      var newTaglineLower := Lower(newTagline);
      if CollidesElsewhere(proofs, index, newTaglineLower) {
        return EditDuplicate;
      }
      if UniqueKeys(proofs) {
        RenameKeepsUnique(proofs, index, newTagline);
      }
      proofs := proofs[index := proofs[index].(tagline := newTagline)];
      SortCards();
      outcome := CardRenamed;
    }

    /** delete_card with the list-box selection and the answer to the
        confirmation question. No re-sort: the remaining cards keep their order. */
    method DeleteCard(selection: Option<nat>, confirmed: bool) returns (outcome: DeleteOutcome)
      requires Valid()
      requires selection.Some? ==> selection.value < |proofs|
      modifies this`proofs
      ensures Valid()
      ensures selection.None? ==> outcome == DeleteNoSelection
      ensures selection.Some? ==> outcome == (if confirmed then CardDeleted else DeleteDeclined)
      ensures outcome != CardDeleted ==> proofs == old(proofs)
      ensures outcome == CardDeleted ==>
        proofs == old(proofs)[..selection.value] + old(proofs)[selection.value + 1..] &&
        |proofs| == |old(proofs)| - 1
      ensures UniqueKeys(old(proofs)) ==> UniqueKeys(proofs)
    {
      if selection.None? {
        return DeleteNoSelection;
      }
      var index := selection.value;
      if !confirmed {
        return DeleteDeclined;
      }
      DeleteKeepsOrderAndUniqueness(proofs, index);
      proofs := proofs[..index] + proofs[index + 1..];
      outcome := CardDeleted;
    }

    /** import_cards on the document json.load produced for the chosen file:
        the merge loop, then one sort. */
    method ImportCards(file: ImportFile) returns (outcome: ImportOutcome)
      requires Valid()
      modifies this`proofs
      ensures Valid()
      ensures file.NotADeck? ==> outcome == ImportBadFormat && proofs == old(proofs)
      ensures file.Proofs? ==>
        var t := Merge(Keys(old(proofs)), file.records);
        outcome == ImportDone(|t.accepted|, t.skipped) &&
        proofs == MergedDeck(old(proofs), file.records)
      ensures file.Proofs? ==>
        outcome.added + outcome.skipped == |file.records| &&
        |proofs| == |old(proofs)| + outcome.added
      ensures UniqueKeys(old(proofs)) ==> UniqueKeys(proofs)
    {
      if file.NotADeck? {
        return ImportBadFormat;
      }
      ghost var start := proofs;
      var newCount, skippedCount := AppendImported(file.records);
      MergedDeckFacts(start, file.records);
      SortCards();
      outcome := ImportDone(newCount, skippedCount);
    }

    /** The loop of import_cards: each record with both keys, a content that
        normalises to Fact and a tagline not yet in the tagline set is
        appended as a new card and its key added to the set; every other
        record is counted as skipped. */
    method AppendImported(records: seq<ImportRecord>) returns (newCount: nat, skippedCount: nat)
      modifies this`proofs
      ensures proofs == old(proofs) + Merge(Keys(old(proofs)), records).accepted
      ensures newCount == |Merge(Keys(old(proofs)), records).accepted|
      ensures skippedCount == Merge(Keys(old(proofs)), records).skipped
    {
      newCount, skippedCount := 0, 0;
      var currentTaglines := Keys(proofs);
      ghost var start := proofs;
      ghost var total := Merge(currentTaglines, records);
      for n := 0 to |records|
        invariant var rest := Merge(currentTaglines, records[n..]);
          proofs + rest.accepted == start + total.accepted &&
          newCount + |rest.accepted| == |total.accepted| &&
          skippedCount + rest.skipped == total.skipped
      {
        var rec := records[n];
        assert records[n..][0] == rec && records[n..][1..] == records[n + 1..];
        if rec.content.None? || rec.tagline.None? {
          skippedCount := skippedCount + 1;
          continue;
        }
        var normalizedContent := NormalizeContent(rec.content.value);
        if normalizedContent == Str(Fact) && Lower(rec.tagline.value) !in currentTaglines {
          var newCard := Card(Fact, rec.tagline.value, rec.cardType.GetOr(3));
          assert proofs + [newCard] + Merge(currentTaglines + {Lower(rec.tagline.value)}, records[n + 1..]).accepted
              == proofs + ([newCard] + Merge(currentTaglines + {Lower(rec.tagline.value)}, records[n + 1..]).accepted);
          proofs := proofs + [newCard];
          currentTaglines := currentTaglines + {Lower(rec.tagline.value)};
          newCount := newCount + 1;
        } else {
          skippedCount := skippedCount + 1;
        }
      }
      assert records[|records|..] == [];
    }
  }

  /** An accepted add keeps taglines unique. */
  lemma AddKeepsUnique(s: seq<Card>, t: string)
    requires UniqueKeys(s) && !HasKey(s, Lower(t))
    ensures UniqueKeys(SortByTagline(s + [NewCard(t)]))
  {
    var u := s + [NewCard(t)];
    forall i, j | 0 <= i < j < |u| ensures Key(u[i]) != Key(u[j]) {
      if j == |s| {
        assert u[i] == s[i];
      }
    }
    SortKeepsUnique(u);
  }

  /** Once a tagline is added, the same tagline in any letter case is a
      duplicate: a second add of it is rejected. */
  lemma AddThenDuplicate(s: seq<Card>, t: string, t': string)
    requires Lower(t) == Lower(t')
    ensures HasKey(SortByTagline(s + [NewCard(t)]), Lower(t'))
  {
    var u := s + [NewCard(t)];
    assert Key(u[|s|]) == Lower(t');
    SortSameKeys(u, Lower(t'));
  }

  /** A rename that collides with no other card keeps taglines unique. */
  lemma RenameKeepsUnique(s: seq<Card>, i: nat, t: string)
    requires i < |s| && UniqueKeys(s) && !CollidesElsewhere(s, i, Lower(t))
    ensures UniqueKeys(SortByTagline(Renamed(s, i, t)))
  {
    var u := Renamed(s, i, t);
    forall m, n | 0 <= m < n < |u| ensures Key(u[m]) != Key(u[n]) {
      if m == i {
        assert Key(u[n]) == Key(s[n]);
      } else if n == i {
        assert Key(u[m]) == Key(s[m]);
      }
    }
    SortKeepsUnique(u);
  }

  /** In a deck with unique taglines, changing only the letter case of a
      card's own tagline never collides. */
  lemma CaseOnlyRenameAllowed(s: seq<Card>, i: nat, t: string)
    requires i < |s| && UniqueKeys(s) && Lower(t) == Key(s[i])
    ensures !CollidesElsewhere(s, i, Lower(t))
  {
    forall j | 0 <= j < |s| && j != i ensures Key(s[j]) != Lower(t) {
      if j < i {
        assert Key(s[j]) != Key(s[i]);
      } else {
        assert Key(s[i]) != Key(s[j]);
      }
    }
  }

  /** A rename changes one card and only its tagline: the result holds the
      other cards as before and the renamed card with its content and
      cardType kept. */
  lemma RenameChangesOneCard(s: seq<Card>, i: nat, t: string)
    requires i < |s|
    ensures var r := SortByTagline(Renamed(s, i, t));
      var c := Card(s[i].content, t, s[i].cardType);
      multiset(r) == multiset(s) - multiset{s[i]} + multiset{c} && c in r
  {
    var u := Renamed(s, i, t);
    var c := u[i];
    assert s == s[..i] + [s[i]] + s[i + 1..];
    assert u == s[..i] + [c] + s[i + 1..];
    var rest := multiset(s[..i]) + multiset(s[i + 1..]);
    assert multiset(s) == rest + multiset{s[i]};
    assert multiset(u) == rest + multiset{c};
    assert multiset(s) - multiset{s[i]} == rest;
    SortPermutes(u);
    assert c in multiset(SortByTagline(u));
  }
}
