/** search_card's matching: the positions of the cards whose lower-cased
    tagline contains the lower-cased query. */
module Search {
  import opened Wrappers
  import opened Text
  import opened Cards

  /** The positions i, in increasing order, at which Lower(query) occurs in
      the lower-cased tagline of cards[i]. */
  function Matches(cards: seq<Card>, query: string): (r: seq<nat>)
    ensures forall m, n :: 0 <= m < n < |r| ==> r[m] < r[n]
    ensures forall i: nat :: i in r <==> i < |cards| && IsInfix(Lower(query), Key(cards[i]))
  {
    if cards == [] then []
    else
      var n := |cards| - 1;
      var front := Matches(cards[..n], query);
      assert |cards[..n]| == n;
      assert forall m :: 0 <= m < |front| ==> front[m] in front;
      assert forall m :: 0 <= m < |front| ==> front[m] < n;
      front + (if IsInfix(Lower(query), Key(cards[n])) then [n] else [])
  }

  /** The matching positions are exactly those where the lower-cased query
      occurs, as a contiguous run, inside the lower-cased tagline. */
  lemma MatchesOccur(cards: seq<Card>, query: string)
    ensures forall i: nat :: i in Matches(cards, query) <==>
      i < |cards| && Occurs(Lower(query), Key(cards[i]))
  {
    forall i: nat | i < |cards|
      ensures i in Matches(cards, query) <==> Occurs(Lower(query), Key(cards[i]))
    {
      MatchesOccurAt(cards, query, i);
    }
  }

  /** MatchesOccur at one position of the deck. */
  lemma MatchesOccurAt(cards: seq<Card>, query: string, i: nat)
    requires i < |cards|
    ensures i in Matches(cards, query) <==> Occurs(Lower(query), Key(cards[i]))
  {
    MatchesAt(cards, query, i);
    IsInfixIff(Lower(query), Key(cards[i]));
  }

  /** The postcondition of Matches at one position, stated on its own so that
      it meets IsInfixIff without the rest of Matches' contract. */
  lemma MatchesAt(cards: seq<Card>, query: string, i: nat)
    requires i < |cards|
    ensures i in Matches(cards, query) <==> IsInfix(Lower(query), Key(cards[i]))
  {
  }

  /** The search as the editor runs it: an empty query starts no search;
      otherwise the matches, in deck order. */
  function SearchCards(cards: seq<Card>, query: string): (r: Option<seq<nat>>)
    ensures query == [] <==> r.None?
    ensures r.Some? ==> forall m, n :: 0 <= m < n < |r.value| ==> r.value[m] < r.value[n]
    ensures r.Some? ==> forall i: nat :: i in r.value <==> i < |cards| && IsInfix(Lower(query), Key(cards[i]))
  {
    if query == [] then None else Some(Matches(cards, query))
  }

  /** The three steps of SearchExample, one card each: matching unfolds the
      fold of a whole tagline, so each is proved on its own. */
  lemma AlphaMatches()
    ensures IsInfix(Lower("al"), Key(Card(Fact, "Alpha", 3)))
  {
    LowerAt("al");
    LowerAt("Alpha");
    assert Lower("al") == "al";
    var t := Key(Card(Fact, "Alpha", 3));
    assert t[..2] == "al";
  }

  lemma BetaDoesNotMatch()
    ensures !IsInfix(Lower("al"), Key(Card(Fact, "Beta", 3)))
  {
    LowerAt("al");
    LowerAt("Beta");
    assert Lower("al") == "al";
    var t := Key(Card(Fact, "Beta", 3));
    assert t == "beta";
    IsInfixIff("al", t);
    assert !exists k :: OccursAt("al", t, k);
  }

  lemma CalypsoMatches()
    ensures IsInfix(Lower("al"), Key(Card(Fact, "Calypso", 3)))
  {
    LowerAt("al");
    LowerAt("Calypso");
    assert Lower("al") == "al";
    var t := Key(Card(Fact, "Calypso", 3));
    assert t[1..][..2] == "al";
  }

  lemma AlphaFirst(cs: seq<Card>)
    requires cs == [Card(Fact, "Alpha", 3)]
    ensures Matches(cs, "al") == [0]
  {
    AlphaMatches();
    assert cs[..0] == [];
  }

  lemma BetaSecond(cs: seq<Card>)
    requires cs == [Card(Fact, "Alpha", 3), Card(Fact, "Beta", 3)]
    ensures Matches(cs, "al") == [0]
  {
    BetaDoesNotMatch();
    AlphaFirst(cs[..1]);
  }

  /** "al" is found in "Alpha" and in "Calypso", not in "Beta". */
  lemma SearchExample(cs: seq<Card>)
    requires cs == [Card(Fact, "Alpha", 3), Card(Fact, "Beta", 3), Card(Fact, "Calypso", 3)]
    ensures Matches(cs, "al") == [0, 2]
  {
    CalypsoMatches();
    BetaSecond(cs[..2]);
  }
}
