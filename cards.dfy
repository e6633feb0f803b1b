/** The deck document and its cards, the sort key of a card and the
    invariants the editor maintains over a deck's card list. */
module Cards {
  import opened Text

  /** The one card content the editor recognises, the Russian word for "fact". */
  const Fact: string := "Факт"

  /** Fact after str.lower(): what a content value is compared with. */
  const FactLower: string := "факт"

  /** A card record of the deck file. */
  datatype Card = Card(content: string, tagline: string, cardType: int)

  /** The deck document: a name, a flag carried through untouched, the cards. */
  datatype Deck = Deck(deckName: string, isValid: bool, proofs: seq<Card>)

  /** A JSON value found under "content" in an imported record: a string,
      or any other JSON value (number, boolean, null, list, object). */
  datatype Value = Str(s: string) | NonString

  /** The key cards are sorted and compared by: the lower-cased tagline. */
  function Key(c: Card): string
  {
    Lower(c.tagline)
  }

  lemma FactFolds()
    ensures Lower(Fact) == FactLower
  {
  }

  /** normalize_content: a string equal to Fact ignoring case becomes Fact
      itself; anything else is returned unchanged. */
  function NormalizeContent(content: Value): (r: Value)
    ensures r == Str(Fact) <==> content.Str? && Lower(content.s) == FactLower
    ensures r != Str(Fact) ==> r == content
  {
    FactFolds();
    if content.Str? && Lower(content.s) == FactLower then Str(Fact) else content
  }

  lemma NormalizeContentIdempotent(content: Value)
    ensures NormalizeContent(NormalizeContent(content)) == NormalizeContent(content)
  {
    FactFolds();
  }

  /** Some card of s has key k. */
  predicate HasKey(s: seq<Card>, k: string)
  {
    exists i :: 0 <= i < |s| && Key(s[i]) == k
  }

  /** No two cards of s have the same tagline, ignoring case. */
  ghost predicate UniqueKeys(s: seq<Card>)
  {
    forall i, j :: 0 <= i < j < |s| ==> Key(s[i]) != Key(s[j])
  }

  /** s is in non-decreasing order of the lower-cased tagline. */
  ghost predicate SortedByKey(s: seq<Card>)
  {
    forall i, j :: 0 <= i < j < |s| ==> StrLe(Key(s[i]), Key(s[j]))
  }

  /** The set of keys of s: the tagline set the import starts from. */
  function Keys(s: seq<Card>): (r: set<string>)
    ensures forall k :: k in r <==> HasKey(s, k)
  {
    set i | 0 <= i < |s| :: Key(s[i])
  }

  /** create_default_data, and the document written when a new deck is
      created: the fixed deck name, valid, no cards. */
  function DefaultDeck(): (d: Deck)
    ensures d.deckName == "Сверхлюди" && d.isValid && d.proofs == []
    ensures SortedByKey(d.proofs) && UniqueKeys(d.proofs)
  {
    Deck("Сверхлюди", true, [])
  }

  /** The card add_card creates for a new tagline. */
  function NewCard(tagline: string): (c: Card)
    ensures c.content == Fact && c.tagline == tagline && c.cardType == 3
  {
    Card(Fact, tagline, 3)
  }

  /** Removing one card keeps the rest in order, so a sorted deck stays sorted
      and a deck with unique keys keeps them unique. */
  lemma DeleteKeepsOrderAndUniqueness(s: seq<Card>, i: nat)
    requires i < |s|
    ensures SortedByKey(s) ==> SortedByKey(s[..i] + s[i + 1..])
    ensures UniqueKeys(s) ==> UniqueKeys(s[..i] + s[i + 1..])
  {
    var r := s[..i] + s[i + 1..];
    assert forall m :: 0 <= m < |r| ==> r[m] == s[if m < i then m else m + 1];
  }
}
