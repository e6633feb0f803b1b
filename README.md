# Deck editor data layer, modelled in Dafny

This project models the data layer of `CardManager`, the class behind a small
desktop editor for a deck of "proof" cards. A deck document holds a name, a flag
that is carried through untouched, and a list of cards. Each card has a
`content` (always the Russian word for "fact", `"Факт"`, for cards the editor
creates), a `tagline` and a numeric `cardType`. The editor keeps the list
sorted by lower-cased tagline and refuses a new or renamed tagline that another
card already has, ignoring case. It can also merge the cards of another deck
file into the open one.

Modules, one per concern of `main.py`, plus `Wrappers` (wrappers.dfy), which
holds the `Option` type used for missing JSON keys, a load that failed, an
empty selection and a search that did not run:

- `Text` (text.dfy): Python's `str.lower()` as a character-wise Latin and
  Cyrillic fold, Python's code-point order on strings, and the substring test
  `p in s`. Properties: lower-casing is idempotent, the order is a total order,
  and the substring test means "occurs at some position".
- `Cards` (cards.dfy): the `Card` and `Deck` records, the sort key
  (lower-cased tagline), `normalize_content`, `create_default_data`, the card
  that `add_card` creates, and the two deck invariants, sortedness and unique
  keys.
- `Sorting` (sorting.dfy): `sort_cards` as a stable insertion sort. It is
  proved ordered, a permutation of its input, stable (for every key, cards with
  that key keep their order), idempotent on a sorted deck, and preserving of
  unique keys.
- `Search` (search.dfy): the matching list comprehension of `search_card`
  and the empty-query guard in front of it.
- `ImportMerge` (merge.dfy): the merge loop of `import_cards` as a function
  over the records, with the tagline set threaded through. Properties: counts
  add up, the accepted cards are exactly those of the first fact record of
  each new tagline, in file order, taglines stay unique
  (duplicates inside the file are accepted once), and a second import of the
  same file adds nothing.
- `Manager` (manager.dfy): class `CardManager` with the field `proofs` that
  the source mutates in place. Its methods are `SortCards`, `AddCard`,
  `EditCard`, `DeleteCard` and `ImportCards`; the merge loop of
  `ImportCards` is the method `AppendImported`. Every method except
  `AppendImported` keeps the class invariant that `proofs` is sorted.
  `AppendImported` is the loop, which appends without sorting as main.py:241
  does; `ImportCards` sorts once after it (main.py:247). The add, edit,
  delete and import methods also keep tagline uniqueness when it held before.
  Every method states its new `proofs` in terms of the old one.

Dialog answers become parameters: the typed tagline, the list-box selection as
an `Option<nat>`, the yes/no answer and the parsed import file. A cancelled
text dialog (`None`) and an empty answer take the same early return in the
source, so both are the empty string here.

Notes on what `main.py` itself does, which the model follows:

- The canonical content is the Cyrillic `"Факт"` (main.py:122, 237, 279).
  A record is imported when its content lower-cases to `"факт"`, and it is
  stored with `"Факт"`.
- Edit and delete act only on the list-box selection, which is in range or
  absent (main.py:136-138, 166-169). An absent selection returns early with a
  warning. The methods take the selection as an `Option<nat>` and require an
  index, when there is one, to be in range.
- A search for `"al"` over Alpha, Beta, Calypso finds Alpha and also Calypso,
  because "c-al-ypso" contains "al". `Search.SearchExample` proves the result
  is `[0, 2]`.
- The import accepts an empty tagline (main.py:227-243): a record with content
  `"факт"` and tagline `""` is stored, although `add_card` refuses empty
  taglines (main.py:113-114).
- Of two imported records whose taglines differ only in case, the first one
  is stored, with its own tagline and cardType, and the second is skipped
  (main.py:235-242).

## Model

| member | source | states |
|---|---|---|
| `Text.LowerIdempotent` | main.py:51 | `Lower`, the model of `str.lower()`, changes nothing when applied to its own result |
| `Text.StrLeTotal` | main.py:51 | any two sort keys are comparable under Python's string order |
| `Text.StrLeTransitive` | main.py:51 | Python's string order is transitive |
| `Text.StrLeAntisymmetric` | main.py:51 | two keys each at most the other are equal |
| `Text.IsInfixIff` | main.py:186-187 | `p in s` holds exactly when p occurs at some position of s |
| `Cards.NormalizeContent` | main.py:276-280 | the result is `"Факт"` exactly when the argument is a string whose lower-case is `"факт"`, and otherwise the argument comes back unchanged |
| `Cards.NormalizeContentIdempotent` | main.py:276-280 | normalising twice equals normalising once |
| `Cards.Keys` | main.py:223 | the tagline set holds exactly the lower-cased taglines of the deck |
| `Cards.DeleteKeepsOrderAndUniqueness` | main.py:175 | removing one card keeps a sorted deck sorted and unique taglines unique, without a re-sort |
| `Sorting.SortPermutes` | main.py:51 | `SortByTagline`, the model of `sorted(..., key=lambda x: x['tagline'].lower())`, returns the same cards, each as often, and the same length |
| `Sorting.SortSorted` | main.py:51 | `SortByTagline` returns a list non-decreasing by lower-cased tagline |
| `Sorting.SortStable` | main.py:51 | in `SortByTagline`'s result, for every key, the cards with that key keep their relative order |
| `Sorting.SortSameKeys` | main.py:51 | a key occurs in the sorted list exactly when it occurs in the input |
| `Sorting.SortKeepsUnique` | main.py:51 | sorting keeps taglines unique |
| `Sorting.SortOfSorted` | main.py:51 | sorting an already sorted list returns it unchanged |
| `Search.Matches` | main.py:185-187 | the result is strictly increasing, and holds i exactly when i is a position of the deck whose lower-cased tagline contains the lower-cased query |
| `Search.MatchesOccur` | main.py:185-187 | a position matches exactly when the lower-cased query occurs at some offset of its lower-cased tagline (`Occurs`) |
| `Search.SearchCards` | main.py:180-187 | an empty query runs no search; otherwise the increasing list of matching positions |
| `Search.SearchExample` | main.py:185-187 | "al" matches Alpha and Calypso and not Beta: the result is [0, 2] |
| `ImportMerge.MergeCounts` | main.py:221-245 | for `Merge`, the model of the loop, added plus skipped equals the number of imported records |
| `ImportMerge.MergeAcceptsFirst` | main.py:225-243 | the accepted cards are, in file order, exactly the cards built (`ImportedCard`: content "Факт", the tagline as imported, the cardType or 3) from the fact records whose key is neither in the deck nor the key of an earlier fact record |
| `ImportMerge.MergeFirstWins` | main.py:235-242 | of "Alpha" (cardType 1) and "ALPHA" (cardType 2), the first is stored as ("Факт", "Alpha", 1) and the second is skipped |
| `ImportMerge.MergeFresh` | main.py:223-243 | accepted cards have pairwise distinct keys, none already in the tagline set, so duplicates inside the file are accepted once |
| `ImportMerge.MergeCovers` | main.py:235-242 | after the merge every fact record's key is in the deck before or among the accepted cards |
| `ImportMerge.MergeAllKnown` | main.py:225-245 | when all fact records' keys are known, nothing is accepted and every record is skipped |
| `ImportMerge.MergedDeck` | main.py:241-247 | the deck after import is sorted, and holds the old cards plus the accepted ones, its length grown by the added count |
| `ImportMerge.MergeKeepsUnique` | main.py:223-247 | an import keeps taglines unique if they were |
| `ImportMerge.MergeIdempotent` | main.py:221-247 | importing the same file again adds 0 cards and skips every record |
| `ImportMerge.MergeExample` | main.py:231-245 | content "факт" with tagline Alpha is stored as ("Факт", "Alpha", 3); content "Opinion" is skipped |
| `Manager.CardManager.constructor` | main.py:7-15 | the open deck is the loaded document, or `DefaultDeck` (create_default_data, main.py:34-39: "Сверхлюди", valid, no cards) when loading failed, with its cards sorted |
| `Manager.CardManager.SortCards` | main.py:50-51 | proofs becomes its stable sort: sorted, the same multiset, each key's cards in their old order |
| `Manager.CardManager.AddCard` | main.py:109-130 | an empty tagline or a case-insensitive duplicate leaves proofs unchanged; otherwise `NewCard` (content "Факт", the tagline, cardType 3) is added, proofs grows by one and is re-sorted; uniqueness is kept |
| `Manager.CardManager.EditCard` | main.py:134-163 | no selection, an empty or identical tagline, or a collision at another index leaves proofs unchanged; otherwise only the selected card's tagline changes and proofs is re-sorted; uniqueness is kept |
| `Manager.CardManager.DeleteCard` | main.py:165-178 | with a selection and confirmation exactly that card is removed, the rest keep their order, and the deck stays sorted |
| `Manager.CardManager.ImportCards` | main.py:203-249 | a file that is not a deck changes nothing; otherwise the counts are those of `Merge` from the deck's tagline set, proofs becomes `MergedDeck` (the accepted cards appended, one sort), its length grows by the added count, and uniqueness is kept |
| `Manager.CardManager.AppendImported` | main.py:221-243 | the loop appends to proofs exactly the cards `Merge` accepts from the deck's tagline set, in order, and counts added and skipped records as `Merge` does |
| `Manager.AddKeepsUnique` | main.py:116-128 | adding a tagline no card has, ignoring case, keeps taglines unique |
| `Manager.AddThenDuplicate` | main.py:113-128 | after adding t, the same tagline in any letter case is a duplicate, so a second add is rejected |
| `Manager.RenameKeepsUnique` | main.py:152-160 | a rename that collides with no other index keeps taglines unique |
| `Manager.CaseOnlyRenameAllowed` | main.py:149-157 | in a deck with unique taglines, changing only the case of a card's own tagline never collides |
| `Manager.RenameChangesOneCard` | main.py:159-160 | after rename and sort the deck is the old multiset with the one card replaced by the same card under its new tagline, content and cardType kept |

## Left out

- User interface: the tkinter window, menus, list box, status bar, message boxes and dialogs (`create_widgets`, `refresh_listbox`, `update_status`, `show_start_dialog`, `main`, `on_closing`, and the selection and scrolling after add and search). They are presentation only; their answers enter the model as parameters.
- File I/O and JSON: `load_data`, `save_data`, `save_as`, the file write when a new deck is created, and the `json.load` of the import file are disk and library calls. The model keeps their pure results: the loaded or default document the constructor receives, and the import file as a deck with records or as "not a deck".
- The exception path of `import_cards` (main.py:257-258): a tagline that is not a string would raise mid-loop and leave cards appended but unsorted. Taglines are strings in the model.
- `Text.Lower`: folds only Latin A-Z and Cyrillic U+0400..U+042F. Python's full Unicode case mapping, including characters that lower to more than one character, is not modelled.
- `ImportMerge.ImportRecord`: a `cardType` is an integer when present. A non-integer JSON value stored as is, and a record that is not a JSON object, are not modelled.
- Saving after each mutation and the success messages are not modelled; they do not change `proofs`.
- build.py is packaging tooling and is not part of this model.
