/** The merge at the heart of import_cards: records of an imported deck are
    taken in order; a record is accepted when it has both a content and a
    tagline, its content normalises to Fact, and its lower-cased tagline is not
    yet in the tagline set, which grows with every accepted record. */
module ImportMerge {
  import opened Wrappers
  import opened Text
  import opened Cards
  import opened Sorting

  /** One record of the imported "proofs" list; a key the record lacks is None. */
  datatype ImportRecord = ImportRecord(content: Option<Value>, tagline: Option<string>, cardType: Option<int>)

  /** What json.load yields for the imported file: a dict holding a "proofs"
      list, or anything else (not a dict, or no "proofs" key). */
  datatype ImportFile = NotADeck | Proofs(records: seq<ImportRecord>)

  /** The outcome of one merge: the cards accepted, in order, and how many
      records were skipped. */
  datatype Tally = Tally(accepted: seq<Card>, skipped: nat)

  /** The record has both required keys and its content is Fact up to case. */
  predicate IsFactRecord(rec: ImportRecord)
  {
    rec.content.Some? && rec.tagline.Some? && NormalizeContent(rec.content.value) == Str(Fact)
  }

  /** The lower-cased tagline of a record that has one. */
  function RecordKey(rec: ImportRecord): string
    requires rec.tagline.Some?
  {
    Lower(rec.tagline.value)
  }

  /** The card stored for an accepted record: canonical content, the tagline
      exactly as imported, and the record's cardType or 3 when it has none. */
  function ImportedCard(rec: ImportRecord): (c: Card)
    requires rec.tagline.Some?
    ensures c.content == Fact && c.tagline == rec.tagline.value && Key(c) == RecordKey(rec)
    ensures rec.cardType.None? ==> c.cardType == 3
    ensures rec.cardType.Some? ==> c.cardType == rec.cardType.value
  {
    Card(Fact, rec.tagline.value, rec.cardType.GetOr(3))
  }

  /** The tagline set after the loop has looked at rec. */
  function SeenAfter(seen: set<string>, rec: ImportRecord): set<string>
  {
    if IsFactRecord(rec) && RecordKey(rec) !in seen then seen + {RecordKey(rec)} else seen
  }

  /** The merge loop over recs, starting from the tagline set seen. */
  function Merge(seen: set<string>, recs: seq<ImportRecord>): Tally
    decreases |recs|
  {
    if recs == [] then Tally([], 0)
    else
      var t := Merge(SeenAfter(seen, recs[0]), recs[1..]);
      if IsFactRecord(recs[0]) && RecordKey(recs[0]) !in seen then
        Tally([ImportedCard(recs[0])] + t.accepted, t.skipped)
      else
        Tally(t.accepted, t.skipped + 1)
  }

  /** Every record is either accepted or skipped, never both, never neither. */
  lemma {:induction false} MergeCounts(seen: set<string>, recs: seq<ImportRecord>)
    ensures |Merge(seen, recs).accepted| + Merge(seen, recs).skipped == |recs|
    decreases |recs|
  {
    if recs != [] {
      MergeCounts(SeenAfter(seen, recs[0]), recs[1..]);
    }
  }

  /** recs[j] is a record the loop started from seen accepts: a fact record
      whose key is neither in seen nor the key of an earlier fact record. */
  ghost predicate FirstOfKey(seen: set<string>, recs: seq<ImportRecord>, j: int)
  {
    0 <= j < |recs| && IsFactRecord(recs[j]) && RecordKey(recs[j]) !in seen &&
    forall j' :: 0 <= j' < j && IsFactRecord(recs[j']) ==> RecordKey(recs[j']) != RecordKey(recs[j])
  }

  /** idx lists in increasing order the positions of the records the cards of
      acc are built from, and these are exactly the FirstOfKey positions. */
  ghost predicate AcceptedAt(seen: set<string>, recs: seq<ImportRecord>, acc: seq<Card>, idx: seq<int>)
  {
    |idx| == |acc| &&
    (forall m, n :: 0 <= m < n < |idx| ==> idx[m] < idx[n]) &&
    (forall j :: j in idx <==> FirstOfKey(seen, recs, j)) &&
    (forall m :: 0 <= m < |idx| ==> FirstOfKey(seen, recs, idx[m]) && acc[m] == ImportedCard(recs[idx[m]]))
  }

  /** Past the first record, a record is first of its key for recs and seen
      exactly when it is so for the rest of recs and the set after recs[0]. */
  lemma FirstOfKeyShift(seen: set<string>, recs: seq<ImportRecord>, j: int)
    requires 0 < j && recs != []
    ensures FirstOfKey(seen, recs, j) <==> FirstOfKey(SeenAfter(seen, recs[0]), recs[1..], j - 1)
  {
    if 0 < j < |recs| {
      assert forall j' :: 0 <= j' < j - 1 ==> recs[1..][j'] == recs[j' + 1];
      assert recs[1..][j - 1] == recs[j];
      if FirstOfKey(SeenAfter(seen, recs[0]), recs[1..], j - 1) {
        forall j' | 0 <= j' < j && IsFactRecord(recs[j'])
          ensures RecordKey(recs[j']) != RecordKey(recs[j])
        {
          if j' > 0 {
            assert recs[1..][j' - 1] == recs[j'];
          }
        }
      }
    }
  }

  /** The acceptance rule of the loop, exactly: the accepted cards are the
      cards of the records that are first of their key, in file order. A
      later record with a key already taken, by the deck or by an earlier
      record of the file, is skipped. */
  lemma {:induction false} MergeAcceptsFirst(seen: set<string>, recs: seq<ImportRecord>)
    ensures exists idx :: AcceptedAt(seen, recs, Merge(seen, recs).accepted, idx)
    decreases |recs|
  {
    if recs == [] {
      assert Merge(seen, recs).accepted == [];
      assert AcceptedAt(seen, recs, [], []);
    } else {
      var seen' := SeenAfter(seen, recs[0]);
      MergeAcceptsFirst(seen', recs[1..]);
      var t := Merge(seen', recs[1..]).accepted;
      var idx' :| AcceptedAt(seen', recs[1..], t, idx');
      var idx := StepIndices(seen, recs, idx');
      StepMembers(seen, recs, idx');
      StepOrder(seen, recs, idx');
      StepCards(seen, recs, Merge(seen, recs).accepted, t, idx');
      assert AcceptedAt(seen, recs, Merge(seen, recs).accepted, idx);
    }
  }

  /** The positions for recs[1..] moved up by one, with 0 in front when
      recs[0] is accepted. */
  ghost function StepIndices(seen: set<string>, recs: seq<ImportRecord>, idx': seq<int>): (idx: seq<int>)
    ensures |idx| == |idx'| + (if FirstOfKey(seen, recs, 0) then 1 else 0)
  {
    (if FirstOfKey(seen, recs, 0) then [0] else []) + seq(|idx'|, m requires 0 <= m < |idx'| => idx'[m] + 1)
  }

  /** The positions StepIndices lists are exactly the FirstOfKey positions of
      recs, given that idx' lists those of recs[1..]. */
  lemma StepMembers(seen: set<string>, recs: seq<ImportRecord>, idx': seq<int>)
    requires recs != []
    requires forall j :: j in idx' <==> FirstOfKey(SeenAfter(seen, recs[0]), recs[1..], j)
    ensures forall j :: j in StepIndices(seen, recs, idx') <==> FirstOfKey(seen, recs, j)
  {
    var idx := StepIndices(seen, recs, idx');
    var d := if FirstOfKey(seen, recs, 0) then 1 else 0;
    assert forall m :: d <= m < |idx| ==> idx[m] == idx'[m - d] + 1;
    forall m | d <= m < |idx| ensures idx[m] > 0 {
      assert idx'[m - d] in idx';
    }
    forall j ensures j in idx <==> FirstOfKey(seen, recs, j) {
      if j > 0 {
        FirstOfKeyShift(seen, recs, j);
        if j - 1 in idx' {
          var m :| 0 <= m < |idx'| && idx'[m] == j - 1;
          assert idx[m + d] == j;
        }
        if j in idx {
          var m :| 0 <= m < |idx| && idx[m] == j;
          assert idx'[m - d] == j - 1;
        }
      } else if d == 1 {
        assert idx[0] == 0;
      }
    }
  }

  /** The positions StepIndices lists increase. */
  lemma StepOrder(seen: set<string>, recs: seq<ImportRecord>, idx': seq<int>)
    requires recs != []
    requires forall m, n :: 0 <= m < n < |idx'| ==> idx'[m] < idx'[n]
    requires forall m :: 0 <= m < |idx'| ==> FirstOfKey(SeenAfter(seen, recs[0]), recs[1..], idx'[m])
    ensures forall m, n :: 0 <= m < n < |StepIndices(seen, recs, idx')| ==>
      StepIndices(seen, recs, idx')[m] < StepIndices(seen, recs, idx')[n]
  {
    var idx := StepIndices(seen, recs, idx');
    var d := if FirstOfKey(seen, recs, 0) then 1 else 0;
    assert forall m :: d <= m < |idx| ==> idx[m] == idx'[m - d] + 1;
    forall m, n | 0 <= m < n < |idx| ensures idx[m] < idx[n] {
      if m >= d {
        assert idx'[m - d] < idx'[n - d];
      } else {
        assert FirstOfKey(SeenAfter(seen, recs[0]), recs[1..], idx'[n - d]);
      }
    }
  }

  /** Each position StepIndices lists is that of the record the card at the
      same place of acc is built from. */
  lemma StepCards(seen: set<string>, recs: seq<ImportRecord>, acc: seq<Card>, t: seq<Card>, idx': seq<int>)
    requires recs != [] && |idx'| == |t|
    requires forall m :: 0 <= m < |idx'| ==>
      FirstOfKey(SeenAfter(seen, recs[0]), recs[1..], idx'[m]) && t[m] == ImportedCard(recs[1..][idx'[m]])
    requires acc == if FirstOfKey(seen, recs, 0) then [ImportedCard(recs[0])] + t else t
    ensures forall m :: 0 <= m < |acc| ==>
      FirstOfKey(seen, recs, StepIndices(seen, recs, idx')[m]) &&
      acc[m] == ImportedCard(recs[StepIndices(seen, recs, idx')[m]])
  {
    var idx := StepIndices(seen, recs, idx');
    var d := if FirstOfKey(seen, recs, 0) then 1 else 0;
    forall m | 0 <= m < |acc|
      ensures FirstOfKey(seen, recs, idx[m]) && acc[m] == ImportedCard(recs[idx[m]])
    {
      if m >= d {
        StepCardAt(seen, recs, idx'[m - d]);
        assert idx[m] == idx'[m - d] + 1 && acc[m] == t[m - d];
      }
    }
  }

  /** A record first of its key in recs[1..] is so in recs, one place on. */
  lemma StepCardAt(seen: set<string>, recs: seq<ImportRecord>, j: int)
    requires recs != [] && FirstOfKey(SeenAfter(seen, recs[0]), recs[1..], j)
    ensures FirstOfKey(seen, recs, j + 1) && recs[1..][j] == recs[j + 1]
  {
    FirstOfKeyShift(seen, recs, j + 1);
  }

  /** The accepted cards have pairwise distinct keys, none of them in seen:
      duplicates inside the imported file are accepted once. */
  lemma {:induction false} MergeFresh(seen: set<string>, recs: seq<ImportRecord>)
    ensures UniqueKeys(Merge(seen, recs).accepted)
    ensures forall m :: 0 <= m < |Merge(seen, recs).accepted| ==> Key(Merge(seen, recs).accepted[m]) !in seen
    decreases |recs|
  {
    if recs != [] {
      if IsFactRecord(recs[0]) && RecordKey(recs[0]) !in seen {
        var k := RecordKey(recs[0]);
        MergeFresh(seen + {k}, recs[1..]);
        var t := Merge(seen + {k}, recs[1..]);
        var acc := [ImportedCard(recs[0])] + t.accepted;
        assert forall m :: 0 < m < |acc| ==> acc[m] == t.accepted[m - 1];
      } else {
        MergeFresh(seen, recs[1..]);
      }
    }
  }

  /** After the merge, the key of every fact record of the input is in the
      tagline set: either it was there before or its card was accepted. */
  lemma {:induction false} MergeCovers(seen: set<string>, recs: seq<ImportRecord>)
    ensures forall j :: 0 <= j < |recs| && IsFactRecord(recs[j]) ==>
      RecordKey(recs[j]) in seen || HasKey(Merge(seen, recs).accepted, RecordKey(recs[j]))
    decreases |recs|
  {
    if recs != [] {
      var accept := IsFactRecord(recs[0]) && RecordKey(recs[0]) !in seen;
      var seen' := SeenAfter(seen, recs[0]);
      MergeCovers(seen', recs[1..]);
      var t := Merge(seen', recs[1..]);
      var acc := Merge(seen, recs).accepted;
      forall j | 0 <= j < |recs| && IsFactRecord(recs[j])
        ensures RecordKey(recs[j]) in seen || HasKey(acc, RecordKey(recs[j]))
      {
        if accept && RecordKey(recs[j]) == RecordKey(recs[0]) {
          assert Key(acc[0]) == RecordKey(recs[0]);
        } else if j > 0 {
          assert recs[1..][j - 1] == recs[j];
          if HasKey(t.accepted, RecordKey(recs[j])) {
            var m :| 0 <= m < |t.accepted| && Key(t.accepted[m]) == RecordKey(recs[j]);
            var m' := if accept then m + 1 else m;
            assert acc[m'] == t.accepted[m];
          }
        }
      }
    }
  }

  /** When every fact record's key is already known, the merge accepts
      nothing and skips every record. */
  lemma {:induction false} MergeAllKnown(seen: set<string>, recs: seq<ImportRecord>)
    requires forall j :: 0 <= j < |recs| && IsFactRecord(recs[j]) ==> RecordKey(recs[j]) in seen
    ensures Merge(seen, recs) == Tally([], |recs|)
    decreases |recs|
  {
    if recs != [] {
      assert forall j :: 0 <= j < |recs[1..]| ==> recs[1..][j] == recs[j + 1];
      MergeAllKnown(seen, recs[1..]);
    }
  }

  /** The deck the import leaves behind: the accepted cards appended, then
      one sort. */
  function MergedDeck(deck: seq<Card>, recs: seq<ImportRecord>): (r: seq<Card>)
    ensures SortedByKey(r)
    ensures |r| == |deck| + |Merge(Keys(deck), recs).accepted|
    ensures multiset(r) == multiset(deck) + multiset(Merge(Keys(deck), recs).accepted)
  {
    var r := SortByTagline(deck + Merge(Keys(deck), recs).accepted);
    SortSorted(deck + Merge(Keys(deck), recs).accepted);
    SortPermutes(deck + Merge(Keys(deck), recs).accepted);
    r
  }

  /** What the import promises of the deck it leaves behind, in one place. */
  lemma MergedDeckFacts(deck: seq<Card>, recs: seq<ImportRecord>)
    ensures |Merge(Keys(deck), recs).accepted| + Merge(Keys(deck), recs).skipped == |recs|
    ensures |MergedDeck(deck, recs)| == |deck| + |Merge(Keys(deck), recs).accepted|
    ensures UniqueKeys(deck) ==> UniqueKeys(MergedDeck(deck, recs))
  {
    MergeCounts(Keys(deck), recs);
    if UniqueKeys(deck) {
      MergeKeepsUnique(deck, recs);
    }
  }

  /** An import keeps the taglines of a deck unique, if they were. */
  lemma MergeKeepsUnique(deck: seq<Card>, recs: seq<ImportRecord>)
    requires UniqueKeys(deck)
    ensures UniqueKeys(MergedDeck(deck, recs))
  {
    var acc := Merge(Keys(deck), recs).accepted;
    MergeFresh(Keys(deck), recs);
    var s := deck + acc;
    forall i, j | 0 <= i < j < |s| ensures Key(s[i]) != Key(s[j]) {
      if j >= |deck| {
        assert s[j] == acc[j - |deck|];
        if i < |deck| {
          assert HasKey(deck, Key(s[i]));
        } else {
          assert s[i] == acc[i - |deck|];
        }
      }
    }
    SortKeepsUnique(s);
  }

  /** Importing the same file a second time adds nothing and skips every
      record. */
  lemma MergeIdempotent(deck: seq<Card>, recs: seq<ImportRecord>)
    ensures Merge(Keys(MergedDeck(deck, recs)), recs) == Tally([], |recs|)
  {
    var acc := Merge(Keys(deck), recs).accepted;
    var after := MergedDeck(deck, recs);
    MergeCovers(Keys(deck), recs);
    forall j | 0 <= j < |recs| && IsFactRecord(recs[j]) ensures RecordKey(recs[j]) in Keys(after) {
      var k := RecordKey(recs[j]);
      SortSameKeys(deck + acc, k);
      if HasKey(deck, k) {
        var i :| 0 <= i < |deck| && Key(deck[i]) == k;
        assert (deck + acc)[i] == deck[i];
      } else {
        var m :| 0 <= m < |acc| && Key(acc[m]) == k;
        assert (deck + acc)[|deck| + m] == acc[m];
      }
    }
    MergeAllKnown(Keys(after), recs);
  }

  /** A record whose content is "факт" in lower case is stored with the
      canonical content and cardType 3; a record with another content is
      skipped. */
  lemma MergeExample(a: ImportRecord, b: ImportRecord)
    requires a == ImportRecord(Some(Str("факт")), Some("Alpha"), None)
    requires b == ImportRecord(Some(Str("Opinion")), Some("Beta"), None)
    ensures Merge({}, [a, b]) == Tally([Card(Fact, "Alpha", 3)], 1)
  {
    assert IsFactRecord(a) && !IsFactRecord(b);
    var s1 := SeenAfter({}, a);
    assert [b][1..] == [] && [b][0] == b;
    assert Merge(s1, [b]) == Tally([], 1);
    assert [a, b][1..] == [b] && [a, b][0] == a;
    assert Merge({}, [a, b]) == Tally([ImportedCard(a)] + Merge(s1, [b]).accepted, Merge(s1, [b]).skipped);
  }

  /** Of two records whose taglines differ only in case, the first is stored,
      with its own tagline and cardType; the second is skipped. */
  lemma MergeFirstWins(a: ImportRecord, b: ImportRecord)
    requires a == ImportRecord(Some(Str("факт")), Some("Alpha"), Some(1))
    requires b == ImportRecord(Some(Str("факт")), Some("ALPHA"), Some(2))
    ensures Merge({}, [a, b]) == Tally([Card(Fact, "Alpha", 1)], 1)
  {
    assert IsFactRecord(a) && IsFactRecord(b);
    assert Lower("ALPHA") == Lower("Alpha");
    var s1 := SeenAfter({}, a);
    assert RecordKey(b) in s1;
    assert [b][1..] == [] && [b][0] == b;
    assert Merge(s1, [b]) == Tally([], 1);
    assert [a, b][1..] == [b] && [a, b][0] == a;
    assert Merge({}, [a, b]) == Tally([ImportedCard(a)] + Merge(s1, [b]).accepted, Merge(s1, [b]).skipped);
  }
}
