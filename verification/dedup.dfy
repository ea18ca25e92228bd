/** Deciding, entry by entry, whether a harvested person is new: the seen
    set of fingerprints, the admission of one person, and the processing of
    one query's batch of entries in page order. */
module Dedup {
  import opened Wrappers
  import opened Fields

  /** The fingerprints of a sequence of rows. */
  function FingerprintsOf(rows: seq<Row>): set<Fingerprint> {
    set i | 0 <= i < |rows| :: rows[i].identity
  }

  /** No two rows share a fingerprint. */
  predicate DistinctFingerprints(rows: seq<Row>) {
    forall i, j :: 0 <= i < j < |rows| ==> rows[i].identity != rows[j].identity
  }

  /** The row's `Prefix` column holds the search term. */
  predicate StampedWith(row: Row, term: string) {
    Column(row, Prefix) == term
  }

  /** Every person that was read has whitespace-trimmed values, as
      extraction guarantees. */
  predicate AllRead(entries: seq<Option<Person>>) {
    forall i :: 0 <= i < |entries| && entries[i].Some? ==> AllTrimmed(entries[i].value)
  }

  /** With distinct fingerprints there are as many fingerprints as rows. */
  lemma {:induction false} DistinctFingerprintsCount(rows: seq<Row>)
    requires DistinctFingerprints(rows)
    ensures |FingerprintsOf(rows)| == |rows|
  {
    if rows != [] {
      var init, last := rows[..|rows| - 1], rows[|rows| - 1];
      assert DistinctFingerprints(init) by {
        forall i, j | 0 <= i < j < |init| ensures init[i].identity != init[j].identity {
          assert init[i] == rows[i] && init[j] == rows[j];
        }
      }
      DistinctFingerprintsCount(init);
      assert last.identity !in FingerprintsOf(init) by {
        forall x | x in FingerprintsOf(init) ensures x != last.identity {
          var i :| 0 <= i < |init| && x == init[i].identity;
          assert init[i] == rows[i];
        }
      }
      FingerprintsOfAppend(init, [last]);
      assert rows == init + [last];
      assert FingerprintsOf([last]) == {last.identity};
    }
  }

  /** The fingerprint a read entry contributes (a skipped entry, none). */
  function EntryFingerprints(entry: Option<Person>): set<Fingerprint> {
    if entry.Some? then {FingerprintOf(entry.value)} else {}
  }

  /** The fingerprints of the persons that were read. */
  function PersonFingerprints(entries: seq<Option<Person>>): set<Fingerprint> {
    if entries == [] then {} else EntryFingerprints(entries[0]) + PersonFingerprints(entries[1..])
  }

  /** A person was read exactly when their fingerprint is among those of the
      batch. */
  lemma {:induction false} PersonFingerprintsMembers(entries: seq<Option<Person>>, fp: Fingerprint)
    ensures fp in PersonFingerprints(entries) <==>
              exists i :: 0 <= i < |entries| && entries[i].Some? && FingerprintOf(entries[i].value) == fp
  {
    if entries != [] {
      PersonFingerprintsMembers(entries[1..], fp);
      if fp in PersonFingerprints(entries[1..]) {
        var i :| 0 <= i < |entries[1..]| && entries[1..][i].Some? && FingerprintOf(entries[1..][i].value) == fp;
        assert entries[i + 1] == entries[1..][i];
      }
      if exists i :: 0 <= i < |entries| && entries[i].Some? && FingerprintOf(entries[i].value) == fp {
        var i :| 0 <= i < |entries| && entries[i].Some? && FingerprintOf(entries[i].value) == fp;
        if i > 0 { assert entries[1..][i - 1] == entries[i]; }
      }
    }
  }

  lemma FingerprintsOfAppend(a: seq<Row>, b: seq<Row>)
    ensures FingerprintsOf(a + b) == FingerprintsOf(a) + FingerprintsOf(b)
  {
    var ab := a + b;
    forall x | x in FingerprintsOf(ab) ensures x in FingerprintsOf(a) + FingerprintsOf(b) {
      var i :| 0 <= i < |ab| && x == ab[i].identity;
      if i < |a| { assert ab[i] == a[i]; } else { assert ab[i] == b[i - |a|]; }
    }
    forall x | x in FingerprintsOf(a) + FingerprintsOf(b) ensures x in FingerprintsOf(ab) {
      if x in FingerprintsOf(a) {
        var i :| 0 <= i < |a| && x == a[i].identity;
        assert ab[i] == a[i];
      } else {
        var i :| 0 <= i < |b| && x == b[i].identity;
        assert ab[|a| + i] == b[i];
      }
    }
  }

  /** One entry against the seen set. The set gains the entry's fingerprint
      (none for an unread block); a row is emitted for exactly the
      fingerprints that were not already seen, at most one, and it is the
      person stamped with the search term. */
  function Admit(term: string, entry: Option<Person>, seen: set<Fingerprint>): (r: (seq<Row>, set<Fingerprint>))
    ensures r.1 == seen + EntryFingerprints(entry)
    ensures FingerprintsOf(r.0) == EntryFingerprints(entry) - seen
    ensures |r.0| <= 1
    ensures forall i :: 0 <= i < |r.0| ==> entry.Some? && r.0[i] == Stamp(entry.value, term) && StampedWith(r.0[i], term)
  {
    match entry
    case None => ([], seen)
    case Some(p) =>
      var fp := FingerprintOf(p);
      if fp in seen then ([], seen)
      else
        var row := Stamp(p, term);
        assert [row][0] == row;
        assert FingerprintsOf([row]) == {fp};
        ([row], seen + {fp})
  }

  /** One query's batch, in page order: each entry is admitted against the
      set left by the entries before it. */
  function DedupBatch(term: string, entries: seq<Option<Person>>, seen: set<Fingerprint>): (r: (seq<Row>, set<Fingerprint>))
    ensures |r.0| <= |entries|
    ensures seen <= r.1
    decreases |entries|
  {
    if entries == [] then ([], seen)
    else
      var (head, seen1) := Admit(term, entries[0], seen);
      var (tail, seen2) := DedupBatch(term, entries[1..], seen1);
      (head + tail, seen2)
  }

  /** The emitted rows carry pairwise distinct fingerprints, none of them
      seen before, and the set grows by exactly those fingerprints. */
  lemma {:induction false} DedupBatchFresh(term: string, entries: seq<Option<Person>>, seen: set<Fingerprint>)
    ensures DedupBatch(term, entries, seen).1 == seen + FingerprintsOf(DedupBatch(term, entries, seen).0)
    ensures FingerprintsOf(DedupBatch(term, entries, seen).0) !! seen
    ensures DistinctFingerprints(DedupBatch(term, entries, seen).0)
    decreases |entries|
  {
    if entries != [] {
      var (head, seen1) := Admit(term, entries[0], seen);
      var (tail, seen2) := DedupBatch(term, entries[1..], seen1);
      DedupBatchFresh(term, entries[1..], seen1);
      FingerprintsOfAppend(head, tail);
      if head != [] {
        assert FingerprintsOf(head) == {head[0].identity};
        var rows := head + tail;
        forall j | 0 < j < |rows| ensures rows[0].identity != rows[j].identity {
          assert rows[j] == tail[j - 1];
          assert tail[j - 1].identity in FingerprintsOf(tail);
        }
      } else {
        assert head + tail == tail;
      }
    }
  }

  /** After the batch the set holds the fingerprint of every person read,
      and nothing else new. */
  lemma {:induction false} DedupBatchCovers(term: string, entries: seq<Option<Person>>, seen: set<Fingerprint>)
    ensures DedupBatch(term, entries, seen).1 == seen + PersonFingerprints(entries)
    decreases |entries|
  {
    if entries != [] {
      var (head, seen1) := Admit(term, entries[0], seen);
      DedupBatchCovers(term, entries[1..], seen1);
    }
  }

  /** Every emitted row is stamped with the search term. */
  lemma {:induction false} DedupBatchStamped(term: string, entries: seq<Option<Person>>, seen: set<Fingerprint>)
    ensures forall k :: 0 <= k < |DedupBatch(term, entries, seen).0| ==> StampedWith(DedupBatch(term, entries, seen).0[k], term)
    decreases |entries|
  {
    if entries != [] {
      var (head, seen1) := Admit(term, entries[0], seen);
      var (tail, seen2) := DedupBatch(term, entries[1..], seen1);
      DedupBatchStamped(term, entries[1..], seen1);
      var rows := head + tail;
      forall k | 0 <= k < |rows| ensures StampedWith(rows[k], term) {
        if k < |head| { assert rows[k] == head[k]; } else { assert rows[k] == tail[k - |head|]; }
      }
    }
  }

  /** When every person was read with trimmed values, every emitted row has
      the shape the scraper writes. */
  lemma {:induction false} DedupBatchScraperRows(term: string, entries: seq<Option<Person>>, seen: set<Fingerprint>)
    requires AllRead(entries)
    ensures forall k :: 0 <= k < |DedupBatch(term, entries, seen).0| ==> IsScraperRow(DedupBatch(term, entries, seen).0[k])
    decreases |entries|
  {
    if entries != [] {
      var (head, seen1) := Admit(term, entries[0], seen);
      var (tail, seen2) := DedupBatch(term, entries[1..], seen1);
      assert AllRead(entries[1..]) by {
        forall i | 0 <= i < |entries[1..]| && entries[1..][i].Some? ensures AllTrimmed(entries[1..][i].value) {
          assert entries[1..][i] == entries[i + 1];
        }
      }
      DedupBatchScraperRows(term, entries[1..], seen1);
      if entries[0].Some? { StampScraperRow(entries[0].value, term); }
      var rows := head + tail;
      forall k | 0 <= k < |rows| ensures IsScraperRow(rows[k]) {
        if k < |head| { assert rows[k] == head[k]; } else { assert rows[k] == tail[k - |head|]; }
      }
    }
  }

  /** Against a set that already holds every person's fingerprint, a batch
      emits nothing and leaves the set as it was. */
  lemma {:induction false} DedupAllSeen(term: string, entries: seq<Option<Person>>, seen: set<Fingerprint>)
    requires PersonFingerprints(entries) <= seen
    ensures DedupBatch(term, entries, seen) == ([], seen)
    decreases |entries|
  {
    if entries != [] {
      DedupAllSeen(term, entries[1..], seen);
    }
  }

  /** Re-processing the same entries, under any search term, against the set
      the first pass produced emits nothing and changes nothing. */
  lemma DedupIdempotent(term: string, term': string, entries: seq<Option<Person>>, seen: set<Fingerprint>)
    ensures DedupBatch(term', entries, DedupBatch(term, entries, seen).1) == ([], DedupBatch(term, entries, seen).1)
  {
    DedupBatchCovers(term, entries, seen);
    DedupAllSeen(term', entries, DedupBatch(term, entries, seen).1);
  }

  /** Persons who are all new and pairwise distinct are all emitted, in
      page order, each stamped with the search term: three distinct persons
      found from an empty set give three rows. */
  lemma {:induction false} DedupBatchAllNew(term: string, entries: seq<Option<Person>>, seen: set<Fingerprint>)
    requires forall i :: 0 <= i < |entries| ==> entries[i].Some? && FingerprintOf(entries[i].value) !in seen
    requires forall i, j :: 0 <= i < j < |entries| ==> FingerprintOf(entries[i].value) != FingerprintOf(entries[j].value)
    ensures |DedupBatch(term, entries, seen).0| == |entries|
    ensures forall i :: 0 <= i < |entries| ==> DedupBatch(term, entries, seen).0[i] == Stamp(entries[i].value, term)
    decreases |entries|
  {
    if entries != [] {
      var (head, seen1) := Admit(term, entries[0], seen);
      var rest := entries[1..];
      forall i | 0 <= i < |rest| ensures rest[i].Some? && FingerprintOf(rest[i].value) !in seen1 {
        assert rest[i] == entries[i + 1];
      }
      forall i, j | 0 <= i < j < |rest| ensures FingerprintOf(rest[i].value) != FingerprintOf(rest[j].value) {
        assert rest[i] == entries[i + 1] && rest[j] == entries[j + 1];
      }
      DedupBatchAllNew(term, rest, seen1);
      var (tail, seen2) := DedupBatch(term, rest, seen1);
      forall i | 0 <= i < |entries| ensures (head + tail)[i] == Stamp(entries[i].value, term) {
        if i > 0 { assert (head + tail)[i] == tail[i - 1] && rest[i - 1] == entries[i]; }
      }
    }
  }
}
