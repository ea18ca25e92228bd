/** The crawl driver: one query against the directory (read, dedup, persist,
    refine when saturated), the loop over the two-letter prefixes with its
    checkpoint, and a whole run from what is on disk. The directory site is
    an oracle from query text to what the browser would read; the files are
    fields of a `Disk` value. */
module Crawl {
  import opened Wrappers
  import opened Text
  import opened Fields
  import opened Extraction
  import opened Dedup
  import opened Sink
  import opened Queries

  /** At most this many result pages are read per query. */
  const MaxPages: nat := 10

  /** What a query yields: the page failed to load, or the result pages in
      order, each a sequence of result blocks. */
  datatype Fetch = LoadFailed | Loaded(pages: seq<seq<RawEntry>>)

  /** The directory site, seen from the crawler. */
  type Oracle = string -> Fetch

  /** The blocks of a run of pages, in page order. */
  function Flatten(pages: seq<seq<RawEntry>>): seq<RawEntry> {
    if pages == [] then [] else pages[0] + Flatten(pages[1..])
  }

  /** The blocks of pages 1 to 10, the pages the crawler looks for. */
  function ReadEntries(pages: seq<seq<RawEntry>>): seq<RawEntry> {
    Flatten(if |pages| <= MaxPages then pages else pages[..MaxPages])
  }

  /** The person read from each block, in order (`None` for a skipped
      block). */
  function ExtractAll(raw: seq<RawEntry>): (r: seq<Option<Person>>)
    ensures |r| == |raw|
    ensures forall i :: 0 <= i < |raw| ==> r[i] == ExtractPerson(raw[i])
    ensures AllRead(r)
  {
    seq(|raw|, i requires 0 <= i < |raw| => ExtractPerson(raw[i]))
  }

  /** What lies on disk between queries: the pickled seen set, the results
      file and the checkpoint file, each possibly absent. */
  datatype Disk = Disk(seenFile: Option<set<Fingerprint>>, sink: Option<seq<Line>>, checkpoint: Option<string>)

  /** The state of a run: the in-memory seen set, the disk, the running
      total of rows saved, and the log of queries issued so far. */
  datatype Session = Session(seen: set<Fingerprint>, disk: Disk, total: nat, issued: seq<string>)

  /** The rows of the results file (none when it is absent). */
  function SinkRows(d: Disk): seq<Row> {
    RowsOf(d.sink.GetOr([]))
  }

  /** The end of one query: the seen set is pickled, then the batch is
      appended to the results file, then the total grows by the batch's
      row count. */
  function Flush(s: Session, rows: seq<Row>, seen: set<Fingerprint>): (r: Session)
    ensures r.issued == s.issued && r.disk.checkpoint == s.disk.checkpoint
  {
    Session(seen, Disk(Some(seen), Some(Append(s.disk.sink, rows)), s.disk.checkpoint), s.total + |rows|, s.issued)
  }

  /** Whether a loaded query is refined: its raw block count reaches the cap
      and the depth bound allows one more level. */
  predicate Refines(f: Fetch, fuel: nat) {
    f.Loaded? && Saturated(|ReadEntries(f.pages)|) && fuel > 0
  }

  /** One query. A page that fails to load ends the query with nothing
      persisted. Otherwise every block is read, the new persons are kept,
      the seen set and the batch are persisted, and a saturated query is
      refined: each child query is run in turn, one level deeper. */
  function Process(term: string, oracle: Oracle, fuel: nat, s: Session): (r: Session)
    ensures s.issued + [term] <= r.issued
    ensures r.disk.checkpoint == s.disk.checkpoint
    ensures s.seen <= r.seen && s.total <= r.total
    decreases fuel, 0, 0
  {
    match oracle(term)
    case LoadFailed => s.(issued := s.issued + [term])
    case Loaded(pages) =>
      var flushed := Scrape(term, pages, s);
      if Refines(oracle(term), fuel) then RefineAll(Children(term), oracle, fuel - 1, flushed) else flushed
  }

  /** The query itself, once its page has loaded: log it, read every block,
      keep the new persons, persist. */
  function Scrape(term: string, pages: seq<seq<RawEntry>>, s: Session): (r: Session)
    ensures r.issued == s.issued + [term] && r.disk.checkpoint == s.disk.checkpoint
  {
    var (rows, seen) := DedupBatch(term, ExtractAll(ReadEntries(pages)), s.seen);
    Flush(s.(issued := s.issued + [term]), rows, seen)
  }

  /** The child queries of a saturated query, in order. */
  function RefineAll(terms: seq<string>, oracle: Oracle, fuel: nat, s: Session): (r: Session)
    ensures s.issued <= r.issued
    ensures terms != [] ==> |s.issued| < |r.issued| && r.issued[|s.issued|] == terms[0]
    ensures r.disk.checkpoint == s.disk.checkpoint
    ensures s.seen <= r.seen && s.total <= r.total
    decreases fuel, 1, |terms|
  {
    if terms == [] then s else RefineAll(terms[1..], oracle, fuel, Process(terms[0], oracle, fuel, s))
  }

  /** The top-level loop: each prefix in turn, the checkpoint overwritten
      with it once its query, refinements included, has returned. */
  function CrawlPrefixes(ps: seq<string>, oracle: Oracle, fuel: nat, s: Session): (r: Session)
    ensures ps == [] ==> r == s
    ensures ps != [] ==> r.disk.checkpoint == Some(ps[|ps| - 1])
    ensures s.issued <= r.issued && |r.issued| >= |s.issued| + |ps|
    ensures s.seen <= r.seen && s.total <= r.total
    decreases |ps|
  {
    if ps == [] then s
    else
      var done := Process(ps[0], oracle, fuel, s);
      CrawlPrefixes(ps[1..], oracle, fuel, done.(disk := done.disk.(checkpoint := Some(ps[0]))))
  }

  /** The checkpoint text a run starts from: the stripped file content, or
      "" when there is no checkpoint file. */
  function CheckpointText(d: Disk): string {
    if d.checkpoint.Some? then Strip(d.checkpoint.value) else ""
  }

  /** The session a run starts with: the pickled seen set if there is one,
      else the empty set. */
  function Start(d: Disk): Session {
    Session(d.seenFile.GetOr({}), d, 0, [])
  }

  /** The prefixes a run visits: those from the resume position on. */
  function Remaining(mode: Mode, d: Disk): seq<string> {
    Prefixes(mode)[ResumeIndex(mode, CheckpointText(d))..]
  }

  /** A whole run that completes: resume, crawl the remaining prefixes, then
      remove the checkpoint file. */
  function Run(mode: Mode, oracle: Oracle, fuel: nat, d: Disk): (r: Session)
    ensures r.disk.checkpoint.None?
    ensures |r.issued| >= |Remaining(mode, d)|
    ensures d.seenFile.GetOr({}) <= r.seen
  {
    var s := CrawlPrefixes(Remaining(mode, d), oracle, fuel, Start(d));
    s.(disk := s.disk.(checkpoint := None))
  }

  /** A run stopped after its first `n` prefixes have completed (the
      process killed before the next prefix starts). */
  function Interrupted(mode: Mode, oracle: Oracle, fuel: nat, d: Disk, n: nat): (r: Session)
    requires n <= |Remaining(mode, d)|
    ensures n == 0 ==> r == Start(d)
    ensures n >= 1 ==> r.disk.checkpoint == Some(Remaining(mode, d)[n - 1])
  {
    CrawlPrefixes(Remaining(mode, d)[..n], oracle, fuel, Start(d))
  }

  // ---------------------------------------------------------------------
  // Queries issued and the checkpoint

  /** The three ways a query ends. */
  lemma ProcessCases(term: string, oracle: Oracle, fuel: nat, s: Session)
    ensures oracle(term).LoadFailed? ==> Process(term, oracle, fuel, s) == s.(issued := s.issued + [term])
    ensures oracle(term).Loaded? && !Refines(oracle(term), fuel) ==>
              Process(term, oracle, fuel, s) == Scrape(term, oracle(term).pages, s)
    ensures Refines(oracle(term), fuel) ==>
              Process(term, oracle, fuel, s) == RefineAll(Children(term), oracle, fuel - 1, Scrape(term, oracle(term).pages, s))
  {
  }

  /** Every query logged from position `from` on strictly extends `root`. */
  predicate ExtendsFrom(issued: seq<string>, from: nat, root: string) {
    forall k :: from <= k < |issued| ==> |root| < |issued[k]| && StartsWith(issued[k], root)
  }

  /** Every query a query causes after logging itself is a strict extension
      of it. */
  lemma {:induction false} ProcessIssues(term: string, oracle: Oracle, fuel: nat, s: Session)
    ensures ExtendsFrom(Process(term, oracle, fuel, s).issued, |s.issued| + 1, term)
    decreases fuel, 0, 1
  {
    if Refines(oracle(term), fuel) {
      RefinedIssues(term, oracle, fuel, s);
    } else {
      UnrefinedIssues(term, oracle, fuel, s);
    }
  }

  /** An unrefined query logs itself and nothing else. */
  lemma UnrefinedIssues(term: string, oracle: Oracle, fuel: nat, s: Session)
    requires !Refines(oracle(term), fuel)
    ensures Process(term, oracle, fuel, s).issued == s.issued + [term]
  {
    ProcessCases(term, oracle, fuel, s);
  }

  lemma {:induction false} RefinedIssues(term: string, oracle: Oracle, fuel: nat, s: Session)
    requires Refines(oracle(term), fuel)
    ensures ExtendsFrom(Process(term, oracle, fuel, s).issued, |s.issued| + 1, term)
    decreases fuel, 0, 0
  {
    var flushed := Scrape(term, oracle(term).pages, s);
    ChildrenIssues(term, oracle, fuel - 1, flushed);
    assert |flushed.issued| == |s.issued| + 1;
    ProcessCases(term, oracle, fuel, s);
  }

  /** The refinements of `term` add only strict extensions of it. */
  lemma {:induction false} ChildrenIssues(term: string, oracle: Oracle, fuel: nat, s: Session)
    ensures ExtendsFrom(RefineAll(Children(term), oracle, fuel, s).issued, |s.issued|, term)
    decreases fuel, 2, 0
  {
    ChildrenExtend(term);
    RefineAllIssues(Children(term), term, oracle, fuel, s);
  }

  /** Child queries add only strict extensions of their common root. */
  lemma {:induction false} RefineAllIssues(terms: seq<string>, root: string, oracle: Oracle, fuel: nat, s: Session)
    requires forall t :: t in terms ==> |root| < |t| && StartsWith(t, root)
    ensures ExtendsFrom(RefineAll(terms, oracle, fuel, s).issued, |s.issued|, root)
    decreases fuel, 1, |terms|
  {
    if terms != [] {
      var t := terms[0];
      var s1 := Process(t, oracle, fuel, s);
      ProcessIssues(t, oracle, fuel, s);
      assert t in terms;
      forall k | |s.issued| <= k < |s1.issued| ensures |root| < |s1.issued[k]| && StartsWith(s1.issued[k], root) {
        if k > |s.issued| {
          StartsWithTransitive(s1.issued[k], t, root);
        } else {
          assert s1.issued[k] == (s.issued + [t])[k];
        }
      }
      assert s1.issued[|s.issued|] == (s.issued + [t])[|s.issued|];
      forall u | u in terms[1..] ensures |root| < |u| && StartsWith(u, root) {
        assert u in terms;
      }
      RefineAllIssues(terms[1..], root, oracle, fuel, s1);
      var r := RefineAll(terms[1..], oracle, fuel, s1);
      forall k | |s.issued| <= k < |r.issued| ensures |root| < |r.issued[k]| && StartsWith(r.issued[k], root) {
        if k < |s1.issued| { assert r.issued[k] == s1.issued[k]; }
      }
    }
  }

  /** Every query logged at a position in `[from, to)` strictly extends
      `root`. */
  predicate ExtendsBetween(issued: seq<string>, from: int, to: int, root: string) {
    forall k :: from <= k < to && 0 <= k < |issued| ==> |root| < |issued[k]| && StartsWith(issued[k], root)
  }

  /** Where the `i`-th top-level query's segment of the log ends: at the
      next top-level query, or at the end of the log `n`. */
  function SegmentEnd(pos: seq<int>, i: int, n: int): int
    requires 0 <= i < |pos|
  {
    if i + 1 < |pos| then pos[i + 1] else n
  }

  /** `issued`, from position `from` on, is the log of a crawl over `ps`:
      the prefixes are logged in order at the positions `pos`, the first
      one at `from`, and every query logged between one prefix and the next
      (or the end of the log) strictly extends the first of the two. */
  predicate LogShape(issued: seq<string>, ps: seq<string>, pos: seq<int>, from: nat) {
    && |pos| == |ps|
    && (ps != [] ==> pos[0] == from)
    && (forall i :: 0 <= i < |ps| ==> from <= pos[i] < |issued| && issued[pos[i]] == ps[i])
    && (forall i :: 0 <= i < |ps| - 1 ==> pos[i] < pos[i + 1])
    && (forall i :: 0 <= i < |ps| ==> ExtendsBetween(issued, pos[i] + 1, SegmentEnd(pos, i, |issued|), ps[i]))
  }

  /** One more prefix in front: its own query's log `first` is followed by
      a log of the rest. */
  lemma LogShapeCons(issued: seq<string>, first: seq<string>, ps: seq<string>, rest: seq<int>, from: nat)
    requires ps != [] && from < |first| && first <= issued
    requires first[from] == ps[0] && ExtendsFrom(first, from + 1, ps[0])
    requires |ps| == 1 ==> issued == first
    requires LogShape(issued, ps[1..], rest, |first|)
    ensures LogShape(issued, ps, [from] + rest, from)
  {
    ConsPositions(issued, first, ps, rest, from);
    ConsSegments(issued, first, ps, rest, from);
  }

  /** The positions part of `LogShapeCons`. */
  lemma ConsPositions(issued: seq<string>, first: seq<string>, ps: seq<string>, rest: seq<int>, from: nat)
    requires ps != [] && from < |first| && first <= issued && first[from] == ps[0]
    requires |rest| == |ps| - 1
    requires |ps| > 1 ==> rest[0] == |first|
    requires forall i :: 0 <= i < |ps| - 1 ==> |first| <= rest[i] < |issued| && issued[rest[i]] == ps[1..][i]
    requires forall i :: 0 <= i < |ps| - 2 ==> rest[i] < rest[i + 1]
    ensures forall i :: 0 <= i < |ps| ==> from <= ([from] + rest)[i] < |issued| && issued[([from] + rest)[i]] == ps[i]
    ensures forall i :: 0 <= i < |ps| - 1 ==> ([from] + rest)[i] < ([from] + rest)[i + 1]
  {
    var pos := [from] + rest;
    forall i | 1 <= i < |ps| ensures from <= pos[i] < |issued| && issued[pos[i]] == ps[i] {
      assert pos[i] == rest[i - 1] && ps[i] == ps[1..][i - 1];
    }
    forall i | 0 <= i < |ps| - 1 ensures pos[i] < pos[i + 1] {
      if i > 0 { assert pos[i] == rest[i - 1] && pos[i + 1] == rest[i]; }
    }
  }

  /** The segments part of `LogShapeCons`. */
  lemma ConsSegments(issued: seq<string>, first: seq<string>, ps: seq<string>, rest: seq<int>, from: nat)
    requires ps != [] && from < |first| && first <= issued && ExtendsFrom(first, from + 1, ps[0])
    requires |ps| == 1 ==> issued == first
    requires |rest| == |ps| - 1 && (|ps| > 1 ==> rest[0] == |first|)
    requires forall i :: 0 <= i < |ps| - 1 ==> from <= rest[i] < |issued|
    requires forall i :: 0 <= i < |ps| - 1 ==>
               ExtendsBetween(issued, rest[i] + 1, SegmentEnd(rest, i, |issued|), ps[1..][i])
    ensures forall i :: 0 <= i < |ps| ==>
              ExtendsBetween(issued, ([from] + rest)[i] + 1, SegmentEnd([from] + rest, i, |issued|), ps[i])
  {
    var pos := [from] + rest;
    assert SegmentEnd(pos, 0, |issued|) <= |first|;
    ExtendsWithin(issued, first, from + 1, SegmentEnd(pos, 0, |issued|), ps[0]);
    forall i | 1 <= i < |ps|
      ensures ExtendsBetween(issued, pos[i] + 1, SegmentEnd(pos, i, |issued|), ps[i])
    {
      ShiftSegment(issued, ps, rest, from, i);
    }
  }

  /** What the log of one query says about its positions holds in any
      longer log. */
  lemma ExtendsWithin(issued: seq<string>, first: seq<string>, from: int, to: int, root: string)
    requires first <= issued && to <= |first| && ExtendsFrom(first, if from < 0 then 0 else from, root)
    ensures ExtendsBetween(issued, from, to, root)
  {
    forall k | from <= k < to && 0 <= k < |issued| ensures |root| < |issued[k]| && StartsWith(issued[k], root) {
      assert issued[k] == first[k];
    }
  }

  /** Segment `i` of the longer crawl is segment `i - 1` of the rest. */
  lemma ShiftSegment(issued: seq<string>, ps: seq<string>, rest: seq<int>, from: nat, i: int)
    requires 1 <= i < |ps| && |rest| == |ps| - 1
    requires ExtendsBetween(issued, rest[i - 1] + 1, SegmentEnd(rest, i - 1, |issued|), ps[1..][i - 1])
    ensures ExtendsBetween(issued, ([from] + rest)[i] + 1, SegmentEnd([from] + rest, i, |issued|), ps[i])
  {
    var pos := [from] + rest;
    assert pos[i] == rest[i - 1] && ps[i] == ps[1..][i - 1];
    assert SegmentEnd(pos, i, |issued|) == SegmentEnd(rest, i - 1, |issued|);
  }

  /** The log of a crawl over `ps` has the shape above: the prefixes in
      order, the first right after the earlier log, each followed only by
      the refinements of its own query. */
  lemma {:induction false} CrawlLog(ps: seq<string>, oracle: Oracle, fuel: nat, s: Session) returns (pos: seq<int>)
    ensures LogShape(CrawlPrefixes(ps, oracle, fuel, s).issued, ps, pos, |s.issued|)
    decreases |ps|
  {
    if ps == [] {
      pos := [];
    } else {
      var done := Process(ps[0], oracle, fuel, s);
      var s1 := done.(disk := done.disk.(checkpoint := Some(ps[0])));
      var r := CrawlPrefixes(ps[1..], oracle, fuel, s1);
      assert CrawlPrefixes(ps, oracle, fuel, s) == r;
      ProcessIssues(ps[0], oracle, fuel, s);
      var rest := CrawlLog(ps[1..], oracle, fuel, s1);
      assert done.issued[|s.issued|] == (s.issued + [ps[0]])[|s.issued|];
      if |ps| == 1 {
        assert ps[1..] == [];
      }
      LogShapeCons(r.issued, done.issued, ps, rest, |s.issued|);
      pos := [|s.issued|] + rest;
    }
  }

  /** The log of a completed run, from its first entry: the remaining
      prefixes in order, the first one first, each followed by the
      refinements of its own query and nothing else. */
  lemma RunLog(mode: Mode, oracle: Oracle, fuel: nat, d: Disk) returns (pos: seq<int>)
    ensures LogShape(Run(mode, oracle, fuel, d).issued, Remaining(mode, d), pos, 0)
  {
    pos := CrawlLog(Remaining(mode, d), oracle, fuel, Start(d));
  }

  /** A completed run searches every remaining prefix. */
  lemma RunSearchesEveryPrefix(mode: Mode, oracle: Oracle, fuel: nat, d: Disk)
    ensures forall i :: 0 <= i < |Remaining(mode, d)| ==> Remaining(mode, d)[i] in Run(mode, oracle, fuel, d).issued
  {
    var pos := RunLog(mode, oracle, fuel, d);
    var issued := Run(mode, oracle, fuel, d).issued;
    forall i | 0 <= i < |Remaining(mode, d)| ensures Remaining(mode, d)[i] in issued {
      assert issued[pos[i]] == Remaining(mode, d)[i];
    }
  }

  /** A query is refined exactly when its page loads, its raw block count
      (skipped and duplicate blocks included) reaches 100, and the depth
      bound allows it: otherwise it issues nothing beyond itself, and when
      it is refined the next query issued is `term + "a"`. */
  lemma RefinesIff(term: string, oracle: Oracle, fuel: nat, s: Session)
    ensures !Refines(oracle(term), fuel) ==> Process(term, oracle, fuel, s).issued == s.issued + [term]
    ensures Refines(oracle(term), fuel) ==>
              |Process(term, oracle, fuel, s).issued| > |s.issued| + 1
              && Process(term, oracle, fuel, s).issued[|s.issued| + 1] == term + "a"
  {
    if Refines(oracle(term), fuel) {
      var flushed := Scrape(term, oracle(term).pages, s);
      assert |flushed.issued| == |s.issued| + 1;
      assert Children(term)[0] == term + "a";
    }
  }

  /** The saturation boundary, for a page that loads with depth to spare:
      100 raw blocks make the next query `term + "a"`; 99 raw blocks issue
      nothing beyond the query itself. */
  lemma SaturationBoundary(term: string, oracle: Oracle, fuel: nat, s: Session)
    requires oracle(term).Loaded? && fuel > 0
    ensures |ReadEntries(oracle(term).pages)| == 100 ==>
              |Process(term, oracle, fuel, s).issued| > |s.issued| + 1
              && Process(term, oracle, fuel, s).issued[|s.issued| + 1] == term + "a"
    ensures |ReadEntries(oracle(term).pages)| == 99 ==> Process(term, oracle, fuel, s).issued == s.issued + [term]
  {
    RefinesIff(term, oracle, fuel, s);
  }

  /** A search box that cannot be found is passed over: the query goes on
      against a page without result pages, so it reads nothing, yet the
      seen set is pickled, an empty batch is appended and the total stays. */
  lemma NoResultPages(term: string, oracle: Oracle, fuel: nat, s: Session)
    requires oracle(term) == Loaded([])
    ensures Process(term, oracle, fuel, s).issued == s.issued + [term]
    ensures Process(term, oracle, fuel, s).seen == s.seen
    ensures Process(term, oracle, fuel, s).total == s.total
    ensures Process(term, oracle, fuel, s).disk == Disk(Some(s.seen), Some(Append(s.disk.sink, [])), s.disk.checkpoint)
  {
    assert ReadEntries([]) == [];
    assert ExtractAll([]) == [];
  }

  /** Interrupted in forward order after `n >= 1` prefixes, the next run
      resumes at the last completed prefix: that prefix is scraped again,
      and none before it. */
  lemma ResumeAfterInterruption(oracle: Oracle, fuel: nat, d: Disk, n: nat)
    requires 1 <= n <= |Remaining(Forward, d)|
    ensures Remaining(Forward, Interrupted(Forward, oracle, fuel, d, n).disk)
         == Remaining(Forward, d)[n - 1..]
  {
    var start := ResumeIndex(Forward, CheckpointText(d));
    var ps := Remaining(Forward, d)[..n];
    var p := ps[n - 1];
    var d' := Interrupted(Forward, oracle, fuel, d, n).disk;
    assert p == AllPrefixes()[start + n - 1];
    AllPrefixesExact(p);
    PrefixIndexOf(start + n - 1);
    PrefixTrimmed(p);
    assert CheckpointText(d') == p;
    ResumeForward(p);
    assert p[..2] == p;
  }

  /** Interrupted in reversed order, the next run starts over from "zz". */
  lemma ReversedRestartsFromTop(oracle: Oracle, fuel: nat, d: Disk, n: nat)
    requires n <= |Remaining(Reversed, d)|
    ensures Remaining(Reversed, Interrupted(Reversed, oracle, fuel, d, n).disk) == Prefixes(Reversed)
  {
    ResumeReversedAlwaysZero(CheckpointText(Interrupted(Reversed, oracle, fuel, d, n).disk));
  }

  /** The position of a prefix is where it stands. */
  lemma PrefixIndexOf(i: int)
    requires 0 <= i < 676
    ensures IsPrefix(AllPrefixes()[i]) && PrefixIndex(AllPrefixes()[i]) == i
  {
    var p := AllPrefixes()[i];
    assert p == [Letter(i / 26), Letter(i % 26)];
  }

  /** A prefix has no surrounding whitespace, so stripping the checkpoint
      file gives it back. */
  lemma PrefixTrimmed(p: string)
    requires IsPrefix(p)
    ensures Strip(p) == p
  {
    assert !IsSpace(p[0]) && !IsSpace(p[|p| - 1]);
    TrimOfTrimmed(p, Whitespace);
  }

  // ---------------------------------------------------------------------
  // No duplicate rows

  /** The rows are all of the scraper's shape. */
  predicate AllScraperRows(rows: seq<Row>) {
    forall k :: 0 <= k < |rows| ==> IsScraperRow(rows[k])
  }

  /** What the files promise between queries: a header-first results file
      whose rows have pairwise distinct fingerprints and the scraper's
      shape, every one of them in the pickled seen set. */
  predicate DiskInv(d: Disk) {
    && WellFormed(d.sink.GetOr([]))
    && DistinctFingerprints(SinkRows(d))
    && AllScraperRows(SinkRows(d))
    && FingerprintsOf(SinkRows(d)) <= d.seenFile.GetOr({})
  }

  /** The session keeps the disk invariant and its seen set is the pickled
      one. */
  predicate Inv(s: Session) {
    DiskInv(s.disk) && s.disk.seenFile.GetOr({}) == s.seen
  }

  lemma DistinctAppend(a: seq<Row>, b: seq<Row>)
    requires DistinctFingerprints(a) && DistinctFingerprints(b)
    requires FingerprintsOf(a) !! FingerprintsOf(b)
    ensures DistinctFingerprints(a + b)
  {
    var ab := a + b;
    forall i, j | 0 <= i < j < |ab| ensures ab[i].identity != ab[j].identity {
      if j < |a| {
        assert ab[i] == a[i] && ab[j] == a[j];
      } else if i >= |a| {
        assert ab[i] == b[i - |a|] && ab[j] == b[j - |a|];
      } else {
        assert ab[i] == a[i] && ab[j] == b[j - |a|];
        assert a[i].identity in FingerprintsOf(a);
        assert b[j - |a|].identity in FingerprintsOf(b);
      }
    }
  }

  lemma ScraperRowsAppend(a: seq<Row>, b: seq<Row>)
    requires AllScraperRows(a) && AllScraperRows(b)
    ensures AllScraperRows(a + b)
  {
    var ab := a + b;
    forall k | 0 <= k < |ab| ensures IsScraperRow(ab[k]) {
      if k < |a| { assert ab[k] == a[k]; } else { assert ab[k] == b[k - |a|]; }
    }
  }

  /** Persisting a deduplicated batch keeps the invariant: the new rows'
      fingerprints were not seen, hence are not in the file, and the
      pickled set grows by exactly them. The file gains exactly the batch's
      rows and the total counts them. */
  lemma FlushBatch(term: string, entries: seq<Option<Person>>, s: Session)
    requires Inv(s) && AllRead(entries)
    ensures Inv(Flush(s, DedupBatch(term, entries, s.seen).0, DedupBatch(term, entries, s.seen).1))
    ensures SinkRows(Flush(s, DedupBatch(term, entries, s.seen).0, DedupBatch(term, entries, s.seen).1).disk)
         == SinkRows(s.disk) + DedupBatch(term, entries, s.seen).0
  {
    var (rows, seen) := DedupBatch(term, entries, s.seen);
    DedupBatchFresh(term, entries, s.seen);
    DedupBatchScraperRows(term, entries, s.seen);
    var s' := Flush(s, rows, seen);
    AppendRows(s.disk.sink, rows);
    AppendWellFormed(s.disk.sink, rows);
    var before := SinkRows(s.disk);
    DistinctAppend(before, rows);
    ScraperRowsAppend(before, rows);
    FingerprintsOfAppend(before, rows);
  }

  /** The query itself, once loaded, keeps the invariant, and the total
      counts exactly the rows it added to the file. */
  lemma ScrapeKeepsInv(term: string, pages: seq<seq<RawEntry>>, s: Session)
    requires Inv(s)
    ensures Inv(Scrape(term, pages, s))
    ensures SinkRows(s.disk) <= SinkRows(Scrape(term, pages, s).disk)
    ensures |SinkRows(Scrape(term, pages, s).disk)| - |SinkRows(s.disk)| == Scrape(term, pages, s).total - s.total
  {
    FlushBatch(term, ExtractAll(ReadEntries(pages)), s.(issued := s.issued + [term]));
  }

  /** One query, refinements included, keeps the invariant, and the total
      counts exactly the rows it added to the file. */
  lemma {:induction false} ProcessKeepsInv(term: string, oracle: Oracle, fuel: nat, s: Session)
    requires Inv(s)
    ensures Inv(Process(term, oracle, fuel, s))
    ensures SinkRows(s.disk) <= SinkRows(Process(term, oracle, fuel, s).disk)
    ensures |SinkRows(Process(term, oracle, fuel, s).disk)| - |SinkRows(s.disk)|
         == Process(term, oracle, fuel, s).total - s.total
    decreases fuel, 0, 0
  {
    ProcessCases(term, oracle, fuel, s);
    if oracle(term).Loaded? {
      var flushed := Scrape(term, oracle(term).pages, s);
      ScrapeKeepsInv(term, oracle(term).pages, s);
      if Refines(oracle(term), fuel) {
        ChildrenKeepInv(term, oracle, fuel - 1, flushed);
      }
    }
  }

  lemma {:induction false} ChildrenKeepInv(term: string, oracle: Oracle, fuel: nat, s: Session)
    requires Inv(s)
    ensures Inv(RefineAll(Children(term), oracle, fuel, s))
    ensures SinkRows(s.disk) <= SinkRows(RefineAll(Children(term), oracle, fuel, s).disk)
    ensures |SinkRows(RefineAll(Children(term), oracle, fuel, s).disk)| - |SinkRows(s.disk)|
         == RefineAll(Children(term), oracle, fuel, s).total - s.total
    decreases fuel, 2, 0
  {
    RefineAllKeepsInv(Children(term), oracle, fuel, s);
  }

  lemma {:induction false} RefineAllKeepsInv(terms: seq<string>, oracle: Oracle, fuel: nat, s: Session)
    requires Inv(s)
    ensures Inv(RefineAll(terms, oracle, fuel, s))
    ensures SinkRows(s.disk) <= SinkRows(RefineAll(terms, oracle, fuel, s).disk)
    ensures |SinkRows(RefineAll(terms, oracle, fuel, s).disk)| - |SinkRows(s.disk)|
         == RefineAll(terms, oracle, fuel, s).total - s.total
    decreases fuel, 1, |terms|
  {
    if terms != [] {
      ProcessKeepsInv(terms[0], oracle, fuel, s);
      RefineAllKeepsInv(terms[1..], oracle, fuel, Process(terms[0], oracle, fuel, s));
    }
  }

  lemma {:induction false} CrawlKeepsInv(ps: seq<string>, oracle: Oracle, fuel: nat, s: Session)
    requires Inv(s)
    ensures Inv(CrawlPrefixes(ps, oracle, fuel, s))
    ensures SinkRows(s.disk) <= SinkRows(CrawlPrefixes(ps, oracle, fuel, s).disk)
    ensures |SinkRows(CrawlPrefixes(ps, oracle, fuel, s).disk)| - |SinkRows(s.disk)|
         == CrawlPrefixes(ps, oracle, fuel, s).total - s.total
    decreases |ps|
  {
    if ps != [] {
      var done := Process(ps[0], oracle, fuel, s);
      ProcessKeepsInv(ps[0], oracle, fuel, s);
      CrawlKeepsInv(ps[1..], oracle, fuel, done.(disk := done.disk.(checkpoint := Some(ps[0]))));
    }
  }

  /** A run from files that keep the invariant leaves files that keep it:
      no fingerprint appears twice in the results file, across any number
      of interrupted and resumed runs. The rows already there stay, in
      front, and the reported total is the number of rows added. */
  lemma RunKeepsDiskInv(mode: Mode, oracle: Oracle, fuel: nat, d: Disk)
    requires DiskInv(d)
    ensures DiskInv(Run(mode, oracle, fuel, d).disk)
    ensures SinkRows(d) <= SinkRows(Run(mode, oracle, fuel, d).disk)
    ensures |SinkRows(Run(mode, oracle, fuel, d).disk)| == |SinkRows(d)| + Run(mode, oracle, fuel, d).total
  {
    CrawlKeepsInv(Remaining(mode, d), oracle, fuel, Start(d));
  }

  /** The same for a run that is stopped part way. */
  lemma InterruptedKeepsDiskInv(mode: Mode, oracle: Oracle, fuel: nat, d: Disk, n: nat)
    requires DiskInv(d) && n <= |Remaining(mode, d)|
    ensures DiskInv(Interrupted(mode, oracle, fuel, d, n).disk)
  {
    CrawlKeepsInv(Remaining(mode, d)[..n], oracle, fuel, Start(d));
  }

  // ---------------------------------------------------------------------
  // The seen set is exactly the file's fingerprints

  /** The in-memory seen set holds exactly the fingerprints of the rows in
      the results file: nothing was seen that was not also written. */
  predicate Exact(s: Session) {
    s.seen == FingerprintsOf(SinkRows(s.disk))
  }

  /** The same on disk: the pickled set is exactly the fingerprints of the
      results file's rows. */
  predicate DiskExact(d: Disk) {
    d.seenFile.GetOr({}) == FingerprintsOf(SinkRows(d))
  }

  /** Persisting a batch adds to the seen set exactly the fingerprints it
      appends to the file. */
  lemma ScrapeKeepsExact(term: string, pages: seq<seq<RawEntry>>, s: Session)
    requires Exact(s)
    ensures Exact(Scrape(term, pages, s))
  {
    var (rows, seen) := DedupBatch(term, ExtractAll(ReadEntries(pages)), s.seen);
    DedupBatchFresh(term, ExtractAll(ReadEntries(pages)), s.seen);
    AppendRows(s.disk.sink, rows);
    FingerprintsOfAppend(SinkRows(s.disk), rows);
  }

  lemma {:induction false} ProcessKeepsExact(term: string, oracle: Oracle, fuel: nat, s: Session)
    requires Exact(s)
    ensures Exact(Process(term, oracle, fuel, s))
    decreases fuel, 0, 0
  {
    ProcessCases(term, oracle, fuel, s);
    if oracle(term).Loaded? {
      var flushed := Scrape(term, oracle(term).pages, s);
      ScrapeKeepsExact(term, oracle(term).pages, s);
      if Refines(oracle(term), fuel) {
        ChildrenKeepExact(term, oracle, fuel - 1, flushed);
      }
    }
  }

  lemma {:induction false} ChildrenKeepExact(term: string, oracle: Oracle, fuel: nat, s: Session)
    requires Exact(s)
    ensures Exact(RefineAll(Children(term), oracle, fuel, s))
    decreases fuel, 2, 0
  {
    RefineAllKeepsExact(Children(term), oracle, fuel, s);
  }

  lemma {:induction false} RefineAllKeepsExact(terms: seq<string>, oracle: Oracle, fuel: nat, s: Session)
    requires Exact(s)
    ensures Exact(RefineAll(terms, oracle, fuel, s))
    decreases fuel, 1, |terms|
  {
    if terms != [] {
      ProcessKeepsExact(terms[0], oracle, fuel, s);
      RefineAllKeepsExact(terms[1..], oracle, fuel, Process(terms[0], oracle, fuel, s));
    }
  }

  lemma {:induction false} CrawlKeepsExact(ps: seq<string>, oracle: Oracle, fuel: nat, s: Session)
    requires Exact(s)
    ensures Exact(CrawlPrefixes(ps, oracle, fuel, s))
    decreases |ps|
  {
    if ps != [] {
      var done := Process(ps[0], oracle, fuel, s);
      ProcessKeepsExact(ps[0], oracle, fuel, s);
      CrawlKeepsExact(ps[1..], oracle, fuel, done.(disk := done.disk.(checkpoint := Some(ps[0]))));
    }
  }

  /** Files whose pickled set is exactly the results file's fingerprints
      stay so across a whole run, and the run's seen set is that set too:
      rebuilding the seen set from the results file then gives back what
      the crawler kept. */
  lemma RunKeepsExact(mode: Mode, oracle: Oracle, fuel: nat, d: Disk)
    requires DiskInv(d) && DiskExact(d)
    ensures DiskExact(Run(mode, oracle, fuel, d).disk)
    ensures Run(mode, oracle, fuel, d).seen == FingerprintsOf(SinkRows(Run(mode, oracle, fuel, d).disk))
  {
    CrawlKeepsInv(Remaining(mode, d), oracle, fuel, Start(d));
    CrawlKeepsExact(Remaining(mode, d), oracle, fuel, Start(d));
  }

  /** The same for a run that is stopped part way. */
  lemma InterruptedKeepsExact(mode: Mode, oracle: Oracle, fuel: nat, d: Disk, n: nat)
    requires DiskInv(d) && DiskExact(d) && n <= |Remaining(mode, d)|
    ensures DiskExact(Interrupted(mode, oracle, fuel, d, n).disk)
  {
    CrawlKeepsInv(Remaining(mode, d)[..n], oracle, fuel, Start(d));
    CrawlKeepsExact(Remaining(mode, d)[..n], oracle, fuel, Start(d));
  }

  /** A crash between the two writes of a query (seen set pickled, batch
      not yet appended) still leaves files that keep the invariant; the
      batch's persons are then in the seen set but not in the file, so a
      later run never writes them: re-reading the same blocks emits
      nothing. This is the one place where `DiskExact` is lost: the
      pickled set then holds more than the file, and a rebuild from the
      file gives a smaller set than the crawler kept. */
  lemma CrashBetweenWrites(term: string, entries: seq<Option<Person>>, s: Session)
    requires Inv(s)
    ensures DiskInv(s.disk.(seenFile := Some(DedupBatch(term, entries, s.seen).1)))
    ensures DedupBatch(term, entries, DedupBatch(term, entries, s.seen).1).0 == []
    ensures Exact(s) && DedupBatch(term, entries, s.seen).0 != [] ==>
              !DiskExact(s.disk.(seenFile := Some(DedupBatch(term, entries, s.seen).1)))
  {
    DedupBatchCovers(term, entries, s.seen);
    DedupIdempotent(term, term, entries, s.seen);
    var (rows, seen) := DedupBatch(term, entries, s.seen);
    if rows != [] {
      DedupBatchFresh(term, entries, s.seen);
      assert rows[0].identity in FingerprintsOf(rows);
      assert rows[0].identity in seen && rows[0].identity !in s.seen;
    }
  }

  /** A site that never loads: every top-level prefix is queried once, no
      row is written, the seen set and the files stay as they were, and the
      checkpoint is removed at the end. */
  lemma DeadOracle(mode: Mode, oracle: Oracle, fuel: nat, d: Disk)
    requires forall q :: oracle(q).LoadFailed?
    ensures Run(mode, oracle, fuel, d).issued == Remaining(mode, d)
    ensures Run(mode, oracle, fuel, d).disk == d.(checkpoint := None)
    ensures Run(mode, oracle, fuel, d).total == 0
  {
    DeadCrawl(Remaining(mode, d), oracle, fuel, Start(d));
  }

  lemma {:induction false} DeadCrawl(ps: seq<string>, oracle: Oracle, fuel: nat, s: Session)
    requires forall q :: oracle(q).LoadFailed?
    ensures CrawlPrefixes(ps, oracle, fuel, s).issued == s.issued + ps
    ensures CrawlPrefixes(ps, oracle, fuel, s).disk.(checkpoint := None) == s.disk.(checkpoint := None)
    ensures CrawlPrefixes(ps, oracle, fuel, s).seen == s.seen
    ensures CrawlPrefixes(ps, oracle, fuel, s).total == s.total
    decreases |ps|
  {
    if ps != [] {
      var done := Process(ps[0], oracle, fuel, s);
      assert oracle(ps[0]).LoadFailed?;
      DeadCrawl(ps[1..], oracle, fuel, done.(disk := done.disk.(checkpoint := Some(ps[0]))));
      assert s.issued + [ps[0]] + ps[1..] == s.issued + ps;
    }
  }
}
