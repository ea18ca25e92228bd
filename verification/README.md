# A model of the UTD directory crawler

The crawler harvests the public university directory by searching it. It
issues every two-letter prefix "aa" … "zz" in turn, or in reverse order. Each
search reads at most ten result pages and turns every result block into a
person (name, title and the labelled rows under it). It decides by a
fingerprint of ten identity fields whether the person is new. It pickles the
seen set, appends the new persons to a CSV file (header only when the file is
absent or empty) and adds them to a running total. A search that returned 100
or more blocks is "saturated" and is refined: the term plus each letter, and
for a term longer than two characters without a space also the term plus a
space and each letter. After each top-level prefix its name is written to a
checkpoint file. A run resumes from that file, and a completed run removes it.
A separate tool, the rebuild, recreates the pickled seen set from the CSV file.

The Dafny modules follow that structure:

- `Wrappers`: `Option` and `Result`.
- `Text`: Python's `strip`, `lstrip`, `strip(": ")`, `replace(": ", "")`, `startswith` and string `<`.
- `Fields`: the eleven expected fields, a person, the fingerprint, the output row.
- `Extraction`: one result block to a person.
- `Dedup`: the seen-set test over one search's blocks.
- `Sink`: the results file as header and record lines, and the append rule.
- `Queries`: the prefixes, the resume position, the refinements, the saturation test.
- `Crawl`: one search with its refinements, the prefix loop with its checkpoint, a whole run, and the invariant that no fingerprint is written twice.
- `Rebuild`: the rebuild, and its agreement with the file the crawler writes.

The directory site is a parameter, an `Oracle` from search text to what the
browser would read: a failed load, or the result pages. The files (seen set,
results, checkpoint) are the fields of a `Disk` value. Two details follow the
code as written:

- two field names keep their label colon ("Email:" and "Department:");
- a reversed run always restarts from "zz".

## Model

| member | source | states |
|---|---|---|
| Text.Trim | directory_scraper.py:118-120 | Stripping never lengthens a string, and leaves neither end a character of the stripped class. |
| Text.TrimCutsOnlyClass | directory_scraper.py:118-120 | `strip` keeps one contiguous slice of the input and removes only characters of its class on either side. |
| Text.CutUnique | directory_scraper.py:120 | Only one slice of a string is cut from it by a class with no character of that class left at either end. So the two facts above pin down what `strip` returns. |
| Text.TrimIdempotent | pkl_rebuild.py:60-63 | Stripping an already stripped value changes nothing. |
| Text.RemoveColonSpace | directory_scraper.py:117 | `replace(": ", "")` returns a label without ": " unchanged, and shortens one that has it by at least two characters. `Text.RemoveColonSpaceSplit` fixes the result on every other label. |
| Text.RemoveColonSpaceSplit | directory_scraper.py:117 | Replacing ": " by nothing in `a + ": " + b` gives the replacement in `a` followed by the replacement in `b`. Split at its first ": ", every label is either unchanged or reduced this way. |
| Text.RemoveColonSpaceCounts | directory_scraper.py:117 | `replace(": ", "")` keeps every character other than colon and space, and removes colons and spaces only in equal numbers. |
| Text.LexLtPairs | directory_scraper.py:235 | On two-character strings Python's `<` compares the first characters, then the second. |
| Fields.FieldNamedRoundTrip | directory_scraper.py:23 | Each expected field is found again from its own label text, so no two fields share a label. |
| Fields.FingerprintOf | directory_scraper.py:133 | For every field but `Prefix` the fingerprint records the person's value, or "" when the person lacks the field. |
| Fields.FingerprintEqualIff | directory_scraper.py:133 | Two persons share a fingerprint if and only if they agree on every field but `Prefix`, counting a missing field as "". |
| Fields.FingerprintIgnoresPrefix | directory_scraper.py:133 | Setting `Prefix` to any value leaves the fingerprint unchanged. |
| Fields.Stamp | directory_scraper.py:143-145 | The row written for a new person holds the search term in `Prefix` and the person's value in each other field, or "" where the field is missing. Its identity is the person's fingerprint. |
| Fields.StampScraperRow | directory_scraper.py:143-145 | A person read with trimmed values gives a row whose identity values are all trimmed. |
| Extraction.ParseCell | directory_scraper.py:117-122 | A cell's label is its left-stripped label text (trailing spaces kept) with every ": " removed. Its value is "" unless the stripped row text starts with the label. Otherwise the value is the text after the label with colons and spaces cut from both ends, then whitespace cut from both ends. |
| Extraction.ParseCellExact | directory_scraper.py:120 | Any string obtained from the text after the label by those two cuts is the cell's value. |
| Extraction.ApplyCells | directory_scraper.py:113-124 | Each field named by some cell ends with the value of its last such cell. A field that no cell names keeps what the person had. |
| Extraction.ExtractPerson | directory_scraper.py:96-124 | A block is skipped if and only if it cannot be read or its stripped name is empty. Each field named by a cell holds the last such cell's value. Otherwise `Name` is the stripped name text and `Title` the stripped title text, or "" without a title. No other field is present, and every value is trimmed. |
| Extraction.MissingLabelDefaultsEmpty | directory_scraper.py:123-133 | A field that no label of the block names reads as "" in the fingerprint. |
| Dedup.Admit | directory_scraper.py:133-146 | One block adds the fingerprint of the person read (none for an unread block) to the seen set. It emits at most one row, and the emitted rows' fingerprints are exactly the block's fingerprints that were not already seen. An emitted row is the person stamped with the term. |
| Dedup.DedupBatch | directory_scraper.py:94-146 | A search emits at most one row per block, and its seen set only grows. |
| Dedup.DedupBatchFresh | directory_scraper.py:136-146 | The rows a search emits have pairwise distinct fingerprints, none of them seen before. The seen set grows by exactly those fingerprints. |
| Dedup.DedupBatchCovers | directory_scraper.py:136-141 | After a search the seen set is the old set plus the fingerprint of every person read, duplicates included. |
| Dedup.DedupBatchStamped | directory_scraper.py:143-146 | Every emitted row carries the search term in `Prefix`. |
| Dedup.DedupBatchScraperRows | directory_scraper.py:143-146 | When every person was read with trimmed values, every emitted row's identity values are trimmed. |
| Dedup.DedupAllSeen | directory_scraper.py:136-138 | Against a set that already holds every person's fingerprint, a search emits nothing and leaves the set unchanged. |
| Dedup.DedupIdempotent | directory_scraper.py:136-141 | Re-reading the same blocks, under any search term, against the set the first reading left emits nothing. |
| Dedup.DedupBatchAllNew | directory_scraper.py:140-146 | Persons who are all new and pairwise distinct are all emitted, in page order, each stamped with the term. |
| Dedup.DistinctFingerprintsCount | directory_scraper.py:165 | Rows with pairwise distinct fingerprints have as many fingerprints as rows. |
| Sink.Columns | directory_scraper.py:159-162 | A batch's frame has no columns exactly when the batch is empty; otherwise it names every expected field. |
| Sink.Append | directory_scraper.py:159-162 | An append keeps what the file held, in front, and adds one line per row plus one header line when the file was absent or empty. |
| Sink.AppendRows | directory_scraper.py:160-162 | An append adds the batch's rows after those already in the file, in order. It adds one header exactly when the file was absent or empty. |
| Sink.AppendWellFormed | directory_scraper.py:161-162 | A file made of a header followed by records keeps that shape after an append. The first line is the new header when the header rule fires, and is unchanged otherwise. |
| Sink.AppendAllToNonEmpty | directory_scraper.py:161-162 | Appends to a non-empty file only add records, never a header. |
| Sink.AppendsFromEmpty | directory_scraper.py:160-162 | Starting with no file, a run of appends leaves one header naming the first batch's columns, followed by every row of every batch in order. |
| Sink.FreshFileShape | directory_scraper.py:160-162 | A file built from nothing holds exactly one header, first, and all the rows appended. |
| Queries.AllPrefixes | directory_scraper.py:228 | The prefix list has 676 entries, each two lowercase letters, from "aa" to "zz". |
| Queries.AllPrefixesExact | directory_scraper.py:228 | The prefix list holds exactly the two-lowercase-letter strings, each at its alphabetical position. |
| Queries.AllPrefixesAscending | directory_scraper.py:228 | The prefix list is strictly ascending under Python's string order. |
| Queries.PrefixesMembers | directory_scraper.py:228-231 | In both directions the crawl order holds exactly the two-letter lowercase strings. |
| Queries.FirstAtLeast | directory_scraper.py:234-237 | The resume scan returns the first position whose prefix is at least the key, or the fallback when no position is. |
| Queries.ResumeIndex | directory_scraper.py:217-237 | The resume position is a valid index. No earlier prefix is at least the checkpoint's first two characters, and the prefix there is, unless no prefix is. |
| Queries.ResumeFallbackIrrelevant | directory_scraper.py:233-237 | The position found by `index` never decides the resume point: the result is the same with a fallback of 0. |
| Queries.ResumeEmpty | directory_scraper.py:217-237 | With no checkpoint the crawl starts at the first prefix. |
| Queries.ResumeForward | directory_scraper.py:233-237 | Forward, a checkpoint beginning with two lowercase letters resumes at exactly that prefix. |
| Queries.ResumeForwardPastEnd | directory_scraper.py:233-237 | Forward, a checkpoint whose first two characters sort after "zz" sends the crawl back to "aa". |
| Queries.ResumeReversedAlwaysZero | directory_scraper.py:230-237 | Reversed, the resume position is 0 whatever the checkpoint holds. |
| Queries.Children | directory_scraper.py:182-188 | The refinements are issued in order: the term plus "a" … "z", then, when the term is longer than two characters and has no space, the term plus " a" … " z". |
| Queries.ChildrenMembers | directory_scraper.py:182-188 | A refinement is the term plus one lowercase letter, or the term plus a space and a letter when the term is longer than two characters and has no space. Every such string is issued. |
| Queries.ChildrenDistinct | directory_scraper.py:184-188 | No refinement is issued twice by one saturated search. |
| Queries.SpaceAddedOnce | directory_scraper.py:186 | A refinement containing a space gets only the 26 letter refinements. |
| Queries.ChildrenOfPrefix | directory_scraper.py:186-188 | A two-letter prefix gets 26 refinements; its three-letter extension without a space gets 52. |
| Crawl.ExtractAll | directory_scraper.py:94-130 | Entry i of the result is the reading of block i, and every person read has trimmed values. |
| Crawl.Flush | directory_scraper.py:155-169 | The end of a search touches neither the search log nor the checkpoint. |
| Crawl.Scrape | directory_scraper.py:69-169 | A loaded search logs itself and leaves the checkpoint alone. |
| Crawl.Process | directory_scraper.py:53-177 | A search logs itself first and never touches the checkpoint. The seen set and the total only grow. |
| Crawl.RefineAll | directory_scraper.py:184-188 | The refinements keep the earlier log; the first search they issue is the first refinement. They leave the checkpoint alone, and the seen set and the total only grow. |
| Crawl.CrawlPrefixes | directory_scraper.py:239-245 | After the prefix loop the checkpoint holds the last prefix completed. The log only grows, by at least as many searches as there are prefixes, and the seen set and total only grow. Which searches are logged, and in what order, is stated by Crawl.CrawlLog. |
| Crawl.CrawlLog | directory_scraper.py:173-245 | The prefix loop logs the prefixes in order, the first right after the earlier log. Every search logged between one prefix and the next, or after the last one, strictly extends the earlier prefix, so it is a refinement of that prefix's own search. |
| Crawl.Run | directory_scraper.py:201-250 | A completed run leaves no checkpoint, logs at least as many searches as there are remaining prefixes, and keeps every fingerprint it loaded. |
| Crawl.RunLog | directory_scraper.py:224-250 | A completed run's log starts with the first remaining prefix and holds every remaining prefix in order. Each prefix is followed only by strict extensions of itself, the refinements of its own search. |
| Crawl.RunSearchesEveryPrefix | directory_scraper.py:224-245 | Every prefix from the resume position on is searched by a completed run. |
| Crawl.Interrupted | directory_scraper.py:239-245 | A run stopped after n ≥ 1 prefixes leaves the n-th remaining prefix as the checkpoint; stopped before any, it changes nothing. |
| Crawl.ProcessIssues | directory_scraper.py:173-188 | Every search that a search causes after logging itself strictly extends it. |
| Crawl.RefinesIff | directory_scraper.py:88-98 | A search is refined if and only if its page loads and its raw block count, skipped and duplicate blocks included, reaches 100 (within the depth bound). If so the next search issued is the term plus "a"; otherwise nothing follows. |
| Crawl.SaturationBoundary | directory_scraper.py:172-174 | A loaded search with 100 raw blocks issues the term plus "a" next. One with 99 blocks issues nothing beyond itself. |
| Crawl.NoResultPages | directory_scraper.py:70-78 | A search whose search box cannot be found still ends like any other search. It reads nothing, pickles the unchanged seen set, appends an empty batch and adds nothing to the total. |
| Crawl.ResumeAfterInterruption | directory_scraper.py:217-245 | Forward, a run stopped after n ≥ 1 prefixes resumes at the last completed prefix. That prefix is scraped again, and none before it. |
| Crawl.ReversedRestartsFromTop | directory_scraper.py:209-237 | Reversed, a run stopped at any point restarts from the first prefix, "zz". |
| Crawl.FlushBatch | directory_scraper.py:155-169 | Persisting a batch keeps the file invariant: a header first, distinct fingerprints, every row's fingerprint in the pickled set. The file gains exactly the batch's rows. |
| Crawl.ProcessKeepsInv | directory_scraper.py:136-176 | A search with all its refinements keeps the invariant and the rows already written. The total grows by the number of rows added. |
| Crawl.RunKeepsDiskInv | directory_scraper.py:201-250 | A run from files that keep the invariant leaves files that keep it: no fingerprint is written twice, over any number of runs. Earlier rows stay in front, and the total counts the rows added. |
| Crawl.InterruptedKeepsDiskInv | directory_scraper.py:234-245 | A run stopped after any number of prefixes also leaves files that keep the invariant. |
| Crawl.ScrapeKeepsExact | directory_scraper.py:136-162 | When the seen set is exactly the fingerprints of the file's rows, it still is after a search is persisted. |
| Crawl.ProcessKeepsExact | directory_scraper.py:136-188 | A search with all its refinements keeps the seen set equal to the fingerprints of the file's rows. |
| Crawl.RunKeepsExact | directory_scraper.py:201-250 | A run from files whose pickled set is exactly the file's fingerprints leaves such files, and its seen set is that set. |
| Crawl.InterruptedKeepsExact | directory_scraper.py:234-245 | The same holds for a run stopped after any number of prefixes. |
| Crawl.CrashBetweenWrites | directory_scraper.py:155-162 | A crash between pickling the set and appending the batch still leaves consistent files. The batch's persons are then never written: reading the same blocks again emits nothing. If the batch had rows, the pickled set no longer equals the file's fingerprints. |
| Crawl.DeadOracle | directory_scraper.py:58-67 | When no page ever loads, each remaining prefix is searched once and nothing is written. The seen set and results file are unchanged, and the checkpoint is removed. |
| Rebuild.UniqueFieldsOrder | pkl_rebuild.py:14-17 | The rebuild's identity columns are the expected fields without `Prefix`, in the same order. |
| Rebuild.UniqueFieldsMembers | pkl_rebuild.py:14-17 | A field is an identity column if and only if it is not `Prefix`. |
| Rebuild.Normalize | pkl_rebuild.py:55-63 | Normalisation succeeds if and only if every identity column is present, with one row per row read. Otherwise its error names an identity column the file lacks. |
| Rebuild.RebuildSeen | pkl_rebuild.py:35-63 | A missing file and an unreadable file are errors. A parsed file gives a set if and only if it has every identity column. The set has at most as many fingerprints as the file has rows. |
| Rebuild.CollectFingerprints | pkl_rebuild.py:66-82 | The loop yields the set of the fingerprints of all rows. |
| Rebuild.RecreateSeenSet | pkl_rebuild.py:35-82 | The procedure computes the rebuild: the same errors, and otherwise the same set. |
| Rebuild.NormalizedRow | pkl_rebuild.py:55-63 | After normalisation every identity value is present and trimmed. An empty cell becomes "", and a filled one its stripped text. |
| Rebuild.NormalizeIdempotent | pkl_rebuild.py:55-63 | Normalising the normalised table again changes nothing. |
| Rebuild.FingerprintSetMembers | pkl_rebuild.py:66-82 | A fingerprint is in the rebuilt set if and only if some row has it. |
| Rebuild.OrderAndDuplicatesIrrelevant | pkl_rebuild.py:66-82 | The rebuilt set depends only on which rows the file holds, not on their order or repetition. |
| Rebuild.PrefixIgnored | pkl_rebuild.py:75 | Rewriting any row's `Prefix` cell never changes the rebuilt set. |
| Rebuild.ReadValue | pkl_rebuild.py:44-55 | After reading and filling empty cells with "", a written value comes back either as itself or as "". It comes back as itself exactly when it is "" or not one of pandas's default NA spellings ("N/A", "NA", "null", "None", "nan" and the rest). |
| Rebuild.ReadBack | pkl_rebuild.py:42-48 | No file reads as absent. Blank lines are skipped, and a file with nothing else cannot be read as a table. Otherwise the first remaining line names the columns, whether it is a header or a record. The table keeps exactly the fields that line names, and has one row per later line. |
| Rebuild.ScraperRowRoundTrip | pkl_rebuild.py:44-79 | A row the crawler wrote, with no identity value spelled like an NA value, read back and normalised has exactly the fingerprint the crawler recorded for it. |
| Rebuild.NaValueChangesFingerprint | pkl_rebuild.py:44-55 | A row with an identity value spelled like an NA value (a title "N/A", say) is rebuilt with a different fingerprint from the one the crawler recorded. |
| Rebuild.RebuildMatchesSink | pkl_rebuild.py:42-82 | Rebuilding from a results file the crawler wrote gives exactly the fingerprints of the file's rows. This holds for a file that is one full header followed by records, with no NA spellings. |
| Rebuild.HeaderLostAfterEmptyFirstBatch | directory_scraper.py:159-162 | If the first search saves no persons, the file holds only a blank line, and no later append writes a header. With nothing appended, the rebuild stops because the file cannot be read. Otherwise the first record becomes the header and is lost as a row. Unless that record holds the text "Name", the rebuild stops at the missing `Name` column. |
| Rebuild.RebuildMatchesSeen | pkl_rebuild.py:42-82 | For files a crawl left (invariant kept, pickled set equal to the file's fingerprints, full header, no NA spellings), the rebuild gives back exactly the pickled seen set. |

## Left out

- The browser (Selenium, WebDriver, waits and sleeps) is not modelled. The site is the `Oracle` parameter. A failed page load is `LoadFailed`: the search returns before any write and issues no further search. A search box that cannot be found is passed over, as in the code. The search then goes on against the page as loaded, which the model takes to hold no result pages (`Loaded([])`), so the search still pickles the seen set and appends an empty batch (`Crawl.NoResultPages`).
- `get_driver` and its retry loop are left out. The driver comes from outside the model.
- `close` and the host shutdown, `run.py` and all logging output are left out. They have no effect on the files the crawl keeps.
- Pickle and CSV encodings are abstracted. The seen set is a Dafny set, and the results file is a sequence of header and record lines.
- Rebuild.ReadBack: approximates what pandas reads. It skips blank lines, takes the first line left as the header, and reads pandas's default NA spellings as empty cells. It models neither pandas's quoting nor its numeric type inference, which `astype(str)` would turn back into text (an identity value like "07" could come back as "7").
- Rebuild.ScraperRowRoundTrip: holds only for rows with no identity value spelled like an NA value. `Rebuild.NaValueChangesFingerprint` shows that such a row rebuilds with a different fingerprint, so the rebuild and the live crawl disagree on it.
- Rebuild.RebuildMatchesSeen: assumes the full header and no NA spellings, for the reasons on the lines above and below. After a crash between the two writes of a search the pickled set holds more than the file (`Crawl.CrashBetweenWrites`), and the rebuild then returns the smaller set.
- Rebuild.RebuildMatchesSink: assumes a file with one header line followed only by records, as the crawl invariant keeps it. In a file with a second header line, the reader takes that line as a row of its own.
- Crawl.Process: refinement is bounded by a `fuel` depth. A saturated search with fuel 0 is not refined, so the model covers every finite nesting depth but not a search that saturates forever.
- The header of an empty first batch is modelled as a header with no columns. An empty frame writes just that: a blank line. `Rebuild.HeaderLostAfterEmptyFirstBatch` states what the rebuild then does, and `Rebuild.RebuildMatchesSink` assumes a file with one full header followed by records.
- Exceptions while reading a row or block are not modelled as control flow. A block that raises is `Unreadable`: it is skipped but counted towards saturation. A row that raises part way leaves the cells read before the failure.
- Labels outside the expected fields are read, then dropped, since the `Field` type cannot hold them.
- The running total is the sum of rows saved. The printed counts are not modelled.
- Globals are modelled as explicit state. The reversed run's separate file names become a separate `Disk` value.
- The seen set loaded at start-up is trusted as written. A pickle that does not match the results file is the case the rebuild exists for.
