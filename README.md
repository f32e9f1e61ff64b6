# mi-imgd: a verified model of the harvest decisions

mi-imgd harvests the images of Misskey accounts. For each account it
opens the profile feed in a browser, scrolls until no new thumbnails
appear, resolves each thumbnail to its original by middle-clicking it, and
downloads the originals into the account's directory, skipping a blob
whose MD5 digest it has already recorded. This does not always keep one
copy per blob: in the multi-process version, two originals of one batch
with equal contents and different names are both written until
`deduplicate_images` removes the copy, and the single-process version
keeps its digests in memory only, so it does not know the files of
earlier runs.

This project models the decision layer of both versions of the program:

- `src/mimgd/__main__.py`, the multi-process version:
  - username extraction and URL normalisation;
  - the save decision of `download_single_image`, including the collision
    search with content comparison;
  - the batch download and the locked merge into the shared digest list;
  - the reveal loop with its stagnation counter and the per-thumbnail
    retry loop of `process_single_user`;
  - the seeding pass over the output tree;
  - `deduplicate_images`.
- `mimgd.py`, the single-process predecessor: the same reveal and retry
  loops, an in-memory digest set, the `webpublic` skip, and a collision
  search that compares names only.

The file tree is a `map<Path, Bytes>` held by a `Disk` object that writes
and removes in place. MD5 is a function parameter `md5`. The browser and
HTTP are observations passed in as parameters:

- `rounds(n)` (or `rounds(user, n)`) is what reveal round `n` sees: the two
  scroll heights and every `<img>` `src`;
- `click(t, k)` is what attempt `k` on thumbnail `t` sees;
- `fetch(u)` is the body of a reply to `u` that the program accepts, or
  None. In `src/mimgd/__main__.py` a reply is accepted only with status 200
  (lines 38-40). In `mimgd.py`, `raise_for_status` (line 120) accepts any
  final status below 400, so an empty 204 reply is saved as an empty file.

Each reveal loop terminates because the processed set grows within a finite
`universe` of references the feed can show. Each collision search
terminates because distinct counters give distinct candidate paths
(`Urls.CandidateInjective`).

Behaviour that is easy to misread, modelled as the code has it:

- The count returned by one batch download (`src/mimgd/__main__.py:106`)
  counts files written, not distinct images. Two originals in one batch
  with equal contents and different names are both written and both
  counted, although the merge adds their digest once.
  `HashMerge.SameBlobTwice` proves this for two such originals. The
  duplicate file survives until `deduplicate_images` removes it.
- The `webpublic` skip exists only in `mimgd.py`, and the model keeps it
  there.
- A file name of `""`, `"."` or `".."` joins to the user directory or its
  parent:
  - `download_single_image` then opens a directory, fails, and returns
    None;
  - `mimgd.py` sees the path exists and writes `name_1` + extension.
- The username function is the same text in both files, so `Urls.Username`
  models both.

## Model

| member | source | states |
|---|---|---|
| Urls.ThumbnailIsNotOriginal | src/mimgd/__main__.py:216-218 | no `src` that passes the thumbnail test of line 181 is ever accepted as an original reference |
| Urls.HandleName | src/mimgd/__main__.py:23-25 | the group captured at an `@`: a non-empty run of non-`/` characters directly after it, ending at the end of the URL or at a `/` |
| Urls.Username | mimgd.py:12-16 | the account name never contains `/` (the legacy copy is the same function) |
| Urls.UsernameIsLeftmostCapture | src/mimgd/__main__.py:22-26 | with a match, the name is the capture at the leftmost `@` followed by a non-`/`; with none, it is the basename with every `@` removed |
| Urls.FallbackUsernameIsBare | src/mimgd/__main__.py:26 | when no `@` is followed by a non-`/`, the name contains neither `@` nor `/` |
| Urls.Basename | src/mimgd/__main__.py:50 | the basename is the suffix after the last `/`: it holds no `/`, and the character before it is `/` |
| Text.RemoveChar | src/mimgd/__main__.py:26 | `replace('@', '')` leaves no `@` and keeps every other character that occurs |
| Text.RemoveCharConcat | src/mimgd/__main__.py:26 | removing `@` from a concatenation removes it from each part; a lone `@` vanishes and any other lone character stays, so the result is the input with exactly its `@`s deleted, order kept |
| Urls.Normalize | src/mimgd/__main__.py:30-31 | the result starts with `http://` or `https://`; a URL that has one is unchanged, any other gains `https://` |
| Urls.NormalizeIdempotent | src/mimgd/__main__.py:30-31 | normalising twice is normalising once |
| Urls.UrlPath | src/mimgd/__main__.py:49 | the path of an http(s) URL is empty or starts with `/`, and holds no `?` or `#` |
| Urls.UrlPathOfParts | src/mimgd/__main__.py:49 | for `scheme//host` + `path` + a tail that starts at `?` or `#`, the path found is exactly `path` |
| Urls.StripParams | src/mimgd/__main__.py:49 | the result is the path cut at the first `;` at or after its last `/`, or the whole path when there is no such `;`; its last segment holds no `;` |
| Urls.FileName | src/mimgd/__main__.py:49-50 | the file name holds no `/`, `;`, `?` or `#` |
| Urls.FileNameOfParts | src/mimgd/__main__.py:49-50 | for `scheme//host` + `dir` + `/` + `name` + a tail that starts at `?` or `#`, the file name is exactly `name` whenever `name` holds no `/`, `;`, `?` or `#` |
| Urls.SplitExt | src/mimgd/__main__.py:62 | `name + ext` is the file name; `ext` is empty or starts at the last `.`, and a non-dot precedes that dot; an empty `ext` means every dot is in a leading run of dots |
| Urls.Suffixed | src/mimgd/__main__.py:64 | `name_k` + extension is longer than the file name and does not start with `/` |
| Text.DecimalInjective | src/mimgd/__main__.py:64 | distinct counters are spelled differently by `str` |
| Urls.JoinInjective | src/mimgd/__main__.py:52 | joining one directory to two relative names gives equal paths only for equal names |
| Urls.CandidateInjective | src/mimgd/__main__.py:61-74 | the candidates `filename`, `name_1ext`, `name_2ext`, ... are pairwise distinct paths |
| ContentStore.FindSlot | src/mimgd/__main__.py:52-74 | every candidate before the stopping index exists with other contents; the one at the index is either absent and returned, or holds the same digest and the blob is rejected |
| ContentStore.Save | src/mimgd/__main__.py:28-84 | no response, a known digest or a directory name: None and no write. Otherwise the candidates are walked in order: every one passed exists with a different digest; if the one reached holds the same digest, None and no write; else it is absent, the blob is written there, the tree changes at that path only, and the digest is returned |
| ContentStore.SaveToFreeName | src/mimgd/__main__.py:49-80 | a body with an unlisted digest, for a URL whose file name is a plain name not yet in the directory, is written under exactly that name and its digest returned |
| FileSystem.Disk.Write | src/mimgd/__main__.py:76-77 | the tree changes at the written path only |
| FileSystem.Disk.Remove | src/mimgd/__main__.py:341 | the tree loses the removed path only |
| HashMerge.Present | src/mimgd/__main__.py:99 | the kept digests are exactly the non-None results, no more of them than results |
| HashMerge.PresentCount | src/mimgd/__main__.py:99 | the number of digests kept equals the number of positions holding a result |
| HashMerge.AppendAbsent | src/mimgd/__main__.py:101-104 | the old list is kept as a prefix; the result holds exactly the old and the new digests; appended entries were absent before and are pairwise distinct, so a digest repeated in a batch is appended once |
| HashMerge.MergeKeepsFresh | src/mimgd/__main__.py:101-104 | the seeded part of the shared list may hold repeats, but every digest merged in later is distinct from all others in the list, and stays so after each merge |
| HashMerge.HashList.Merge | src/mimgd/__main__.py:99-106 | the shared list becomes the AppendAbsent merge of the non-None results, and the count returned is the number of non-None results |
| HashMerge.DownloadBatch | src/mimgd/__main__.py:86-106 | one result per URL, and the URLs' saves chain in list order: each is Save's outcome on the tree the previous one left, against the pre-batch list; the returned count equals the non-None results and the files written; no file is lost or changed; each new file's digest was absent from the pre-batch list and is among the results; the list becomes their merge |
| HashMerge.SaveTraceEach | src/mimgd/__main__.py:93-97 | in a chain of saves, the save of the i-th URL took the i-th tree to the next with Save's outcome for that URL's body |
| HashMerge.SameBlobTwice | src/mimgd/__main__.py:86-106 | two originals of one batch with equal contents, an unlisted digest and two different free names are both written and both returned, while the merge appends the digest once |
| HashMerge.MergedOnce | src/mimgd/__main__.py:99-104 | a digest returned twice in one batch is kept twice by the filter but appended once by the merge |
| Reveal.ScanImages | src/mimgd/__main__.py:176-183 | the batch is exactly the thumbnail `src`s not processed yet; it is disjoint from the old processed set, which grows by exactly the batch |
| Reveal.RevealRound | src/mimgd/__main__.py:165-190 | a round with new thumbnails resets the counter; an empty round adds 2 when the height did not change and 1 otherwise |
| Reveal.CollectNew | mimgd.py:57-63 | the batch is exactly the thumbnail `src`s not yet processed; marking them is left to the caller, one at a time |
| Reveal.AddDisjointBatch | src/mimgd/__main__.py:179-183 | a batch disjoint from everything processed keeps the batches pairwise disjoint, and their union grows by the batch |
| Resolver.Found | src/mimgd/__main__.py:210-231 | an attempt that raised finds nothing; with an `<img>` element it finds the `src` exactly when that is a valid original reference, and never falls back; without one it finds the page address exactly when that is valid |
| Resolver.FirstFound | src/mimgd/__main__.py:196-244 | an original found is valid and is what one of the attempts found; nothing is found only when every attempt finds nothing |
| Resolver.Resolved | src/mimgd/__main__.py:196-244 | a thumbnail yields at most one original, exactly when some attempt finds one, and then the first found |
| Resolver.Resolve | src/mimgd/__main__.py:196-244 | 1 or 2 attempts; every attempt before the last found nothing; stopping early means the last one succeeded; the original appended is the one the last attempt found, and equals what Resolved yields |
| Resolver.MultiplicitiesStep | src/mimgd/__main__.py:193-244 | resolving one more thumbnail adds one occurrence of its first find and nothing else, so each original keeps occurring as often as thumbnails resolve to it |
| Resolver.ResolveAll | src/mimgd/__main__.py:193-244 | one original per thumbnail that resolves and no more: each original occurs exactly as often as there are thumbnails of the batch whose first find it is; all are valid |
| Reveal.VisitedStep | src/mimgd/__main__.py:159-190 | one round keeps the reveal invariant (batches pairwise disjoint with union the processed growth, the counter between the trailing idle rounds and twice that) and either visits new thumbnails or raises the counter |
| Reveal.FollowedStep | src/mimgd/__main__.py:159-190 | a run of rounds, each taken from the rounds observed in turn, is extended by the next observed round entered with the counter below 3: its batch is the new thumbnails against the processed set it is entered with, the set grows by that batch, and the counter resets on new thumbnails and otherwise rises by 2 on an unchanged height and by 1 on a changed one |
| Reveal.RevealedUnique | src/mimgd/__main__.py:159-190 | the observed rounds decide the loop: two runs from the same processed set that follow the same rounds and stop when the counter first reaches 3 have the same batches, the same processed set and counter before every round, and the same final set |
| Harvest.HarvestedStep | src/mimgd/__main__.py:159-262 | one round with its download keeps the harvest invariant: the reveal invariant, one chained batch log per round, and the tree and list grown by the running download total |
| Harvest.HandleBatch | src/mimgd/__main__.py:193-260 | the originals are the batch's first finds, each as often as thumbnails resolve to it; they are saved one after another against the pre-batch list; the list becomes the merge of the results; the count is the number of results, and the tree and list grow by it |
| Harvest.HarvestRound | src/mimgd/__main__.py:162-262 | the batch is exactly the new thumbnail `src`s; with new thumbnails the counter resets and the batch is handled as HandleBatch states; an empty round adds exactly 2 when the height did not change and exactly 1 otherwise, and writes nothing |
| Harvest.HarvestStep | src/mimgd/__main__.py:159-262 | one round of the loop on the observed round: the batch appended is its new thumbnails against the current processed set, the counter moves as the loop's rule says, and the harvest invariant is kept |
| Harvest.ProcessUser | src/mimgd/__main__.py:108-267 | the batches are the ones the observed rounds give in turn: round `k` sees `rounds(k)`, its batch is the new thumbnails of that round against the processed set left by round `k - 1` (empty at the start), and the counter after it is 0 on new thumbnails, else 2 more on an unchanged height and 1 more otherwise; every round is entered with the counter below 3 and the loop stops when it first reaches 3, so by Reveal.RevealedUnique the run is the only one the rounds allow; the loop ends after 2 or 3 unproductive rounds, exactly the trailing rounds being empty; every thumbnail is processed once, so the batches are pairwise disjoint; their union is the processed set, whose size is the returned thumbnail count and which lies in the universe; there is one batch log per round, chained from the initial tree and list to the final ones; the tree grew by the returned download count and lost or changed nothing; each new file's digest was new to the shared list and is in it now |
| Legacy.FindSlotLegacy | mimgd.py:139-145 | the path returned is the first candidate that does not exist, found without reading any file |
| Legacy.SaveLegacy | mimgd.py:112-157 | no response, a known digest or a `webpublic` name: nothing is written or recorded; otherwise the blob goes to the first absent candidate, the tree changes there only, and its digest is recorded |
| Legacy.LegacyGrewStep | mimgd.py:148-152 | a write to a fresh path of a blob with an unrecorded digest, followed by recording the digest, keeps one new file per new digest |
| Legacy.HandleThumbLegacy | mimgd.py:74-169 | no attempt finding an original leaves the tree and the digests unchanged; otherwise the first original found is downloaded with SaveLegacy's outcome for its fetched body; at most one digest and one file are added, nothing is lost |
| Legacy.LegacyRound | mimgd.py:42-171 | the batch is exactly the new thumbnail `src`s, all marked processed; an empty round adds exactly 2 or 1 to the counter, a full one resets it; the batch's thumbnails are handled one after another, each with HandleThumbLegacy's outcome on the state the previous one left; the digests added are no more than the batch, each matched by one new file with that digest; every new file holds the body fetched for the original found for a thumbnail of the batch |
| Legacy.HandleThumbsLegacy | mimgd.py:74-169 | every thumbnail of the batch is marked processed; the thumbnails are handled one after another in some order that lists each once, each with HandleThumbLegacy's outcome; every new file holds the body fetched for the original found for a thumbnail of the batch |
| Legacy.RoundStep | mimgd.py:74-169 | handling one more thumbnail, not handled before, extends the round's chain of outcomes and keeps at most one new digest per thumbnail |
| Legacy.TraceGrew | mimgd.py:74-169 | along a chain of thumbnail outcomes nothing is lost, and every new file has its own new digest |
| Legacy.TraceFiles | mimgd.py:74-157 | every file a chain of thumbnail outcomes adds holds the body fetched for the original found for one of its thumbnails |
| Legacy.UserRound | mimgd.py:42-171 | the batch appended is the observed round's new thumbnails against the current processed set, the counter moves by the loop's rule, and one pass of the loop keeps the per-user invariant (the reveal invariant, one new file per new digest, each new file traced to a processed thumbnail) and either visits new thumbnails or raises the counter |
| Legacy.LegacyUser | mimgd.py:29-173 | the batches are the ones the account's observed rounds give in turn, from the processed set shared with the earlier accounts: round `k` sees `rounds(user, k)`, its batch is that round's new thumbnails against the set left by round `k - 1`, the counter moves by the loop's rule, every round is entered below 3 and the loop stops when the counter first reaches 3; the processed set grows within the universe; the rounds' batches are pairwise disjoint with union the thumbnails added, and exactly the 2 or 3 last rounds are empty; the digests added are no more than the thumbnails added, one new file per new digest, and every new file holds the body fetched for the original of a thumbnail added |
| Legacy.AccountsSnoc | mimgd.py:29-173 | one more account, whose reveal loop starts from the processed set the previous account left, extends the record of accounts handled in order |
| Legacy.ScrapeLegacy | mimgd.py:18-178 | account `i` runs its reveal loop over its own observed rounds from the processed set account `i - 1` left (empty for the first), batch by batch as LegacyUser states, and the last account leaves the returned processed set; the two printed totals: the processed count, and a unique count that equals the files written this run and is at most the processed count; the accounts' thumbnails are pairwise disjoint with union the processed set; new files have pairwise distinct digests, each holds the body fetched for the original of a processed thumbnail, and nothing already on disk is lost |
| Sweep.SeedHashes | src/mimgd/__main__.py:277-287 | the seeded list is the digest of each recognised file of the listing, in listing order, repeats included |
| Sweep.RecognisedDigestsMembers | src/mimgd/__main__.py:277-287 | a digest is seeded exactly when some listed recognised file has it, and the list is no longer than the listing |
| Sweep.FindDuplicates | src/mimgd/__main__.py:317-336 | the collected paths are exactly the recognised files whose digest an earlier recognised file has; the kept map covers exactly the digests seen, each mapped to a first occurrence |
| Sweep.DuplicatesOfMembers | src/mimgd/__main__.py:320-333 | a path is collected exactly when it is listed at a duplicate position |
| Sweep.Deduplicate | src/mimgd/__main__.py:314-346 | the tree loses exactly the collected paths; the model returns their number, which the source only logs (line 346) |
| Sweep.FirstWithDigest | src/mimgd/__main__.py:328-333 | every recognised file's digest has a first occurrence, which is not a duplicate |
| Sweep.SweptDistinct | src/mimgd/__main__.py:314-346 | after the sweep, no two remaining recognised files have the same digest |
| Sweep.SweptKeepsDigests | src/mimgd/__main__.py:314-346 | every digest of a recognised file before the sweep is still held by a remaining recognised file |
| Sweep.SweptKeepsOthers | src/mimgd/__main__.py:322 | files without a recognised extension are never removed, and no remaining file changes |

## Left out

- Browser automation (Playwright) is left out: page loads, scrolling,
  clicks, new pages and waits. What they show is passed in as `rounds` and
  `click`, and the note and filter button clicks (lines 142-157 of
  `src/mimgd/__main__.py`) have no effect on the model.
- HTTP (aiohttp, requests) is left out: headers, timeouts, the connection
  limit and status codes. A download is `fetch(url)`: the body of a reply
  the program accepts (status 200 in `src/mimgd/__main__.py`, any final
  status below 400 in `mimgd.py`), or None. `fetch` depends on the URL
  alone, and `click` on the thumbnail and attempt number alone.
- Concurrency is left out: the process pool, the manager list shared across
  processes, the thread pool, the event loop, `gather` and the lock.
  - One account's batch is modelled in list order, each download deciding
    against the pre-batch snapshot of the list, and the merge comes after.
  - Accounts processed in parallel, and their interleaved merges into the
    shared list, are not modelled. `Harvest.ProcessUser` covers one account
    given the list.
  - The coordinator's summing of per-account results
    (`src/mimgd/__main__.py:303-304`) is not modelled.
- MD5 is an abstract function. The program treats equal digests as equal
  contents, and so does the model.
- `os.walk`: its order is the parameter `order`. `Sweep.Walk` requires it to
  list each file of the tree once.
- File I/O and read errors are left out: `makedirs`, unreadable files during
  seeding or deduplication, and a failing `os.remove`. The model's tree
  never fails.
- URL whitespace and control-character stripping, and scheme case folding,
  inside `urlparse` are left out. `Urls.UrlPath` handles the http(s) URLs
  produced by normalisation.
- `process_single_user` called without a shared list
  (`src/mimgd/__main__.py:115-127`) is not modelled. It builds a set, and
  the merge's `append` on that set would raise. The coordinator always
  passes a list.
- Two failures of the save path are left out. First, any `ValueError`
  from `urlparse`: for example an unbalanced `[` or `]` in the host, a
  bracketed host that is not a valid IPv6 address, or netloc characters
  that NFKC normalisation turns into `/`, `?`, `#`, `@` or `:`. The main
  version then returns None through lines 82-84. Second, a candidate path that
  names an existing directory other than the ones `""`, `"."` and `".."`
  give. For example, an empty username makes the user directory the output
  directory, which holds other accounts' directories. The main version's
  `open` then raises and returns None, and `os.path.exists` in `mimgd.py`
  (line 143) skips the name. The model's tree holds files only, so it
  writes there.
- In `mimgd.py` the `continue` at line 137 skips `new_page.close()`. Pages
  are not modelled.
- Sleeps, logging, `print`, `argparse`/`main` and the `cpu_count` default are
  left out.
- Harvest.ProcessUser: the reveal loop terminates only under the
  requirement that every round's `src`s lie in a finite `universe`. The
  program itself relies on the feed running out.
- Legacy.LegacyUser: the same finite-`universe` requirement applies.
- Resolver.ResolveAll: the order of the originals follows the iteration
  order of a Python set, which is not modelled. The contract states how
  often each original appears, not at which positions.
- Harvest.HandleBatch: for the same reason, each save is stated along the
  resolved list, not as the position a given thumbnail's original takes.
- Legacy.LegacyRound: thumbnails are handled in an order the model leaves
  open, given by a ghost sequence that lists the batch once each. Python's
  set order is not modelled.
- Legacy.LegacyUser: the rounds' chains of thumbnail outcomes are not
  carried up. Across rounds the contract states the combined growth and the
  thumbnail each new file came from.
- Legacy.ScrapeLegacy: the same holds across accounts.
