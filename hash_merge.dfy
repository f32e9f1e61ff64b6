/**
 * `download_images_async` (src/mimgd/__main__.py): every URL of one reveal
 * batch is downloaded, each download deciding against the digest list as it
 * stood before the batch; afterwards the digests of the saved blobs are
 * appended to the shared list, skipping those already present.
 *
 * The downloads run under `asyncio.gather`, but after its response body is
 * read a download makes its save decision and writes without yielding, so
 * the decisions happen one after another; the model takes them in list order.
 */
module HashMerge {
  import opened Wrappers
  import opened Urls
  import opened FileSystem
  import ContentStore

  /** `[h for h in results if h is not None]` */
  function Present(results: seq<Option<Digest>>): (hs: seq<Digest>)
    ensures |hs| <= |results|
    ensures forall h :: h in hs <==> Some(h) in results
    decreases |results|
  {
    if results == [] then []
    else
      var last := results[|results| - 1];
      assert results == results[..|results| - 1] + [last];
      Present(results[..|results| - 1]) + (if last.Some? then [last.value] else [])
  }

  /** The positions of a result list that hold a digest. */
  ghost function SomePositions(results: seq<Option<Digest>>): set<nat>
  {
    set i: nat | i < |results| && results[i].Some?
  }

  /** `len(new_hashes)` is the number of results that are not None. */
  lemma {:induction false} PresentCount(results: seq<Option<Digest>>)
    ensures |Present(results)| == |SomePositions(results)|
    decreases |results|
  {
    if results != [] {
      var n := |results| - 1;
      PresentCount(results[..n]);
      SomePositionsSnoc(results);
    }
  }

  /** The positions of `results` are those of all but its last entry, plus the last one if it is a digest. */
  lemma SomePositionsSnoc(results: seq<Option<Digest>>)
    requires results != []
    ensures var n := |results| - 1;
            var extra := if results[n].Some? then {n} else {};
            && SomePositions(results) == SomePositions(results[..n]) + extra
            && |SomePositions(results)| == |SomePositions(results[..n])| + |extra|
  {
    var n := |results| - 1;
    var init := results[..n];
    var before, extra := SomePositions(init), if results[n].Some? then {n} else {};
    forall i | i in SomePositions(results) ensures i in before + extra {
      if i < n {
        assert init[i] == results[i];
      }
    }
    forall i | i in before + extra ensures i in SomePositions(results) {
      if i < n {
        assert init[i] == results[i];
      }
    }
    assert SomePositions(results) == before + extra;
    assert n !in before;
  }

  /** `for h in hs: if h not in items: items.append(h)` */
  function AppendAbsent(items: seq<Digest>, hs: seq<Digest>): (r: seq<Digest>)
    ensures |items| <= |r| && r[..|items|] == items
    ensures forall h :: h in r <==> h in items || h in hs
    ensures forall k :: |items| <= k < |r| ==> r[k] !in items
    ensures forall k, m :: |items| <= k < m < |r| ==> r[k] != r[m]
    decreases |hs|
  {
    if hs == [] then items
    else
      var acc := AppendAbsent(items, hs[..|hs| - 1]);
      var h := hs[|hs| - 1];
      assert hs == hs[..|hs| - 1] + [h];
      if h in acc then acc else acc + [h]
  }

  /**
   * The entries from position `n` on (those merged in after seeding `n`
   * digests) are pairwise distinct, and none repeats a seeded one.
   */
  ghost predicate FreshAfter(s: seq<Digest>, n: nat)
  {
    && n <= |s|
    && (forall k, m :: n <= k < m < |s| ==> s[k] != s[m])
    && (forall k, m :: 0 <= m < n <= k < |s| ==> s[k] != s[m])
  }

  /**
   * Merging keeps FreshAfter: the seeded part may hold repeats, but nothing
   * merged later is ever a repeat.
   */
  lemma MergeKeepsFresh(items: seq<Digest>, n: nat, hs: seq<Digest>)
    requires FreshAfter(items, n)
    ensures FreshAfter(AppendAbsent(items, hs), n)
  {
    var r := AppendAbsent(items, hs);
    forall k, m | n <= k < m < |r| ensures r[k] != r[m] {
      if m < |items| {
        assert r[k] == items[k] && r[m] == items[m];
      } else if k < |items| {
        assert r[k] == items[k];
      }
    }
    forall k, m | 0 <= m < n <= k < |r| ensures r[k] != r[m] {
      assert r[m] == items[m];
      if k < |items| {
        assert r[k] == items[k];
      }
    }
  }

  /** The shared digest list (a `multiprocessing.Manager().list()`). */
  class HashList {
    var items: seq<Digest>

    /** The `async with lock` block (lines 99-106). */
    method Merge(results: seq<Option<Digest>>) returns (count: nat)
      modifies this
      ensures items == AppendAbsent(old(items), Present(results))
      ensures count == |Present(results)|
    {
      var newHashes := Present(results);
      var i := 0;
      while i < |newHashes|
        invariant 0 <= i <= |newHashes|
        invariant items == AppendAbsent(old(items), newHashes[..i])
      {
        TakeNext(newHashes, i);
        AppendSnoc(old(items), newHashes[..i], newHashes[i]);
        AppendSingle(items, newHashes[i]);
        if newHashes[i] !in items {
          items := items + [newHashes[i]];
        }
        i := i + 1;
      }
      assert newHashes[..i] == newHashes;
      count := |newHashes|;
    }
  }

  /**
   * After saving the first |out| URLs of a batch against `snapshot`: the tree
   * gained `written` files and lost or changed none, and each new file holds
   * a blob whose digest was not in the snapshot and was reported in `out`.
   */
  ghost predicate SavedSoFar(f0: map<Path, Bytes>, f1: map<Path, Bytes>, snapshot: seq<Digest>,
                             out: seq<Option<Digest>>, written: nat, md5: Bytes -> Digest)
  {
    && written == |Present(out)|
    && Extends(f0, f1)
    && |f1.Keys| == |f0.Keys| + written
    && forall p :: p in f1 && p !in f0 ==> md5(f1[p]) !in snapshot && Some(md5(f1[p])) in out
  }

  /** Saving one more URL keeps SavedSoFar, whether or not it wrote a file. */
  lemma SavedStep(f0: map<Path, Bytes>, f1: map<Path, Bytes>, f2: map<Path, Bytes>, snapshot: seq<Digest>,
                  out: seq<Option<Digest>>, written: nat, r: Option<Digest>, path: Path, data: Bytes,
                  md5: Bytes -> Digest)
    requires SavedSoFar(f0, f1, snapshot, out, written, md5)
    requires r.None? ==> f2 == f1
    requires r.Some? ==> path !in f1 && f2 == f1[path := data] && r.value == md5(data) && r.value !in snapshot
    ensures SavedSoFar(f0, f2, snapshot, out + [r], if r.Some? then written + 1 else written, md5)
  {
    PresentSnoc(out, r);
    if r.Some? {
      ExtendsWrite(f0, f1, path, data);
      forall p | p in f2 && p !in f0 ensures Some(md5(f2[p])) in out + [r] {
        if p != path {
          assert Some(md5(f1[p])) in out;
        }
      }
    }
  }

  lemma PresentSnoc(out: seq<Option<Digest>>, r: Option<Digest>)
    ensures Present(out + [r]) == Present(out) + (if r.Some? then [r.value] else [])
  {
    assert (out + [r])[..|out|] == out;
  }

  /**
   * The saves of one batch one after another: `trees[i]` is the tree before
   * URL `i` is saved, and each save is a SaveOutcome on the body `fetch`
   * gives for the normalised URL, against the same snapshot `known`.
   * Stated save by save from the last one back; SaveTraceEach gives it for
   * every position at once.
   */
  ghost predicate SaveTrace(trees: seq<map<Path, Bytes>>, urls: seq<string>, userDir: Path,
                            fetch: string -> Option<Bytes>, known: seq<Digest>,
                            results: seq<Option<Digest>>, indices: seq<nat>, md5: Bytes -> Digest)
    decreases |urls|
  {
    && |trees| == |urls| + 1 && |results| == |urls| && |indices| == |urls|
    && (urls != [] ==>
          var n := |urls| - 1;
          && SaveTrace(trees[..n + 1], urls[..n], userDir, fetch, known, results[..n], indices[..n], md5)
          && ContentStore.SaveOutcome(trees[n], trees[n + 1], urls[n], userDir, fetch(Normalize(urls[n])),
                                      known, results[n], indices[n], md5))
  }

  /** Every save of a trace is a SaveOutcome from its tree to the next. */
  lemma {:induction false} SaveTraceEach(trees: seq<map<Path, Bytes>>, urls: seq<string>, userDir: Path,
                                         fetch: string -> Option<Bytes>, known: seq<Digest>,
                                         results: seq<Option<Digest>>, indices: seq<nat>, md5: Bytes -> Digest)
    requires SaveTrace(trees, urls, userDir, fetch, known, results, indices, md5)
    ensures forall i :: 0 <= i < |urls| ==>
              ContentStore.SaveOutcome(trees[i], trees[i + 1], urls[i], userDir, fetch(Normalize(urls[i])),
                                       known, results[i], indices[i], md5)
    decreases |urls|
  {
    if urls != [] {
      var n := |urls| - 1;
      SaveTraceEach(trees[..n + 1], urls[..n], userDir, fetch, known, results[..n], indices[..n], md5);
      forall i | 0 <= i < n
        ensures ContentStore.SaveOutcome(trees[i], trees[i + 1], urls[i], userDir, fetch(Normalize(urls[i])),
                                         known, results[i], indices[i], md5)
      {
        PrefixEntries(trees, urls, results, indices, n, i);
      }
    }
  }

  lemma SaveTraceAt(trees: seq<map<Path, Bytes>>, urls: seq<string>, userDir: Path,
                    fetch: string -> Option<Bytes>, known: seq<Digest>,
                    results: seq<Option<Digest>>, indices: seq<nat>, md5: Bytes -> Digest, i: nat)
    requires SaveTrace(trees, urls, userDir, fetch, known, results, indices, md5) && i < |urls|
    ensures ContentStore.SaveOutcome(trees[i], trees[i + 1], urls[i], userDir, fetch(Normalize(urls[i])),
                                     known, results[i], indices[i], md5)
  {
    SaveTraceEach(trees, urls, userDir, fetch, known, results, indices, md5);
  }

  lemma PrefixEntries(trees: seq<map<Path, Bytes>>, urls: seq<string>, results: seq<Option<Digest>>,
                      indices: seq<nat>, n: nat, i: nat)
    requires i < n < |trees| && n <= |urls| && n <= |results| && n <= |indices|
    ensures trees[..n + 1][i] == trees[i] && trees[..n + 1][i + 1] == trees[i + 1]
    ensures urls[..n][i] == urls[i] && results[..n][i] == results[i] && indices[..n][i] == indices[i]
  {
  }

  lemma SaveTraceSnoc(trees: seq<map<Path, Bytes>>, urls: seq<string>, userDir: Path,
                      fetch: string -> Option<Bytes>, known: seq<Digest>,
                      results: seq<Option<Digest>>, indices: seq<nat>, md5: Bytes -> Digest,
                      f: map<Path, Bytes>, u: string, r: Option<Digest>, index: nat)
    requires SaveTrace(trees, urls, userDir, fetch, known, results, indices, md5)
    requires ContentStore.SaveOutcome(trees[|urls|], f, u, userDir, fetch(Normalize(u)), known, r, index, md5)
    ensures SaveTrace(trees + [f], urls + [u], userDir, fetch, known, results + [r], indices + [index], md5)
  {
    var n := |urls|;
    var trees', urls', results', indices' := trees + [f], urls + [u], results + [r], indices + [index];
    assert trees'[..n + 1] == trees && urls'[..n] == urls && results'[..n] == results && indices'[..n] == indices;
    assert trees'[n] == trees[n] && trees'[n + 1] == f && urls'[n] == u && results'[n] == r && indices'[n] == index;
    SaveTraceCons(trees', urls', userDir, fetch, known, results', indices', md5);
  }

  /** The recursive case of SaveTrace, as a lemma to call with its pieces in hand. */
  lemma SaveTraceCons(trees: seq<map<Path, Bytes>>, urls: seq<string>, userDir: Path,
                      fetch: string -> Option<Bytes>, known: seq<Digest>,
                      results: seq<Option<Digest>>, indices: seq<nat>, md5: Bytes -> Digest)
    requires urls != [] && |trees| == |urls| + 1 && |results| == |urls| && |indices| == |urls|
    requires var n := |urls| - 1;
             SaveTrace(trees[..n + 1], urls[..n], userDir, fetch, known, results[..n], indices[..n], md5)
    requires var n := |urls| - 1;
             ContentStore.SaveOutcome(trees[n], trees[n + 1], urls[n], userDir, fetch(Normalize(urls[n])),
                                      known, results[n], indices[n], md5)
    ensures SaveTrace(trees, urls, userDir, fetch, known, results, indices, md5)
  {
  }

  /** SaveTraceSnoc for the next URL of a fixed list. */
  lemma SaveTraceNext(trees: seq<map<Path, Bytes>>, urls: seq<string>, i: nat, userDir: Path,
                      fetch: string -> Option<Bytes>, known: seq<Digest>,
                      results: seq<Option<Digest>>, indices: seq<nat>, md5: Bytes -> Digest,
                      f: map<Path, Bytes>, r: Option<Digest>, index: nat)
    requires i < |urls| && SaveTrace(trees, urls[..i], userDir, fetch, known, results, indices, md5)
    requires ContentStore.SaveOutcome(trees[i], f, urls[i], userDir, fetch(Normalize(urls[i])), known, r, index, md5)
    ensures SaveTrace(trees + [f], urls[..i + 1], userDir, fetch, known, results + [r], indices + [index], md5)
  {
    TakeNext(urls, i);
    SaveTraceSnoc(trees, urls[..i], userDir, fetch, known, results, indices, md5, f, urls[i], r, index);
  }

  lemma TakeNext<T>(s: seq<T>, i: nat)
    requires i < |s|
    ensures s[..i + 1] == s[..i] + [s[i]]
  {
  }

  /**
   * Two consecutive saves of one batch (SaveTraceAt gives them) on the same
   * body, whose digest is not listed yet, for URLs with different file names
   * whose plain paths are free: both saves
   * write, since each decides against the pre-batch snapshot. The batch
   * reports two downloads and leaves two copies on disk, while the merge
   * lists the digest once.
   */
  lemma SameBlobTwice(f0: map<Path, Bytes>, f1: map<Path, Bytes>, f2: map<Path, Bytes>, u1: string, u2: string,
                      userDir: Path, body: Bytes, known: seq<Digest>, r1: Option<Digest>, r2: Option<Digest>,
                      i1: nat, i2: nat, md5: Bytes -> Digest)
    requires ContentStore.SaveOutcome(f0, f1, u1, userDir, Some(body), known, r1, i1, md5)
    requires ContentStore.SaveOutcome(f1, f2, u2, userDir, Some(body), known, r2, i2, md5)
    requires md5(body) !in known
    requires FileName(Normalize(u1)) != FileName(Normalize(u2))
    requires !NamesDirectory(FileName(Normalize(u1))) && !NamesDirectory(FileName(Normalize(u2)))
    requires Candidate(userDir, FileName(Normalize(u1)), 0) !in f0
    requires Candidate(userDir, FileName(Normalize(u2)), 0) !in f0
    ensures r1 == r2 == Some(md5(body))
    ensures |f2.Keys| == |f0.Keys| + 2
    ensures Present([r1, r2]) == [md5(body), md5(body)]
    ensures AppendAbsent(known, Present([r1, r2])) == known + [md5(body)]
  {
    var fn1, fn2 := FileName(Normalize(u1)), FileName(Normalize(u2));
    var c1, c2 := Candidate(userDir, fn1, 0), Candidate(userDir, fn2, 0);
    ContentStore.SaveToFreeName(f0, f1, u1, userDir, body, known, r1, i1, md5);
    assert c1 != c2 by {
      if c1 == c2 { JoinInjective(userDir, fn1, fn2); }
    }
    ContentStore.SaveToFreeName(f1, f2, u2, userDir, body, known, r2, i2, md5);
    MergedOnce(known, md5(body));
    ExtendsWrite(f0, f0, c1, body);
    ExtendsWrite(f0, f1, c2, body);
  }

  /** Two saved copies of one digest: the batch counts two, the merge lists the digest once. */
  lemma MergedOnce(known: seq<Digest>, h: Digest)
    requires h !in known
    ensures Present([Some(h), Some(h)]) == [h, h]
    ensures AppendAbsent(known, [h, h]) == known + [h]
  {
    PresentTwice(h);
    AppendTwice(known, h);
  }

  lemma PresentTwice(h: Digest)
    ensures Present([Some(h), Some(h)]) == [h, h]
  {
    var one: seq<Option<Digest>> := [Some(h)];
    assert [] + one == one;
    PresentSnoc([], Some(h));
    assert one + one == [Some(h), Some(h)];
    PresentSnoc(one, Some(h));
  }

  lemma AppendTwice(known: seq<Digest>, h: Digest)
    requires h !in known
    ensures AppendAbsent(known, [h, h]) == known + [h]
  {
    var one := [h];
    assert one + one == [h, h];
    AppendSnoc(known, one, h);
    AppendSingle(known, h);
    AppendSingle(known + one, h);
  }

  lemma AppendSingle(items: seq<Digest>, h: Digest)
    ensures AppendAbsent(items, [h]) == if h in items then items else items + [h]
  {
    assert [h][..0] == [];
  }

  /** Merging `hs + [h]` is merging `hs`, then `[h]`. */
  lemma AppendSnoc(items: seq<Digest>, hs: seq<Digest>, h: Digest)
    ensures AppendAbsent(items, hs + [h]) == AppendAbsent(AppendAbsent(items, hs), [h])
  {
    assert (hs + [h])[..|hs|] == hs;
    AppendSingle(AppendAbsent(items, hs), h);
  }

  /**
   * After saving the first `i` URLs of a batch: SavedSoFar from `f0`, and the
   * trace of those saves from `f0` to the current tree `f1`.
   */
  ghost predicate SavedUpTo(f0: map<Path, Bytes>, f1: map<Path, Bytes>, snapshot: seq<Digest>, urls: seq<string>,
                            i: nat, out: seq<Option<Digest>>, written: nat, trees: seq<map<Path, Bytes>>,
                            indices: seq<nat>, userDir: Path, fetch: string -> Option<Bytes>, md5: Bytes -> Digest)
  {
    && i <= |urls| && |out| == i
    && SavedSoFar(f0, f1, snapshot, out, written, md5)
    && SaveTrace(trees, urls[..i], userDir, fetch, snapshot, out, indices, md5)
    && trees[0] == f0 && trees[i] == f1
  }

  /**
   * One pass of DownloadBatch's loop: fetch and save URL `i`, extending
   * both what the batch has saved so far and its trace.
   */
  method SaveNext(disk: Disk, urls: seq<string>, i: nat, userDir: Path, fetch: string -> Option<Bytes>,
                  snapshot: seq<Digest>, md5: Bytes -> Digest, out: seq<Option<Digest>>,
                  ghost f0: map<Path, Bytes>, ghost written: nat,
                  ghost trees: seq<map<Path, Bytes>>, ghost indices: seq<nat>)
    returns (out': seq<Option<Digest>>, ghost written': nat,
             ghost trees': seq<map<Path, Bytes>>, ghost indices': seq<nat>)
    requires i < |urls|
    requires SavedUpTo(f0, disk.files, snapshot, urls, i, out, written, trees, indices, userDir, fetch, md5)
    modifies disk
    ensures SavedUpTo(f0, disk.files, snapshot, urls, i + 1, out', written', trees', indices', userDir, fetch, md5)
  {
    var url := urls[i];
    ghost var before := disk.files;
    var response := fetch(Normalize(url));
    var r;
    ghost var path, index;
    r, path, index := ContentStore.Save(disk, url, userDir, response, snapshot, md5);
    SavedUpToStep(f0, before, disk.files, snapshot, urls, i, out, written, trees, indices, userDir, fetch, md5,
                  r, path, if response.Some? then response.value else [], index);
    out', trees', indices' := out + [r], trees + [disk.files], indices + [index];
    written' := if r.Some? then written + 1 else written;
  }

  /** The effect of one Save on SavedUpTo. */
  lemma SavedUpToStep(f0: map<Path, Bytes>, f1: map<Path, Bytes>, f2: map<Path, Bytes>, snapshot: seq<Digest>,
                      urls: seq<string>, i: nat, out: seq<Option<Digest>>, written: nat,
                      trees: seq<map<Path, Bytes>>, indices: seq<nat>, userDir: Path,
                      fetch: string -> Option<Bytes>, md5: Bytes -> Digest,
                      r: Option<Digest>, path: Path, data: Bytes, index: nat)
    requires i < |urls|
    requires SavedUpTo(f0, f1, snapshot, urls, i, out, written, trees, indices, userDir, fetch, md5)
    requires r.None? ==> f2 == f1
    requires r.Some? ==> path !in f1 && f2 == f1[path := data] && r.value == md5(data) && r.value !in snapshot
    requires ContentStore.SaveOutcome(f1, f2, urls[i], userDir, fetch(Normalize(urls[i])), snapshot, r, index, md5)
    ensures SavedUpTo(f0, f2, snapshot, urls, i + 1, out + [r], if r.Some? then written + 1 else written,
                      trees + [f2], indices + [index], userDir, fetch, md5)
  {
    SavedStep(f0, f1, f2, snapshot, out, written, r, path, data, md5);
    SaveTraceNext(trees, urls, i, userDir, fetch, snapshot, out, indices, md5, f2, r, index);
    var trees' := trees + [f2];
    assert trees'[0] == f0 && trees'[i + 1] == f2;
  }

  /** Once every URL is saved, SavedUpTo is the whole batch's trace. */
  lemma SavedAll(f0: map<Path, Bytes>, f1: map<Path, Bytes>, snapshot: seq<Digest>, urls: seq<string>,
                 out: seq<Option<Digest>>, written: nat, trees: seq<map<Path, Bytes>>, indices: seq<nat>,
                 userDir: Path, fetch: string -> Option<Bytes>, md5: Bytes -> Digest)
    requires SavedUpTo(f0, f1, snapshot, urls, |urls|, out, written, trees, indices, userDir, fetch, md5)
    ensures SaveTrace(trees, urls, userDir, fetch, snapshot, out, indices, md5)
    ensures trees[0] == f0 && trees[|urls|] == f1 && |out| == |urls|
    ensures SavedSoFar(f0, f1, snapshot, out, written, md5)
  {
    assert urls[..|urls|] == urls;
  }

  /**
   * One batch: download every URL (`fetch` is the HTTP capability: the
   * status-200 body, or None), save against the pre-batch snapshot of the
   * shared list, then merge. Returns the number of saved blobs.
   */
  method DownloadBatch(disk: Disk, shared: HashList, urls: seq<string>, userDir: Path,
                       fetch: string -> Option<Bytes>, md5: Bytes -> Digest)
    returns (count: nat, ghost results: seq<Option<Digest>>,
             ghost trees: seq<map<Path, Bytes>>, ghost indices: seq<nat>)
    modifies disk, shared
    ensures SaveTrace(trees, urls, userDir, fetch, old(shared.items), results, indices, md5)
    ensures trees[0] == old(disk.files) && trees[|urls|] == disk.files
    ensures |results| == |urls|
    ensures count == |Present(results)|
    ensures shared.items == AppendAbsent(old(shared.items), Present(results))
    ensures Extends(old(disk.files), disk.files)
    ensures |disk.files.Keys| == |old(disk.files).Keys| + count
    ensures forall p :: p in disk.files && p !in old(disk.files) ==>
              md5(disk.files[p]) !in old(shared.items) && Some(md5(disk.files[p])) in results
  {
    var snapshot := shared.items;
    var out: seq<Option<Digest>> := [];
    ghost var written := 0;
    trees, indices := [disk.files], [];
    assert urls[..0] == [];
    var i := 0;
    while i < |urls|
      invariant 0 <= i <= |urls|
      invariant shared.items == snapshot
      invariant SavedUpTo(old(disk.files), disk.files, snapshot, urls, i, out, written, trees, indices,
                          userDir, fetch, md5)
    {
      out, written, trees, indices :=
        SaveNext(disk, urls, i, userDir, fetch, snapshot, md5, out, old(disk.files), written, trees, indices);
      i := i + 1;
    }
    SavedAll(old(disk.files), disk.files, snapshot, urls, out, written, trees, indices, userDir, fetch, md5);
    results := out;
    count := shared.Merge(out);
  }
}
