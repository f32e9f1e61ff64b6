/**
 * The single-threaded predecessor, `scrape_misskey_images` of mimgd.py:
 * users in order, one digest set kept in memory only (nothing is read back
 * from disk), processed thumbnails shared by all users, and each original
 * downloaded as soon as it is resolved. Collisions are settled by name
 * alone: the first candidate path that does not exist is written, whatever
 * the files already there contain.
 */
module Legacy {
  import opened Wrappers
  import opened Text
  import opened Urls
  import opened FileSystem
  import opened Reveal
  import Resolver
  import ContentStore

  /**
   * `os.path.exists` of candidate `j`: a file of the tree, or, for `j = 0`
   * and a name that joins to the user directory itself or its parent, that
   * directory.
   */
  predicate Occupied(files: map<Path, Bytes>, dir: Path, filename: string, j: nat)
    requires '/' !in filename
  {
    Candidate(dir, filename, j) in files || (j == 0 && NamesDirectory(filename))
  }

  /** Every file added from `f0` to `f1` has a digest of `h1` outside `h0`. */
  ghost predicate NewDigests(f0: map<Path, Bytes>, f1: map<Path, Bytes>,
                             h0: set<Digest>, h1: set<Digest>, md5: Bytes -> Digest)
  {
    forall p :: p in f1 && p !in f0 ==> md5(f1[p]) in h1 && md5(f1[p]) !in h0
  }

  /** No two files added from `f0` to `f1` have the same digest. */
  ghost predicate NewDistinct(f0: map<Path, Bytes>, f1: map<Path, Bytes>, md5: Bytes -> Digest)
  {
    forall p, q :: p in f1 && p !in f0 && q in f1 && q !in f0 && p != q ==> md5(f1[p]) != md5(f1[q])
  }

  /**
   * From (`f0`, `h0`) to (`f1`, `h1`) no file was lost or changed, the digest
   * set only grew, one file was added per new digest, each added file's
   * digest is one of the new digests, and no two added files share one.
   */
  ghost predicate LegacyGrew(f0: map<Path, Bytes>, f1: map<Path, Bytes>,
                             h0: set<Digest>, h1: set<Digest>, md5: Bytes -> Digest)
  {
    && Extends(f0, f1)
    && h0 <= h1
    && |f1.Keys| == |f0.Keys| + |h1 - h0|
    && NewDigests(f0, f1, h0, h1, md5)
    && NewDistinct(f0, f1, md5)
  }

  lemma LegacyGrewRefl(f: map<Path, Bytes>, h: set<Digest>, md5: Bytes -> Digest)
    ensures LegacyGrew(f, f, h, h, md5)
  {
    assert h - h == {};
  }

  /** Writing a blob with an unseen digest to a fresh path, and recording the digest. */
  lemma LegacyGrewStep(f0: map<Path, Bytes>, f1: map<Path, Bytes>, h0: set<Digest>,
                       h1: set<Digest>, p: Path, data: Bytes, md5: Bytes -> Digest)
    requires LegacyGrew(f0, f1, h0, h1, md5)
    requires p !in f1 && md5(data) !in h1
    ensures LegacyGrew(f0, f1[p := data], h0, h1 + {md5(data)}, md5)
  {
    ExtendsWrite(f0, f1, p, data);
    CountStepUp(f0.Keys, f1.Keys, h0, h1, p, md5(data));
    NewStep(f0, f1, h0, h1, p, data, md5);
    LegacyGrewIntro(f0, f1[p := data], h0, h1 + {md5(data)}, md5);
  }

  /** LegacyGrew from its parts, the size condition stated on the key sets. */
  lemma LegacyGrewIntro(f0: map<Path, Bytes>, f1: map<Path, Bytes>, h0: set<Digest>, h1: set<Digest>,
                        md5: Bytes -> Digest)
    requires Extends(f0, f1) && h0 <= h1 && |f1.Keys| == |f0.Keys| + |h1 - h0|
    requires NewDigests(f0, f1, h0, h1, md5) && NewDistinct(f0, f1, md5)
    ensures LegacyGrew(f0, f1, h0, h1, md5)
  {
  }

  lemma CountStepUp(k0: set<Path>, k1: set<Path>, h0: set<Digest>, h1: set<Digest>, p: Path, d: Digest)
    requires h0 <= h1 && |k1| == |k0| + |h1 - h0| && p !in k1 && d !in h1
    ensures |k1 + {p}| == |k0| + |(h1 + {d}) - h0|
  {
    assert (h1 + {d}) - h0 == (h1 - h0) + {d};
  }

  lemma NewStep(f0: map<Path, Bytes>, f1: map<Path, Bytes>, h0: set<Digest>,
                h1: set<Digest>, p: Path, data: Bytes, md5: Bytes -> Digest)
    requires Extends(f0, f1) && h0 <= h1 && NewDigests(f0, f1, h0, h1, md5) && NewDistinct(f0, f1, md5)
    requires p !in f1 && md5(data) !in h1
    ensures NewDigests(f0, f1[p := data], h0, h1 + {md5(data)}, md5)
    ensures NewDistinct(f0, f1[p := data], md5)
  {
    var f2 := f1[p := data];
    forall q | q in f2 && q !in f0 && q != p ensures f2[q] == f1[q] && md5(f2[q]) in h1 {
    }
  }

  lemma LegacyGrewTrans(f0: map<Path, Bytes>, f1: map<Path, Bytes>, f2: map<Path, Bytes>,
                        h0: set<Digest>, h1: set<Digest>, h2: set<Digest>, md5: Bytes -> Digest)
    requires LegacyGrew(f0, f1, h0, h1, md5) && LegacyGrew(f1, f2, h1, h2, md5)
    ensures LegacyGrew(f0, f2, h0, h2, md5)
  {
    DiffAdds(h0, h1, h2);
    NewTrans(f0, f1, f2, h0, h1, h2, md5);
  }

  /** Nested sets: what `h2` adds to `h0` is what `h1` adds plus what `h2` adds to `h1`. */
  lemma DiffAdds<T>(h0: set<T>, h1: set<T>, h2: set<T>)
    requires h0 <= h1 <= h2
    ensures |h2 - h0| == |h2 - h1| + |h1 - h0|
  {
    assert h2 - h0 == (h2 - h1) + (h1 - h0);
    assert (h2 - h1) * (h1 - h0) == {};
  }

  lemma NewTrans(f0: map<Path, Bytes>, f1: map<Path, Bytes>, f2: map<Path, Bytes>,
                 h0: set<Digest>, h1: set<Digest>, h2: set<Digest>, md5: Bytes -> Digest)
    requires Extends(f0, f1) && Extends(f1, f2) && h0 <= h1 <= h2
    requires NewDigests(f0, f1, h0, h1, md5) && NewDigests(f1, f2, h1, h2, md5)
    requires NewDistinct(f0, f1, md5) && NewDistinct(f1, f2, md5)
    ensures NewDigests(f0, f2, h0, h2, md5) && NewDistinct(f0, f2, md5)
  {
    forall p | p in f2 && p !in f0 ensures md5(f2[p]) in h2 && md5(f2[p]) !in h0 {
      if p in f1 {
        assert f2[p] == f1[p];
      }
    }
    forall p, q | p in f2 && p !in f0 && q in f2 && q !in f0 && p != q ensures md5(f2[p]) != md5(f2[q]) {
      if p in f1 {
        assert f2[p] == f1[p];
      }
      if q in f1 {
        assert f2[q] == f1[q];
      }
    }
  }

  /**
   * The collision search of mimgd.py (lines 139-145): the first candidate
   * that does not exist, without looking at any file's contents.
   */
  method FindSlotLegacy(disk: Disk, dir: Path, filename: string) returns (savePath: Path, index: nat)
    requires '/' !in filename
    ensures savePath == Candidate(dir, filename, index)
    ensures !Occupied(disk.files, dir, filename, index)
    ensures forall j :: 0 <= j < index ==> Occupied(disk.files, dir, filename, j)
  {
    savePath := Join(dir, filename);
    var counter := 1;
    var (name, ext) := SplitExt(filename);
    var taken := NamesDirectory(filename) || savePath in disk.files;
    while taken
      invariant 1 <= counter
      invariant savePath == Candidate(dir, filename, counter - 1)
      invariant taken == Occupied(disk.files, dir, filename, counter - 1)
      invariant forall j :: 0 <= j < counter - 1 ==> Occupied(disk.files, dir, filename, j)
      decreases disk.files.Keys - ContentStore.Tried(dir, filename, counter - 1), if counter == 1 then 1 else 0
    {
      assert Occupied(disk.files, dir, filename, counter - 1);
      ContentStore.TriedNext(dir, filename, counter - 1);
      savePath := Join(dir, name + "_" + Decimal(counter) + ext);
      assert savePath == Candidate(dir, filename, counter);
      counter := counter + 1;
      taken := savePath in disk.files;
    }
    index := counter - 1;
  }

  /**
   * What the download of `url` does to the tree `f0` and the digest set
   * `h0`: a failed request, a recorded digest or a `webpublic` name change
   * nothing; otherwise every candidate before `index` exists, the one at
   * `index` does not, the blob is written there and its digest recorded.
   */
  ghost predicate LegacySaveOutcome(f0: map<Path, Bytes>, f1: map<Path, Bytes>, url: string, userDir: Path,
                                    response: Option<Bytes>, h0: set<Digest>, h1: set<Digest>, index: nat,
                                    md5: Bytes -> Digest)
  {
    var fn := FileName(Normalize(url));
    if response.None? || md5(response.value) in h0 || StartsWith(fn, "webpublic") then
      h1 == h0 && f1 == f0
    else
      && (forall j :: 0 <= j < index ==> Occupied(f0, userDir, fn, j))
      && !Occupied(f0, userDir, fn, index)
      && h1 == h0 + {md5(response.value)}
      && f1 == f0[Candidate(userDir, fn, index) := response.value]
  }

  /**
   * The download of one resolved original (mimgd.py, lines 112-157):
   * `response` is the body of a successful reply or None when the request
   * or `raise_for_status` raised; `hashes` is the in-memory digest set.
   */
  method SaveLegacy(disk: Disk, url: string, userDir: Path, response: Option<Bytes>,
                    hashes: set<Digest>, md5: Bytes -> Digest)
    returns (hashes': set<Digest>, ghost path: Path, ghost index: nat)
    modifies disk
    ensures LegacyGrew(old(disk.files), disk.files, hashes, hashes', md5)
    ensures hashes' == hashes ==> disk.files == old(disk.files)
    ensures response.None? ==> hashes' == hashes
    ensures response.Some? && md5(response.value) in hashes ==> hashes' == hashes
    ensures response.Some? && StartsWith(FileName(Normalize(url)), "webpublic") ==> hashes' == hashes
    ensures response.Some? && md5(response.value) !in hashes && !StartsWith(FileName(Normalize(url)), "webpublic") ==>
              && hashes' == hashes + {md5(response.value)}
              && path !in old(disk.files)
              && disk.files == old(disk.files)[path := response.value]
              && path == Candidate(userDir, FileName(Normalize(url)), index)
              && forall j :: 0 <= j < index ==> Occupied(old(disk.files), userDir, FileName(Normalize(url)), j)
    ensures LegacySaveOutcome(old(disk.files), disk.files, url, userDir, response, hashes, hashes', index, md5)
  {
    path, index := "", 0;
    hashes' := hashes;
    LegacyGrewRefl(disk.files, hashes, md5);
    var imgUrl := Normalize(url);
    if response.None? {
      return;
    }
    var data := response.value;
    var imgHash := md5(data);
    if imgHash in hashes {
      return;
    }
    var filename := FileName(imgUrl);
    if StartsWith(filename, "webpublic") {
      // `continue`: success is already set, so the attempt loop ends here
      return;
    }
    var savePath;
    savePath, index := FindSlotLegacy(disk, userDir, filename);
    LegacyGrewStep(disk.files, disk.files, hashes, hashes, savePath, data, md5);
    disk.Write(savePath, data);
    hashes' := hashes + {imgHash};
    path := savePath;
  }

  /**
   * What handling `thumb` does: nothing when no attempt finds an original,
   * otherwise the download of the first original found.
   */
  ghost predicate ThumbOutcome(f0: map<Path, Bytes>, f1: map<Path, Bytes>, h0: set<Digest>, h1: set<Digest>,
                               thumb: string, index: nat, userDir: Path, click: (string, nat) -> Resolver.Attempt,
                               fetch: string -> Option<Bytes>, md5: Bytes -> Digest)
  {
    match Resolver.FirstFound(thumb, click, 0)
    case None => f1 == f0 && h1 == h0
    case Some(u) => LegacySaveOutcome(f0, f1, u, userDir, fetch(Normalize(u)), h0, h1, index, md5)
  }

  /**
   * One thumbnail of mimgd.py (lines 74-169): up to two attempts to resolve
   * it, the original downloaded in the attempt that finds it. At most one
   * file is written per thumbnail.
   */
  method HandleThumbLegacy(disk: Disk, thumb: string, userDir: Path, click: (string, nat) -> Resolver.Attempt,
                           fetch: string -> Option<Bytes>, hashes: set<Digest>, md5: Bytes -> Digest)
    returns (hashes': set<Digest>, ghost index: nat)
    modifies disk
    ensures ThumbOutcome(old(disk.files), disk.files, hashes, hashes', thumb, index, userDir, click, fetch, md5)
    ensures LegacyGrew(old(disk.files), disk.files, hashes, hashes', md5)
    ensures |hashes' - hashes| <= 1
  {
    var found, tries := Resolver.Resolve(thumb, click, []);
    hashes', index := hashes, 0;
    if found == [] {
      LegacyGrewRefl(disk.files, hashes, md5);
      return;
    }
    var url := found[0];
    ghost var path;
    hashes', path, index := SaveLegacy(disk, url, userDir, fetch(Normalize(url)), hashes, md5);
    if hashes' == hashes {
      assert hashes' - hashes == {};
    } else {
      AddedOne(hashes, md5(fetch(Normalize(url)).value));
    }
  }

  /**
   * The thumbnails of a round handled one after another: `trees[i]` and
   * `hsets[i]` are the tree and the digest set before `order[i]`, and each
   * step is a ThumbOutcome. Stated from the last step back.
   */
  ghost predicate ThumbTrace(trees: seq<map<Path, Bytes>>, hsets: seq<set<Digest>>, order: seq<string>,
                             indices: seq<nat>, userDir: Path, click: (string, nat) -> Resolver.Attempt,
                             fetch: string -> Option<Bytes>, md5: Bytes -> Digest)
    decreases |order|
  {
    && |trees| == |order| + 1 && |hsets| == |order| + 1 && |indices| == |order|
    && (order != [] ==>
          var n := |order| - 1;
          && ThumbTrace(trees[..n + 1], hsets[..n + 1], order[..n], indices[..n], userDir, click, fetch, md5)
          && ThumbOutcome(trees[n], trees[n + 1], hsets[n], hsets[n + 1], order[n], indices[n],
                          userDir, click, fetch, md5))
  }

  /**
   * The state of a round's thumbnail loop after the thumbnails `done`,
   * handled in the order `order`, took (`f0`, `h0`) to (`f1`, `h1`).
   */
  ghost predicate RoundSoFar(f0: map<Path, Bytes>, f1: map<Path, Bytes>, h0: set<Digest>, h1: set<Digest>,
                             done: set<string>, order: seq<string>, trees: seq<map<Path, Bytes>>,
                             hsets: seq<set<Digest>>, indices: seq<nat>, userDir: Path,
                             click: (string, nat) -> Resolver.Attempt, fetch: string -> Option<Bytes>,
                             md5: Bytes -> Digest)
  {
    && h0 <= h1 && |h1 - h0| <= |done|
    && (forall a, b :: 0 <= a < b < |order| ==> order[a] != order[b])
    && (forall t :: t in order <==> t in done)
    && ThumbTrace(trees, hsets, order, indices, userDir, click, fetch, md5)
    && trees[0] == f0 && trees[|order|] == f1 && hsets[0] == h0 && hsets[|order|] == h1
  }

  /** Handling one more thumbnail `t` keeps RoundSoFar. */
  lemma RoundStep(f0: map<Path, Bytes>, f1: map<Path, Bytes>, f2: map<Path, Bytes>,
                  h0: set<Digest>, h1: set<Digest>, h2: set<Digest>, done: set<string>, order: seq<string>,
                  trees: seq<map<Path, Bytes>>, hsets: seq<set<Digest>>, indices: seq<nat>,
                  t: string, index: nat, userDir: Path, click: (string, nat) -> Resolver.Attempt,
                  fetch: string -> Option<Bytes>, md5: Bytes -> Digest)
    requires RoundSoFar(f0, f1, h0, h1, done, order, trees, hsets, indices, userDir, click, fetch, md5)
    requires t !in done
    requires ThumbOutcome(f1, f2, h1, h2, t, index, userDir, click, fetch, md5)
    ensures RoundSoFar(f0, f2, h0, h2, done + {t}, order + [t], trees + [f2], hsets + [h2], indices + [index],
                       userDir, click, fetch, md5)
  {
    OutcomeGrew(f1, f2, h1, h2, t, index, userDir, click, fetch, md5);
    CountStep(h0, h1, h2, done, t);
    ThumbTraceSnoc(trees, hsets, order, indices, userDir, click, fetch, md5, f2, h2, t, index);
    var o := order + [t];
    forall a, b | 0 <= a < b < |o| ensures o[a] != o[b] {
      if b == |order| {
        assert o[a] == order[a];
      } else {
        assert o[a] == order[a] && o[b] == order[b];
      }
    }
  }

  /** A ThumbOutcome writes at most one file, to a fresh path, for a digest not seen before. */
  lemma OutcomeGrew(f0: map<Path, Bytes>, f1: map<Path, Bytes>, h0: set<Digest>, h1: set<Digest>,
                    thumb: string, index: nat, userDir: Path, click: (string, nat) -> Resolver.Attempt,
                    fetch: string -> Option<Bytes>, md5: Bytes -> Digest)
    requires ThumbOutcome(f0, f1, h0, h1, thumb, index, userDir, click, fetch, md5)
    ensures LegacyGrew(f0, f1, h0, h1, md5) && |h1 - h0| <= 1
  {
    LegacyGrewRefl(f0, h0, md5);
    match Resolver.FirstFound(thumb, click, 0)
    case None =>
      assert h1 - h0 == {};
    case Some(u) =>
      var response, fn := fetch(Normalize(u)), FileName(Normalize(u));
      if response.None? || md5(response.value) in h0 || StartsWith(fn, "webpublic") {
        assert h1 - h0 == {};
      } else {
        LegacyGrewStep(f0, f0, h0, h0, Candidate(userDir, fn, index), response.value, md5);
        AddedOne(h0, md5(response.value));
      }
  }

  /**
   * `data` is what handling `t` downloads: the body fetched for the first
   * original its attempts find.
   */
  ghost predicate DownloadedFrom(t: string, data: Bytes, click: (string, nat) -> Resolver.Attempt,
                                 fetch: string -> Option<Bytes>)
  {
    var u := Resolver.FirstFound(t, click, 0);
    u.Some? && fetch(Normalize(u.value)) == Some(data)
  }

  /** `data` is what handling some thumbnail of `thumbs` downloads. */
  ghost predicate FromSome(thumbs: set<string>, data: Bytes, click: (string, nat) -> Resolver.Attempt,
                           fetch: string -> Option<Bytes>)
  {
    exists t :: t in thumbs && DownloadedFrom(t, data, click, fetch)
  }

  lemma FromSomeGrows(a: set<string>, b: set<string>, data: Bytes, click: (string, nat) -> Resolver.Attempt,
                      fetch: string -> Option<Bytes>)
    requires a <= b && FromSome(a, data, click, fetch)
    ensures FromSome(b, data, click, fetch)
  {
    var t :| t in a && DownloadedFrom(t, data, click, fetch);
    assert t in b;
  }

  /** Every file added from `f0` to `f1` holds what handling one of `thumbs` downloads. */
  ghost predicate NewFilesFrom(f0: map<Path, Bytes>, f1: map<Path, Bytes>, thumbs: set<string>,
                               click: (string, nat) -> Resolver.Attempt, fetch: string -> Option<Bytes>)
  {
    forall p :: p in f1 && p !in f0 ==> FromSome(thumbs, f1[p], click, fetch)
  }

  /** A ThumbOutcome adds only the body downloaded for `thumb`. */
  lemma OutcomeFiles(f0: map<Path, Bytes>, f1: map<Path, Bytes>, h0: set<Digest>, h1: set<Digest>,
                     thumb: string, index: nat, userDir: Path, click: (string, nat) -> Resolver.Attempt,
                     fetch: string -> Option<Bytes>, md5: Bytes -> Digest)
    requires ThumbOutcome(f0, f1, h0, h1, thumb, index, userDir, click, fetch, md5)
    ensures NewFilesFrom(f0, f1, {thumb}, click, fetch)
  {
    match Resolver.FirstFound(thumb, click, 0)
    case None =>
    case Some(u) =>
      var response, fn := fetch(Normalize(u)), FileName(Normalize(u));
      if !(response.None? || md5(response.value) in h0 || StartsWith(fn, "webpublic")) {
        var c := Candidate(userDir, fn, index);
        forall p | p in f1 && p !in f0 ensures FromSome({thumb}, f1[p], click, fetch) {
          assert p == c;
          assert thumb in {thumb} && DownloadedFrom(thumb, f1[p], click, fetch);
        }
      }
  }

  /** Two steps whose files come from `a` and from `b` add only files from any `c` holding both. */
  lemma NewFilesTrans(f0: map<Path, Bytes>, f1: map<Path, Bytes>, f2: map<Path, Bytes>,
                      a: set<string>, b: set<string>, c: set<string>, click: (string, nat) -> Resolver.Attempt,
                      fetch: string -> Option<Bytes>)
    requires NewFilesFrom(f0, f1, a, click, fetch) && NewFilesFrom(f1, f2, b, click, fetch) && Extends(f1, f2)
    requires a <= c && b <= c
    ensures NewFilesFrom(f0, f2, c, click, fetch)
  {
    forall p | p in f2 && p !in f0 ensures FromSome(c, f2[p], click, fetch) {
      if p in f1 {
        assert f2[p] == f1[p];
        FromSomeGrows(a, c, f2[p], click, fetch);
      } else {
        FromSomeGrows(b, c, f2[p], click, fetch);
      }
    }
  }

  /** The files a whole trace adds come from the thumbnails it handled. */
  lemma {:induction false} TraceFiles(trees: seq<map<Path, Bytes>>, hsets: seq<set<Digest>>, order: seq<string>,
                                      indices: seq<nat>, thumbs: set<string>, userDir: Path,
                                      click: (string, nat) -> Resolver.Attempt,
                                      fetch: string -> Option<Bytes>, md5: Bytes -> Digest)
    requires ThumbTrace(trees, hsets, order, indices, userDir, click, fetch, md5)
    requires forall i :: 0 <= i < |order| ==> order[i] in thumbs
    ensures NewFilesFrom(trees[0], trees[|order|], thumbs, click, fetch)
    decreases |order|
  {
    if order != [] {
      var n := |order| - 1;
      forall i | 0 <= i < n ensures order[..n][i] in thumbs {
        assert order[..n][i] == order[i];
      }
      TraceFiles(trees[..n + 1], hsets[..n + 1], order[..n], indices[..n], thumbs, userDir, click, fetch, md5);
      OutcomeFilesStep(trees[0], trees[n], trees[n + 1], hsets[n], hsets[n + 1], order[n], indices[n],
                       thumbs, userDir, click, fetch, md5);
    }
  }

  lemma OutcomeFilesStep(f0: map<Path, Bytes>, f1: map<Path, Bytes>, f2: map<Path, Bytes>,
                         h1: set<Digest>, h2: set<Digest>, thumb: string, index: nat, thumbs: set<string>,
                         userDir: Path, click: (string, nat) -> Resolver.Attempt,
                         fetch: string -> Option<Bytes>, md5: Bytes -> Digest)
    requires NewFilesFrom(f0, f1, thumbs, click, fetch) && thumb in thumbs
    requires ThumbOutcome(f1, f2, h1, h2, thumb, index, userDir, click, fetch, md5)
    ensures NewFilesFrom(f0, f2, thumbs, click, fetch)
  {
    OutcomeFiles(f1, f2, h1, h2, thumb, index, userDir, click, fetch, md5);
    OutcomeGrew(f1, f2, h1, h2, thumb, index, userDir, click, fetch, md5);
    NewFilesTrans(f0, f1, f2, thumbs, {thumb}, thumbs, click, fetch);
  }

  /** A whole trace keeps LegacyGrew from its first state to its last. */
  lemma {:induction false} TraceGrew(trees: seq<map<Path, Bytes>>, hsets: seq<set<Digest>>, order: seq<string>,
                                     indices: seq<nat>, userDir: Path, click: (string, nat) -> Resolver.Attempt,
                                     fetch: string -> Option<Bytes>, md5: Bytes -> Digest)
    requires ThumbTrace(trees, hsets, order, indices, userDir, click, fetch, md5)
    ensures LegacyGrew(trees[0], trees[|order|], hsets[0], hsets[|order|], md5)
    decreases |order|
  {
    if order == [] {
      LegacyGrewRefl(trees[0], hsets[0], md5);
    } else {
      var n := |order| - 1;
      TraceGrew(trees[..n + 1], hsets[..n + 1], order[..n], indices[..n], userDir, click, fetch, md5);
      OutcomeGrew(trees[n], trees[n + 1], hsets[n], hsets[n + 1], order[n], indices[n],
                  userDir, click, fetch, md5);
      LegacyGrewTrans(trees[0], trees[n], trees[n + 1], hsets[0], hsets[n], hsets[n + 1], md5);
    }
  }

  lemma ThumbTraceSnoc(trees: seq<map<Path, Bytes>>, hsets: seq<set<Digest>>, order: seq<string>,
                       indices: seq<nat>, userDir: Path, click: (string, nat) -> Resolver.Attempt,
                       fetch: string -> Option<Bytes>, md5: Bytes -> Digest,
                       f: map<Path, Bytes>, h: set<Digest>, t: string, index: nat)
    requires ThumbTrace(trees, hsets, order, indices, userDir, click, fetch, md5)
    requires ThumbOutcome(trees[|order|], f, hsets[|order|], h, t, index, userDir, click, fetch, md5)
    ensures ThumbTrace(trees + [f], hsets + [h], order + [t], indices + [index], userDir, click, fetch, md5)
  {
    var n := |order|;
    var trees', hsets', order', indices' := trees + [f], hsets + [h], order + [t], indices + [index];
    assert trees'[..n + 1] == trees && hsets'[..n + 1] == hsets && order'[..n] == order && indices'[..n] == indices;
    assert trees'[n] == trees[n] && trees'[n + 1] == f && hsets'[n] == hsets[n] && hsets'[n + 1] == h;
    assert order'[n] == t && indices'[n] == index;
    ThumbTraceCons(trees', hsets', order', indices', userDir, click, fetch, md5);
  }

  /** The recursive case of ThumbTrace, as a lemma to call with its pieces in hand. */
  lemma ThumbTraceCons(trees: seq<map<Path, Bytes>>, hsets: seq<set<Digest>>, order: seq<string>,
                       indices: seq<nat>, userDir: Path, click: (string, nat) -> Resolver.Attempt,
                       fetch: string -> Option<Bytes>, md5: Bytes -> Digest)
    requires order != [] && |trees| == |order| + 1 && |hsets| == |order| + 1 && |indices| == |order|
    requires var n := |order| - 1;
             ThumbTrace(trees[..n + 1], hsets[..n + 1], order[..n], indices[..n], userDir, click, fetch, md5)
    requires var n := |order| - 1;
             ThumbOutcome(trees[n], trees[n + 1], hsets[n], hsets[n + 1], order[n], indices[n],
                          userDir, click, fetch, md5)
    ensures ThumbTrace(trees, hsets, order, indices, userDir, click, fetch, md5)
  {
  }

  /**
   * One round of the legacy reveal loop (mimgd.py, lines 45-171): the
   * counter rule of the threaded variant, then every new thumbnail handled
   * by HandleThumbsLegacy.
   */
  method LegacyRound(disk: Disk, obs: Round, processed: set<string>, noNew: nat, userDir: Path,
                     click: (string, nat) -> Resolver.Attempt, fetch: string -> Option<Bytes>,
                     hashes: set<Digest>, md5: Bytes -> Digest)
    returns (batch: set<string>, processed': set<string>, noNew': nat, hashes': set<Digest>,
             ghost order: seq<string>, ghost trees: seq<map<Path, Bytes>>, ghost hsets: seq<set<Digest>>,
             ghost indices: seq<nat>)
    modifies disk
    ensures RoundSoFar(old(disk.files), disk.files, hashes, hashes', batch, order, trees, hsets, indices,
                       userDir, click, fetch, md5)
    ensures batch == NewThumbs(obs.srcs, processed) && batch !! processed
    ensures processed' == processed + batch
    ensures AllThumbnails(processed) ==> AllThumbnails(processed')
    ensures batch != {} ==> noNew' == 0
    ensures batch == {} && obs.newHeight == obs.lastHeight ==> noNew' == noNew + 2
    ensures batch == {} && obs.newHeight != obs.lastHeight ==> noNew' == noNew + 1
    ensures batch == {} ==> noNew < noNew'
    ensures LegacyGrew(old(disk.files), disk.files, hashes, hashes', md5)
    ensures |hashes' - hashes| <= |batch|
    ensures NewFilesFrom(old(disk.files), disk.files, batch, click, fetch)
  {
    noNew' := noNew;
    if obs.newHeight == obs.lastHeight {
      noNew' := noNew' + 1;
    }
    batch := CollectNew(obs.srcs, processed);
    processed', hashes' := processed, hashes;
    order, trees, hsets, indices := [], [disk.files], [hashes], [];
    LegacyGrewRefl(disk.files, hashes, md5);
    if batch == {} {
      noNew' := noNew' + 1;
      return;
    }
    noNew' := 0;
    processed', hashes', order, trees, hsets, indices :=
      HandleThumbsLegacy(disk, batch, processed, userDir, click, fetch, hashes, md5);
  }

  /**
   * The loop over a round's new thumbnails (mimgd.py, lines 74-169), in
   * whatever order the set yields them, each marked processed first.
   */
  method HandleThumbsLegacy(disk: Disk, batch: set<string>, processed: set<string>, userDir: Path,
                            click: (string, nat) -> Resolver.Attempt, fetch: string -> Option<Bytes>,
                            hashes: set<Digest>, md5: Bytes -> Digest)
    returns (processed': set<string>, hashes': set<Digest>,
             ghost order: seq<string>, ghost trees: seq<map<Path, Bytes>>, ghost hsets: seq<set<Digest>>,
             ghost indices: seq<nat>)
    modifies disk
    ensures processed' == processed + batch
    ensures RoundSoFar(old(disk.files), disk.files, hashes, hashes', batch, order, trees, hsets, indices,
                       userDir, click, fetch, md5)
    ensures LegacyGrew(old(disk.files), disk.files, hashes, hashes', md5)
    ensures NewFilesFrom(old(disk.files), disk.files, batch, click, fetch)
  {
    processed', hashes' := processed, hashes;
    order, trees, hsets, indices := [], [disk.files], [hashes], [];
    var remaining := batch;
    ghost var done: set<string> := {};
    while remaining != {}
      invariant ThumbsSoFar(batch, processed, processed', done, remaining, old(disk.files), disk.files, hashes,
                            hashes', order, trees, hsets, indices, userDir, click, fetch, md5)
      decreases remaining
    {
      var thumb :| thumb in remaining;
      processed', hashes', order, trees, hsets, indices :=
        RoundNext(disk, thumb, processed', userDir, click, fetch, hashes', md5, batch, processed, remaining,
                  old(disk.files), hashes, done, order, trees, hsets, indices);
      done, remaining := done + {thumb}, remaining - {thumb};
    }
    ThumbsDone(batch, processed, processed', done, old(disk.files), disk.files, hashes, hashes', order, trees,
               hsets, indices, userDir, click, fetch, md5);
  }

  /**
   * The state of HandleThumbsLegacy's loop: the batch split into the
   * thumbnails `done` and those `remaining`, the processed set grown by the
   * ones done, and RoundSoFar over them.
   */
  ghost predicate ThumbsSoFar(batch: set<string>, p0: set<string>, p1: set<string>, done: set<string>,
                              remaining: set<string>, f0: map<Path, Bytes>, f1: map<Path, Bytes>,
                              h0: set<Digest>, h1: set<Digest>, order: seq<string>,
                              trees: seq<map<Path, Bytes>>, hsets: seq<set<Digest>>, indices: seq<nat>,
                              userDir: Path, click: (string, nat) -> Resolver.Attempt,
                              fetch: string -> Option<Bytes>, md5: Bytes -> Digest)
  {
    && done + remaining == batch && done !! remaining && p1 == p0 + done
    && RoundSoFar(f0, f1, h0, h1, done, order, trees, hsets, indices, userDir, click, fetch, md5)
  }

  /** Once no thumbnail remains, the whole batch is done. */
  lemma ThumbsDone(batch: set<string>, p0: set<string>, p1: set<string>, done: set<string>,
                   f0: map<Path, Bytes>, f1: map<Path, Bytes>, h0: set<Digest>, h1: set<Digest>,
                   order: seq<string>, trees: seq<map<Path, Bytes>>, hsets: seq<set<Digest>>, indices: seq<nat>,
                   userDir: Path, click: (string, nat) -> Resolver.Attempt, fetch: string -> Option<Bytes>,
                   md5: Bytes -> Digest)
    requires ThumbsSoFar(batch, p0, p1, done, {}, f0, f1, h0, h1, order, trees, hsets, indices,
                         userDir, click, fetch, md5)
    ensures p1 == p0 + batch
    ensures RoundSoFar(f0, f1, h0, h1, batch, order, trees, hsets, indices, userDir, click, fetch, md5)
    ensures LegacyGrew(f0, f1, h0, h1, md5)
    ensures NewFilesFrom(f0, f1, batch, click, fetch)
  {
    assert done == batch;
    TraceGrew(trees, hsets, order, indices, userDir, click, fetch, md5);
    forall i | 0 <= i < |order| ensures order[i] in batch {
      assert order[i] in order;
    }
    TraceFiles(trees, hsets, order, indices, batch, userDir, click, fetch, md5);
  }

  /**
   * One pass of the loop in lines 74-169: thumbnail `t` marked processed
   * and handled, and ThumbsSoFar moved on by it.
   */
  method RoundNext(disk: Disk, t: string, processed: set<string>, userDir: Path,
                   click: (string, nat) -> Resolver.Attempt, fetch: string -> Option<Bytes>,
                   hashes: set<Digest>, md5: Bytes -> Digest, ghost batch: set<string>, ghost p0: set<string>,
                   ghost remaining: set<string>, ghost f0: map<Path, Bytes>, ghost h0: set<Digest>,
                   ghost done: set<string>, ghost order: seq<string>, ghost trees: seq<map<Path, Bytes>>,
                   ghost hsets: seq<set<Digest>>, ghost indices: seq<nat>)
    returns (processed': set<string>, hashes': set<Digest>, ghost order': seq<string>,
             ghost trees': seq<map<Path, Bytes>>, ghost hsets': seq<set<Digest>>, ghost indices': seq<nat>)
    requires t in remaining
    requires ThumbsSoFar(batch, p0, processed, done, remaining, f0, disk.files, h0, hashes, order, trees, hsets,
                         indices, userDir, click, fetch, md5)
    modifies disk
    ensures ThumbsSoFar(batch, p0, processed', done + {t}, remaining - {t}, f0, disk.files, h0, hashes',
                        order', trees', hsets', indices', userDir, click, fetch, md5)
  {
    processed' := processed + {t};
    ghost var files1 := disk.files;
    ghost var index;
    hashes', index := HandleThumbLegacy(disk, t, userDir, click, fetch, hashes, md5);
    MoveOne(p0, done, remaining, t);
    RoundStep(f0, files1, disk.files, h0, hashes, hashes', done, order, trees, hsets, indices,
              t, index, userDir, click, fetch, md5);
    order', trees', hsets', indices' := order + [t], trees + [disk.files], hsets + [hashes'], indices + [index];
  }

  /** Moving one element from `remaining` to `done` keeps their union and their disjointness. */
  lemma MoveOne<T>(base: set<T>, done: set<T>, remaining: set<T>, t: T)
    requires done !! remaining && t in remaining
    ensures (base + done) + {t} == base + (done + {t})
    ensures (done + {t}) + (remaining - {t}) == done + remaining
    ensures (done + {t}) !! (remaining - {t})
    ensures |done + {t}| == |done| + 1
  {
  }

  lemma AddedOne<T>(h: set<T>, x: T)
    ensures |(h + {x}) - h| <= 1
  {
    if x in h {
      assert (h + {x}) - h == {};
    } else {
      assert (h + {x}) - h == {x};
    }
  }

  lemma CountStep(h0: set<Digest>, h1: set<Digest>, h2: set<Digest>, done: set<string>, t: string)
    requires h0 <= h1 <= h2 && |h1 - h0| <= |done| && |h2 - h1| <= 1 && t !in done
    ensures |h2 - h0| <= |done + {t}|
  {
    assert h2 - h0 == (h2 - h1) + (h1 - h0);
    assert (h2 - h1) * (h1 - h0) == {};
  }

  /**
   * One user of mimgd.py (lines 29-173): the user directory from the
   * address, then reveal rounds `rounds(user, 0)`, `rounds(user, 1)`, ...
   * until three stagnation points have accumulated. `batches` holds each
   * round's batch and `idle` the number of trailing rounds without one.
   */
  method LegacyUser(disk: Disk, user: nat, userUrl: string, outputDir: Path, rounds: (nat, nat) -> Round,
                    click: (string, nat) -> Resolver.Attempt, fetch: string -> Option<Bytes>, md5: Bytes -> Digest,
                    ghost universe: set<string>, processed: set<string>, hashes: set<Digest>)
    returns (processed': set<string>, hashes': set<Digest>, ghost batches: seq<set<string>>, ghost idle: nat,
             ghost before: seq<set<string>>, ghost counters: seq<nat>)
    requires forall n: nat :: SrcsWithin(rounds(user, n), universe)
    requires processed <= universe && AllThumbnails(processed)
    modifies disk
    ensures processed <= processed' <= universe && AllThumbnails(processed')
    ensures PairwiseDisjoint(batches) && Union(batches) == processed' - processed
    ensures 2 <= idle <= MaxNoNewAttempts && EndsIdle(batches, idle)
    ensures LegacyGrew(old(disk.files), disk.files, hashes, hashes', md5)
    ensures |hashes' - hashes| <= |processed' - processed|
    ensures NewFilesFrom(old(disk.files), disk.files, processed' - processed, click, fetch)
    ensures RevealedFrom(ForUser(rounds, user), processed, batches, before, counters, processed')
  {
    var userDir := Join(outputDir, Username(userUrl));
    processed', hashes' := processed, hashes;
    batches, idle := [], 0;
    before, counters := [processed], [0];
    LegacyGrewRefl(disk.files, hashes, md5);
    assert processed - processed == {};
    var noNew: nat := 0;
    var roundNo := 0;
    while noNew < MaxNoNewAttempts
      invariant Visited(processed, processed', batches, idle, noNew, universe)
      invariant LegacyGrew(old(disk.files), disk.files, hashes, hashes', md5)
      invariant |hashes' - hashes| <= |processed' - processed|
      invariant NewFilesFrom(old(disk.files), disk.files, processed' - processed, click, fetch)
      invariant Followed(ForUser(rounds, user), processed, batches, before, counters) && roundNo == |batches|
      invariant before[|batches|] == processed' && counters[|batches|] == noNew
      decreases universe - processed', MaxNoNewAttempts - noNew
    {
      var obs := rounds(user, roundNo);
      ghost var batches0 := batches;
      roundNo := roundNo + 1;
      processed', noNew, hashes', batches, idle :=
        UserRound(disk, obs, processed', noNew, userDir, click, fetch, hashes', md5,
                  universe, processed, hashes, old(disk.files), batches, idle);
      FollowedStep(ForUser(rounds, user), processed, batches0, before, counters, batches[|batches0|], processed', noNew);
      before, counters := before + [processed'], counters + [noNew];
    }
  }

  /**
   * One pass of the loop in lines 42-171: a LegacyRound, with the facts the
   * per-user loop keeps carried from the start of the user (`start`,
   * `hashes0`, `files0`) to the end of the round, and its progress.
   */
  method UserRound(disk: Disk, obs: Round, processed: set<string>, noNew: nat, userDir: Path,
                   click: (string, nat) -> Resolver.Attempt, fetch: string -> Option<Bytes>,
                   hashes: set<Digest>, md5: Bytes -> Digest, ghost universe: set<string>,
                   ghost start: set<string>, ghost hashes0: set<Digest>, ghost files0: map<Path, Bytes>,
                   ghost batches: seq<set<string>>, ghost idle: nat)
    returns (processed': set<string>, noNew': nat, hashes': set<Digest>,
             ghost batches': seq<set<string>>, ghost idle': nat)
    requires SrcsWithin(obs, universe) && noNew < MaxNoNewAttempts
    requires Visited(start, processed, batches, idle, noNew, universe)
    requires LegacyGrew(files0, disk.files, hashes0, hashes, md5)
    requires |hashes - hashes0| <= |processed - start|
    requires NewFilesFrom(files0, disk.files, processed - start, click, fetch)
    modifies disk
    ensures Visited(start, processed', batches', idle', noNew', universe)
    ensures LegacyGrew(files0, disk.files, hashes0, hashes', md5)
    ensures |hashes' - hashes0| <= |processed' - start|
    ensures NewFilesFrom(files0, disk.files, processed' - start, click, fetch)
    ensures processed' != processed ==> universe - processed' < universe - processed
    ensures processed' == processed ==> noNew < noNew'
    ensures batches' == batches + [NewThumbs(obs.srcs, processed)]
    ensures RoundFollowed(obs, processed, NewThumbs(obs.srcs, processed), processed', noNew, noNew')
  {
    ghost var filesBefore := disk.files;
    var batch;
    ghost var order, trees, hsets, indices;
    batch, processed', noNew', hashes', order, trees, hsets, indices :=
      LegacyRound(disk, obs, processed, noNew, userDir, click, fetch, hashes, md5);
    VisitedStep(obs, start, processed, batches, idle, noNew, universe, batch, processed', noNew');
    LegacyGrewTrans(files0, filesBefore, disk.files, hashes0, hashes, hashes', md5);
    DiffAdds(hashes0, hashes, hashes');
    NewFilesTrans(files0, filesBefore, disk.files, processed - start, batch, processed' - start, click, fetch);
    batches', idle' := batches + [batch], if batch == {} then idle + 1 else 0;
  }

  /** Account `user`'s rounds, as the per-user loop of lines 42-171 sees them. */
  ghost function ForUser(rounds: (nat, nat) -> Round, user: nat): nat -> Round
  {
    (n: nat) => rounds(user, n)
  }

  /**
   * Account `i` ran its reveal loop over its own rounds from the shared
   * processed set `start` to `end`, as `tr` records, and added `added`.
   */
  ghost predicate AccountRevealed(rounds: (nat, nat) -> Round, i: nat, start: set<string>, tr: Trail,
                                  end: set<string>, added: set<string>)
  {
    RevealedFrom(ForUser(rounds, i), start, tr.batches, tr.before, tr.counters, end) && added == end - start
  }

  /**
   * The accounts handled so far, in order: account `i` starts from
   * `marks[i]`, where the one before it stopped, and the first from nothing.
   */
  ghost predicate AccountsRevealed(rounds: (nat, nat) -> Round, perUser: seq<set<string>>,
                                   marks: seq<set<string>>, trails: seq<Trail>)
  {
    && |marks| == |perUser| + 1 && |trails| == |perUser| && marks[0] == {}
    && forall i :: 0 <= i < |perUser| ==>
         AccountRevealed(rounds, i, marks[i], trails[i], marks[i + 1], perUser[i])
  }

  /** One more account, run from where the last one stopped, extends AccountsRevealed. */
  lemma AccountsSnoc(rounds: (nat, nat) -> Round, perUser: seq<set<string>>, marks: seq<set<string>>,
                     trails: seq<Trail>, tr: Trail, end: set<string>)
    requires AccountsRevealed(rounds, perUser, marks, trails)
    requires RevealedFrom(ForUser(rounds, |perUser|), marks[|perUser|], tr.batches, tr.before, tr.counters, end)
    ensures AccountsRevealed(rounds, perUser + [end - marks[|perUser|]], marks + [end], trails + [tr])
  {
    var p, m, t := perUser + [end - marks[|perUser|]], marks + [end], trails + [tr];
    forall i | 0 <= i < |p| ensures AccountRevealed(rounds, i, m[i], t[i], m[i + 1], p[i]) {
      if i < |perUser| {
        assert p[i] == perUser[i] && m[i] == marks[i] && m[i + 1] == marks[i + 1] && t[i] == trails[i];
      }
    }
  }

  /** What one user adds to the shared processed set is a batch disjoint from all earlier users'. */
  lemma UserAdds(perUser: seq<set<string>>, p0: set<string>, p1: set<string>)
    requires PairwiseDisjoint(perUser) && Union(perUser) == p0 && p0 <= p1
    ensures PairwiseDisjoint(perUser + [p1 - p0]) && Union(perUser + [p1 - p0]) == p1
  {
    AddDisjointBatch(perUser, p1 - p0);
  }

  lemma SubsetCounts(h0: set<Digest>, h1: set<Digest>, p0: set<string>, p1: set<string>)
    requires h0 <= h1 && p0 <= p1 && |h0| <= |p0| && |h1 - h0| <= |p1 - p0|
    ensures |h1| <= |p1|
  {
    assert h1 == (h1 - h0) + h0 && (h1 - h0) !! h0;
    assert p1 == (p1 - p0) + p0 && (p1 - p0) !! p0;
  }

  /**
   * `scrape_misskey_images` (mimgd.py, lines 18-178): every user in turn,
   * sharing the processed set and the digest set. Returns the two totals it
   * reports: thumbnails processed and unique images downloaded. Each unique
   * image is exactly one new file of the tree, no two new files have the
   * same digest, and nothing already on disk is lost or overwritten.
   */
  method ScrapeLegacy(disk: Disk, userUrls: seq<string>, outputDir: Path, rounds: (nat, nat) -> Round,
                      click: (string, nat) -> Resolver.Attempt, fetch: string -> Option<Bytes>,
                      md5: Bytes -> Digest, ghost universe: set<string>)
    returns (thumbnails: nat, unique: nat, processed: set<string>, hashes: set<Digest>,
             ghost perUser: seq<set<string>>, ghost marks: seq<set<string>>, ghost trails: seq<Trail>)
    requires forall u: nat, n: nat :: SrcsWithin(rounds(u, n), universe)
    modifies disk
    ensures thumbnails == |processed| && processed <= universe && AllThumbnails(processed)
    ensures |perUser| == |userUrls| && PairwiseDisjoint(perUser) && Union(perUser) == processed
    ensures unique == |hashes| <= thumbnails
    ensures LegacyGrew(old(disk.files), disk.files, {}, hashes, md5)
    ensures |disk.files.Keys| == |old(disk.files).Keys| + unique
    ensures NewFilesFrom(old(disk.files), disk.files, processed, click, fetch)
    ensures AccountsRevealed(rounds, perUser, marks, trails) && marks[|userUrls|] == processed
  {
    processed, hashes, perUser := {}, {}, [];
    marks, trails := [{}], [];
    LegacyGrewRefl(disk.files, {}, md5);
    var i := 0;
    while i < |userUrls|
      invariant 0 <= i <= |userUrls| && |perUser| == i
      invariant processed <= universe && AllThumbnails(processed)
      invariant PairwiseDisjoint(perUser) && Union(perUser) == processed
      invariant |hashes| <= |processed|
      invariant LegacyGrew(old(disk.files), disk.files, {}, hashes, md5)
      invariant NewFilesFrom(old(disk.files), disk.files, processed, click, fetch)
      invariant AccountsRevealed(rounds, perUser, marks, trails) && marks[i] == processed
    {
      ghost var p0, files0, h0 := processed, disk.files, hashes;
      ghost var batches, idle, before, counters;
      processed, hashes, batches, idle, before, counters :=
        LegacyUser(disk, i, userUrls[i], outputDir, rounds, click, fetch, md5, universe, processed, hashes);
      AccountsSnoc(rounds, perUser, marks, trails, Trail(batches, before, counters), processed);
      LegacyGrewTrans(old(disk.files), files0, disk.files, {}, h0, hashes, md5);
      SubsetCounts(h0, hashes, p0, processed);
      UserAdds(perUser, p0, processed);
      NewFilesTrans(old(disk.files), files0, disk.files, p0, processed - p0, processed, click, fetch);
      perUser, marks, trails := perUser + [processed - p0], marks + [processed], trails + [Trail(batches, before, counters)];
      i := i + 1;
    }
    assert hashes - {} == hashes;
    thumbnails, unique := |processed|, |hashes|;
  }
}
