/**
 * `process_single_user` (src/mimgd/__main__.py, lines 108-267) for one
 * account, given the shared digest list: the reveal loop with its
 * stagnation counter, resolution of each new thumbnail, and one batch
 * download per productive round.
 */
module Harvest {
  import opened Wrappers
  import opened Urls
  import opened FileSystem
  import opened Reveal
  import Resolver
  import HashMerge

  /**
   * From (`f0`, `items0`) to (`f1`, `items1`) the tree gained exactly `added`
   * files and lost or changed none, the digest list only grew at its end,
   * and every new file's digest is listed now but was not listed before.
   */
  ghost predicate StoreGrew(f0: map<Path, Bytes>, f1: map<Path, Bytes>,
                            items0: seq<Digest>, items1: seq<Digest>, added: nat, md5: Bytes -> Digest)
  {
    && Extends(f0, f1)
    && |f1.Keys| == |f0.Keys| + added
    && |items0| <= |items1| && items1[..|items0|] == items0
    && forall p :: p in f1 && p !in f0 ==> md5(f1[p]) in items1 && md5(f1[p]) !in items0
  }

  lemma StoreGrewTrans(f0: map<Path, Bytes>, f1: map<Path, Bytes>, f2: map<Path, Bytes>,
                       i0: seq<Digest>, i1: seq<Digest>, i2: seq<Digest>, a: nat, b: nat, md5: Bytes -> Digest)
    requires StoreGrew(f0, f1, i0, i1, a, md5) && StoreGrew(f1, f2, i1, i2, b, md5)
    ensures StoreGrew(f0, f2, i0, i2, a + b, md5)
  {
    assert i2[..|i0|] == i1[..|i0|] == i0;
    forall p | p in f2 && p !in f0 ensures md5(f2[p]) in i2 && md5(f2[p]) !in i0 {
      if p in f1 {
        assert md5(f1[p]) in i1;
        var k :| 0 <= k < |i1| && i1[k] == md5(f1[p]);
        assert i2[k] == i1[k];
      }
    }
  }

  /**
   * What one round did with its batch `thumbs`: the originals resolved from
   * it, the download trace over them (results, trees, collision indices), and
   * the shared digest list as it stood before the download.
   */
  datatype BatchLog = BatchLog(thumbs: set<string>, originals: seq<string>, results: seq<Option<Digest>>,
                               trees: seq<map<Path, Bytes>>, indices: seq<nat>, before: seq<Digest>)

  /**
   * `log` took the tree from `log.trees[0]` to `f1` and the shared list from
   * `log.before` to `items1`: the originals are those of its thumbnails, each
   * was saved in turn against the list as it stood before the batch, and
   * the merge appended the digests saved.
   */
  ghost predicate BatchDone(log: BatchLog, f1: map<Path, Bytes>, items1: seq<Digest>, userDir: Path,
                            click: (string, nat) -> Resolver.Attempt, fetch: string -> Option<Bytes>,
                            md5: Bytes -> Digest)
  {
    && Resolver.ResolvedFrom(log.originals, log.thumbs, click)
    && HashMerge.SaveTrace(log.trees, log.originals, userDir, fetch, log.before, log.results, log.indices, md5)
    && log.trees[|log.originals|] == f1
    && items1 == HashMerge.AppendAbsent(log.before, HashMerge.Present(log.results))
  }

  /**
   * Lines 193-260 for one productive round: resolve every thumbnail of the
   * batch, in whatever order the set yields them, then download the
   * originals found as one batch.
   */
  method HandleBatch(disk: Disk, shared: HashMerge.HashList, imageUrls: set<string>, userDir: Path,
                     click: (string, nat) -> Resolver.Attempt,
                     fetch: string -> Option<Bytes>, md5: Bytes -> Digest)
    returns (count: nat, ghost log: BatchLog)
    modifies disk, shared
    ensures BatchDone(log, disk.files, shared.items, userDir, click, fetch, md5)
    ensures log.thumbs == imageUrls && log.trees[0] == old(disk.files) && log.before == old(shared.items)
    ensures count == |HashMerge.Present(log.results)|
    ensures |log.originals| <= |imageUrls| && forall u :: u in log.originals ==> IsOriginal(u)
    ensures StoreGrew(old(disk.files), disk.files, old(shared.items), shared.items, count, md5)
  {
    var found := Resolver.ResolveAll(imageUrls, click);
    count := 0;
    log := BatchLog(imageUrls, found, [], [disk.files], [], shared.items);
    if found != [] {
      ghost var results, trees, indices;
      count, results, trees, indices := HashMerge.DownloadBatch(disk, shared, found, userDir, fetch, md5);
      log := log.(results := results, trees := trees, indices := indices);
      forall p | p in disk.files && p !in old(disk.files) ensures md5(disk.files[p]) in shared.items {
        assert md5(disk.files[p]) in HashMerge.Present(results);
      }
    }
  }

  /**
   * The body of the reveal loop (lines 163-262): one round of RevealRound,
   * and on a productive round the resolution and download of its batch.
   */
  method HarvestRound(disk: Disk, shared: HashMerge.HashList, obs: Round, processed: set<string>, noNew: nat,
                      userDir: Path, click: (string, nat) -> Resolver.Attempt,
                      fetch: string -> Option<Bytes>, md5: Bytes -> Digest)
    returns (batch: set<string>, processed': set<string>, noNew': nat, count: nat, ghost log: BatchLog)
    modifies disk, shared
    ensures batch == NewThumbs(obs.srcs, processed) && batch !! processed
    ensures processed' == processed + batch
    ensures AllThumbnails(processed) ==> AllThumbnails(processed')
    ensures batch != {} ==> noNew' == 0
    ensures batch == {} && obs.newHeight == obs.lastHeight ==> noNew' == noNew + 2
    ensures batch == {} && obs.newHeight != obs.lastHeight ==> noNew' == noNew + 1
    ensures BatchDone(log, disk.files, shared.items, userDir, click, fetch, md5)
    ensures log.thumbs == batch && log.trees[0] == old(disk.files) && log.before == old(shared.items)
    ensures count == |HashMerge.Present(log.results)|
    ensures |log.originals| <= |batch| && forall u :: u in log.originals ==> IsOriginal(u)
    ensures StoreGrew(old(disk.files), disk.files, old(shared.items), shared.items, count, md5)
    ensures batch == {} ==> count == 0 && disk.files == old(disk.files) && shared.items == old(shared.items)
  {
    batch, processed', noNew' := RevealRound(obs, processed, noNew);
    if batch == {} {
      // `continue`: nothing to resolve or download this round
      count, log := 0, BatchLog({}, [], [], [disk.files], [], shared.items);
      assert Resolver.Resolvable({}, click) == {};
      return;
    }
    count, log := HandleBatch(disk, shared, batch, userDir, click, fetch, md5);
  }

  /**
   * The logs of successive rounds link up: the first starts from (`f0`,
   * `items0`), each starts where the one before ended, and the last ends at
   * (`f1`, `items1`).
   */
  ghost predicate Chained(logs: seq<BatchLog>, f0: map<Path, Bytes>, items0: seq<Digest>,
                          f1: map<Path, Bytes>, items1: seq<Digest>, userDir: Path,
                          click: (string, nat) -> Resolver.Attempt, fetch: string -> Option<Bytes>,
                          md5: Bytes -> Digest)
    decreases |logs|
  {
    if logs == [] then f0 == f1 && items0 == items1
    else
      var last := logs[|logs| - 1];
      && BatchDone(last, f1, items1, userDir, click, fetch, md5)
      && Chained(logs[..|logs| - 1], f0, items0, last.trees[0], last.before, userDir, click, fetch, md5)
  }

  lemma ChainedSnoc(logs: seq<BatchLog>, f0: map<Path, Bytes>, items0: seq<Digest>,
                    f1: map<Path, Bytes>, items1: seq<Digest>, log: BatchLog,
                    f2: map<Path, Bytes>, items2: seq<Digest>, userDir: Path,
                    click: (string, nat) -> Resolver.Attempt, fetch: string -> Option<Bytes>,
                    md5: Bytes -> Digest)
    requires Chained(logs, f0, items0, f1, items1, userDir, click, fetch, md5)
    requires BatchDone(log, f2, items2, userDir, click, fetch, md5)
    requires log.trees[0] == f1 && log.before == items1
    ensures Chained(logs + [log], f0, items0, f2, items2, userDir, click, fetch, md5)
  {
    assert (logs + [log])[..|logs|] == logs;
  }

  /**
   * Observations are parameters: `rounds(n)` is what reveal round `n` sees,
   * `click(t, k)` what attempt `k` on thumbnail `t` sees, `fetch(u)` the
   * status-200 body for `u` (or None). `universe` holds every `src` the feed
   * can ever show.
   *
   * Returns `len(processed_thumbnails)` and the number of blobs saved;
   * `seen` is the processed set, `batches` the batch of each round (empty
   * for unproductive ones), `logs` what each round resolved and saved, and
   * `idle` the number of unproductive rounds at the end.
   */
  method ProcessUser(disk: Disk, shared: HashMerge.HashList, userUrl: string, outputDir: Path,
                     rounds: nat -> Round, click: (string, nat) -> Resolver.Attempt,
                     fetch: string -> Option<Bytes>, md5: Bytes -> Digest, ghost universe: set<string>)
    returns (thumbnails: nat, downloaded: nat,
             ghost seen: set<string>, ghost batches: seq<set<string>>,
             ghost logs: seq<BatchLog>, ghost idle: nat,
             ghost before: seq<set<string>>, ghost counters: seq<nat>)
    requires forall n: nat :: SrcsWithin(rounds(n), universe)
    modifies disk, shared
    ensures thumbnails == |seen| && seen <= universe && AllThumbnails(seen)
    ensures PairwiseDisjoint(batches) && Union(batches) == seen
    ensures 2 <= idle <= MaxNoNewAttempts && EndsIdle(batches, idle)
    ensures |logs| == |batches| && forall k :: 0 <= k < |logs| ==> logs[k].thumbs == batches[k]
    ensures Chained(logs, old(disk.files), old(shared.items), disk.files, shared.items,
                    Join(outputDir, Username(userUrl)), click, fetch, md5)
    ensures StoreGrew(old(disk.files), disk.files, old(shared.items), shared.items, downloaded, md5)
    ensures RevealedFrom(rounds, {}, batches, before, counters, seen)
  {
    var username := Username(userUrl);
    var userDir := Join(outputDir, username);
    var processed: set<string> := {};
    var total := 0;
    var noNew: nat := 0;
    var roundNo := 0;
    batches, logs, idle := [], [], 0;
    before, counters := [{}], [0];
    HarvestedStart(universe, old(disk.files), old(shared.items), userDir, click, fetch, md5);

    while noNew < MaxNoNewAttempts
      invariant Harvested(processed, batches, idle, noNew, universe, logs, old(disk.files), old(shared.items),
                          disk.files, shared.items, total, userDir, click, fetch, md5)
      invariant Followed(rounds, {}, batches, before, counters) && roundNo == |batches|
      invariant before[|batches|] == processed && counters[|batches|] == noNew
      decreases universe - processed, MaxNoNewAttempts - noNew
    {
      var obs := rounds(roundNo);
      ghost var batches0 := batches;
      roundNo := roundNo + 1;
      processed, noNew, total, batches, idle, logs :=
        HarvestStep(disk, shared, obs, processed, noNew, total, userDir, click, fetch, md5,
                    universe, batches, idle, logs, old(disk.files), old(shared.items));
      FollowedStep(rounds, {}, batches0, before, counters, batches[|batches0|], processed, noNew);
      before, counters := before + [processed], counters + [noNew];
    }
    HarvestedEnd(processed, batches, idle, noNew, universe, logs, old(disk.files), old(shared.items),
                 disk.files, shared.items, total, userDir, click, fetch, md5);
    thumbnails, downloaded, seen := |processed|, total, processed;
  }

  /**
   * What the reveal loop of ProcessUser keeps from (`f0`, `items0`) at the
   * start of the user: Visited from the empty set, one log per round's batch, the logs
   * chained up to the current state, and StoreGrew by `total` files.
   */
  ghost predicate Harvested(processed: set<string>, batches: seq<set<string>>, idle: nat, noNew: nat,
                            universe: set<string>, logs: seq<BatchLog>, f0: map<Path, Bytes>, items0: seq<Digest>,
                            f1: map<Path, Bytes>, items1: seq<Digest>, total: nat, userDir: Path,
                            click: (string, nat) -> Resolver.Attempt, fetch: string -> Option<Bytes>,
                            md5: Bytes -> Digest)
  {
    && Visited({}, processed, batches, idle, noNew, universe)
    && |logs| == |batches| && (forall k :: 0 <= k < |logs| ==> logs[k].thumbs == batches[k])
    && Chained(logs, f0, items0, f1, items1, userDir, click, fetch, md5)
    && StoreGrew(f0, f1, items0, items1, total, md5)
  }

  /** Before the first round nothing was visited, logged or stored. */
  lemma HarvestedStart(universe: set<string>, f0: map<Path, Bytes>, items0: seq<Digest>, userDir: Path,
                       click: (string, nat) -> Resolver.Attempt, fetch: string -> Option<Bytes>,
                       md5: Bytes -> Digest)
    ensures Harvested({}, [], 0, 0, universe, [], f0, items0, f0, items0, 0, userDir, click, fetch, md5)
  {
    assert items0[..|items0|] == items0;
  }

  /** When the counter reaches its limit, at least two rounds at the end were idle. */
  lemma HarvestedEnd(processed: set<string>, batches: seq<set<string>>, idle: nat, noNew: nat,
                     universe: set<string>, logs: seq<BatchLog>, f0: map<Path, Bytes>, items0: seq<Digest>,
                     f1: map<Path, Bytes>, items1: seq<Digest>, total: nat, userDir: Path,
                     click: (string, nat) -> Resolver.Attempt, fetch: string -> Option<Bytes>,
                     md5: Bytes -> Digest)
    requires Harvested(processed, batches, idle, noNew, universe, logs, f0, items0, f1, items1, total,
                       userDir, click, fetch, md5)
    requires MaxNoNewAttempts <= noNew
    ensures processed <= universe && AllThumbnails(processed)
    ensures PairwiseDisjoint(batches) && Union(batches) == processed
    ensures 2 <= idle <= MaxNoNewAttempts && EndsIdle(batches, idle)
    ensures |logs| == |batches| && forall k :: 0 <= k < |logs| ==> logs[k].thumbs == batches[k]
    ensures Chained(logs, f0, items0, f1, items1, userDir, click, fetch, md5)
    ensures StoreGrew(f0, f1, items0, items1, total, md5)
  {
    assert processed - {} == processed;
  }

  /**
   * One pass of ProcessUser's loop: a HarvestRound, with Harvested carried
   * from before the round to after it, and the progress that bounds the loop.
   */
  method HarvestStep(disk: Disk, shared: HashMerge.HashList, obs: Round, processed: set<string>, noNew: nat,
                     total: nat, userDir: Path, click: (string, nat) -> Resolver.Attempt,
                     fetch: string -> Option<Bytes>, md5: Bytes -> Digest, ghost universe: set<string>,
                     ghost batches: seq<set<string>>, ghost idle: nat, ghost logs: seq<BatchLog>,
                     ghost f0: map<Path, Bytes>, ghost items0: seq<Digest>)
    returns (processed': set<string>, noNew': nat, total': nat,
             ghost batches': seq<set<string>>, ghost idle': nat, ghost logs': seq<BatchLog>)
    requires SrcsWithin(obs, universe) && noNew < MaxNoNewAttempts
    requires Harvested(processed, batches, idle, noNew, universe, logs, f0, items0,
                       disk.files, shared.items, total, userDir, click, fetch, md5)
    modifies disk, shared
    ensures Harvested(processed', batches', idle', noNew', universe, logs', f0, items0,
                      disk.files, shared.items, total', userDir, click, fetch, md5)
    ensures processed' != processed ==> universe - processed' < universe - processed
    ensures processed' == processed ==> noNew < noNew'
    ensures batches' == batches + [NewThumbs(obs.srcs, processed)]
    ensures RoundFollowed(obs, processed, NewThumbs(obs.srcs, processed), processed', noNew, noNew')
  {
    ghost var files1, items1 := disk.files, shared.items;
    var batch, count;
    ghost var log;
    batch, processed', noNew', count, log :=
      HarvestRound(disk, shared, obs, processed, noNew, userDir, click, fetch, md5);
    HarvestedStep(obs, processed, batches, idle, noNew, universe, logs, f0, items0, files1, items1, total,
                  userDir, click, fetch, md5, batch, processed', noNew', count, log, disk.files, shared.items);
    batches', logs' := batches + [batch], logs + [log];
    total' := total + count;
    idle' := if batch == {} then idle + 1 else 0;
  }

  /** A HarvestRound after Harvested gives Harvested again, with one more batch and log. */
  lemma HarvestedStep(obs: Round, processed: set<string>, batches: seq<set<string>>, idle: nat, noNew: nat,
                      universe: set<string>, logs: seq<BatchLog>, f0: map<Path, Bytes>, items0: seq<Digest>,
                      f1: map<Path, Bytes>, items1: seq<Digest>, total: nat, userDir: Path,
                      click: (string, nat) -> Resolver.Attempt, fetch: string -> Option<Bytes>,
                      md5: Bytes -> Digest, batch: set<string>, processed': set<string>, noNew': nat,
                      count: nat, log: BatchLog, f2: map<Path, Bytes>, items2: seq<Digest>)
    requires SrcsWithin(obs, universe) && noNew < MaxNoNewAttempts
    requires Harvested(processed, batches, idle, noNew, universe, logs, f0, items0, f1, items1, total,
                       userDir, click, fetch, md5)
    requires batch == NewThumbs(obs.srcs, processed) && batch !! processed && processed' == processed + batch
    requires AllThumbnails(processed) ==> AllThumbnails(processed')
    requires batch != {} ==> noNew' == 0
    requires batch == {} ==> noNew + 1 <= noNew' <= noNew + 2
    requires BatchDone(log, f2, items2, userDir, click, fetch, md5)
    requires log.thumbs == batch && log.trees[0] == f1 && log.before == items1
    requires StoreGrew(f1, f2, items1, items2, count, md5)
    ensures Harvested(processed', batches + [batch], if batch == {} then idle + 1 else 0, noNew', universe,
                      logs + [log], f0, items0, f2, items2, total + count, userDir, click, fetch, md5)
    ensures processed' != processed ==> universe - processed' < universe - processed
    ensures processed' == processed ==> noNew < noNew'
  {
    VisitedStep(obs, {}, processed, batches, idle, noNew, universe, batch, processed', noNew');
    StoreGrewTrans(f0, f1, f2, items0, items1, items2, total, count, md5);
    ChainedSnoc(logs, f0, items0, f1, items1, log, f2, items2, userDir, click, fetch, md5);
    LogsMatchSnoc(logs, batches, log, batch);
    HarvestedIntro(processed', batches + [batch], if batch == {} then idle + 1 else 0, noNew', universe,
                   logs + [log], f0, items0, f2, items2, total + count, userDir, click, fetch, md5);
  }

  lemma LogsMatchSnoc(logs: seq<BatchLog>, batches: seq<set<string>>, log: BatchLog, batch: set<string>)
    requires |logs| == |batches| && forall k :: 0 <= k < |logs| ==> logs[k].thumbs == batches[k]
    requires log.thumbs == batch
    ensures var logs', batches' := logs + [log], batches + [batch];
            |logs'| == |batches'| && forall k :: 0 <= k < |logs'| ==> logs'[k].thumbs == batches'[k]
  {
    var logs', batches' := logs + [log], batches + [batch];
    forall k | 0 <= k < |logs'| ensures logs'[k].thumbs == batches'[k] {
      if k < |logs| {
        assert logs'[k] == logs[k] && batches'[k] == batches[k];
      }
    }
  }

  /** Harvested from its four parts. */
  lemma HarvestedIntro(processed: set<string>, batches: seq<set<string>>, idle: nat, noNew: nat,
                       universe: set<string>, logs: seq<BatchLog>, f0: map<Path, Bytes>, items0: seq<Digest>,
                       f1: map<Path, Bytes>, items1: seq<Digest>, total: nat, userDir: Path,
                       click: (string, nat) -> Resolver.Attempt, fetch: string -> Option<Bytes>,
                       md5: Bytes -> Digest)
    requires Visited({}, processed, batches, idle, noNew, universe)
    requires |logs| == |batches| && forall k :: 0 <= k < |logs| ==> logs[k].thumbs == batches[k]
    requires Chained(logs, f0, items0, f1, items1, userDir, click, fetch, md5)
    requires StoreGrew(f0, f1, items0, items1, total, md5)
    ensures Harvested(processed, batches, idle, noNew, universe, logs, f0, items0, f1, items1, total,
                      userDir, click, fetch, md5)
  {
  }
}
