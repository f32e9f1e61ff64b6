/**
 * One round of the reveal loop: the page is scrolled, its height measured
 * before and after, and the `src` attribute of every `<img>` read. The
 * browser is not modelled; each round's observations are a `Round` value.
 */
module Reveal {
  import opened Wrappers
  import opened Urls

  /** Rounds without new thumbnails tolerated before the loop stops. */
  const MaxNoNewAttempts: nat := 3

  /**
   * What one round shows: `document.body.scrollHeight` before and after the
   * scroll, and each `<img>`'s `src` attribute in page order (None when the
   * element has none).
   */
  datatype Round = Round(lastHeight: int, newHeight: int, srcs: seq<Option<string>>)

  /** Every `src` the round shows lies in `universe`: the feed has finitely many. */
  ghost predicate SrcsWithin(r: Round, universe: set<string>)
  {
    forall i :: 0 <= i < |r.srcs| && r.srcs[i].Some? ==> r.srcs[i].value in universe
  }

  /** Every element is a thumbnail reference. */
  ghost predicate AllThumbnails(thumbs: set<string>)
  {
    forall s :: s in thumbs ==> IsThumbnail(s)
  }

  /** The `src` at position `i` is a thumbnail reference not processed yet. */
  ghost predicate NewThumbAt(srcs: seq<Option<string>>, processed: set<string>, i: int)
  {
    0 <= i < |srcs| && srcs[i].Some? && IsThumbnail(srcs[i].value) && srcs[i].value !in processed
  }

  /** The thumbnail references of a round that are not processed yet. */
  ghost function NewThumbs(srcs: seq<Option<string>>, processed: set<string>): set<string>
  {
    set i | 0 <= i < |srcs| && NewThumbAt(srcs, processed, i) :: srcs[i].value
  }

  lemma NewThumbsStep(srcs: seq<Option<string>>, processed: set<string>, i: nat)
    requires i < |srcs|
    ensures NewThumbs(srcs[..i + 1], processed) ==
            NewThumbs(srcs[..i], processed) + (if NewThumbAt(srcs, processed, i) then {srcs[i].value} else {})
  {
    var a, b := srcs[..i + 1], srcs[..i];
    forall k | 0 <= k < i ensures NewThumbAt(a, processed, k) == NewThumbAt(b, processed, k) {
      assert a[k] == b[k];
    }
    assert NewThumbAt(a, processed, i) == NewThumbAt(srcs, processed, i);
  }

  /**
   * The scan of src/mimgd/__main__.py (lines 176-183): each new thumbnail
   * goes into the batch and is marked processed at once.
   */
  method ScanImages(srcs: seq<Option<string>>, processed: set<string>)
    returns (batch: set<string>, processed': set<string>)
    ensures batch == NewThumbs(srcs, processed)
    ensures processed' == processed + batch
    ensures batch !! processed
    ensures forall s :: s in batch ==> IsThumbnail(s)
    ensures AllThumbnails(processed) ==> AllThumbnails(processed')
  {
    batch, processed' := {}, processed;
    var i := 0;
    while i < |srcs|
      invariant 0 <= i <= |srcs|
      invariant batch == NewThumbs(srcs[..i], processed)
      invariant processed' == processed + batch
    {
      NewThumbsStep(srcs, processed, i);
      var src := srcs[i];
      if src.Some? && IsThumbnail(src.value) && src.value !in processed' {
        batch := batch + {src.value};
        processed' := processed' + {src.value};
      }
      i := i + 1;
    }
    assert srcs[..i] == srcs;
  }

  /**
   * One round of src/mimgd/__main__.py (lines 165-190) after the scroll: the
   * counter grows by one when the height did not change and by one more when
   * no new thumbnail turned up; a round with new thumbnails resets it.
   */
  method RevealRound(obs: Round, processed: set<string>, noNew: nat)
    returns (batch: set<string>, processed': set<string>, noNew': nat)
    ensures batch == NewThumbs(obs.srcs, processed) && batch !! processed
    ensures processed' == processed + batch
    ensures AllThumbnails(processed) ==> AllThumbnails(processed')
    ensures batch != {} ==> noNew' == 0
    ensures batch == {} && obs.newHeight == obs.lastHeight ==> noNew' == noNew + 2
    ensures batch == {} && obs.newHeight != obs.lastHeight ==> noNew' == noNew + 1
  {
    noNew' := noNew;
    if obs.newHeight == obs.lastHeight {
      noNew' := noNew' + 1;
    }
    batch, processed' := ScanImages(obs.srcs, processed);
    if batch == {} {
      noNew' := noNew' + 1;
    } else {
      noNew' := 0;
    }
  }

  /**
   * The scan of mimgd.py (lines 57-63): new thumbnails are only collected;
   * they are marked processed later, one by one, as they are handled.
   */
  method CollectNew(srcs: seq<Option<string>>, processed: set<string>) returns (batch: set<string>)
    ensures batch == NewThumbs(srcs, processed)
    ensures batch !! processed
    ensures forall s :: s in batch ==> IsThumbnail(s)
  {
    batch := {};
    var i := 0;
    while i < |srcs|
      invariant 0 <= i <= |srcs|
      invariant batch == NewThumbs(srcs[..i], processed)
    {
      NewThumbsStep(srcs, processed, i);
      var src := srcs[i];
      if src.Some? && IsThumbnail(src.value) && src.value !in processed {
        batch := batch + {src.value};
      }
      i := i + 1;
    }
    assert srcs[..i] == srcs;
  }

  lemma NewThumbsWithin(r: Round, processed: set<string>, universe: set<string>)
    requires SrcsWithin(r, universe)
    ensures NewThumbs(r.srcs, processed) <= universe
  {
  }

  /** The union of a sequence of batches. */
  ghost function Union(batches: seq<set<string>>): set<string>
  {
    if batches == [] then {} else Union(batches[..|batches| - 1]) + batches[|batches| - 1]
  }

  /** Each batch lies within the union. */
  lemma {:induction false} UnionContains(batches: seq<set<string>>, k: nat)
    requires k < |batches|
    ensures batches[k] <= Union(batches)
  {
    var n := |batches| - 1;
    if k < n {
      UnionContains(batches[..n], k);
      assert batches[..n][k] == batches[k];
    }
  }

  /** No thumbnail reference occurs in two batches. */
  ghost predicate PairwiseDisjoint(batches: seq<set<string>>)
  {
    forall k, m :: 0 <= k < m < |batches| ==> batches[k] !! batches[m]
  }

  /** A batch disjoint from everything seen so far keeps the batches pairwise disjoint. */
  lemma AddDisjointBatch(batches: seq<set<string>>, b: set<string>)
    requires PairwiseDisjoint(batches) && b !! Union(batches)
    ensures PairwiseDisjoint(batches + [b]) && Union(batches + [b]) == Union(batches) + b
  {
    var next := batches + [b];
    assert next[..|batches|] == batches;
    forall k, m | 0 <= k < m < |next| ensures next[k] !! next[m] {
      assert next[k] == batches[k];
      if m == |batches| {
        UnionContains(batches, k);
      } else {
        assert next[m] == batches[m];
      }
    }
  }

  /** A non-empty batch of unvisited references from `universe` shrinks what is left to visit. */
  lemma ShrinksUnvisited(processed: set<string>, batch: set<string>, universe: set<string>)
    requires batch != {} && batch !! processed && batch <= universe
    ensures universe - (processed + batch) < universe - processed
  {
    var t :| t in batch;
    assert t in universe - processed && t !in universe - (processed + batch);
  }

  /** Exactly the last `idle` rounds found no new thumbnail. */
  ghost predicate EndsIdle(batches: seq<set<string>>, idle: nat)
  {
    && idle <= |batches|
    && (forall k :: |batches| - idle <= k < |batches| ==> batches[k] == {})
    && (|batches| > idle ==> batches[|batches| - idle - 1] != {})
  }

  lemma EndsIdleStep(batches: seq<set<string>>, idle: nat, b: set<string>)
    requires EndsIdle(batches, idle)
    ensures b == {} ==> EndsIdle(batches + [b], idle + 1)
    ensures b != {} ==> EndsIdle(batches + [b], 0)
  {
    var next := batches + [b];
    forall k | 0 <= k < |batches| ensures next[k] == batches[k] { }
  }

  /**
   * What the reveal loop of one user keeps, from the processed set `start`
   * it began with: the processed set lies in the universe and holds
   * thumbnails only, the rounds' batches partition what this user added,
   * and the stagnation counter sits between the number of trailing idle
   * rounds and twice it.
   */
  ghost predicate Visited(start: set<string>, processed: set<string>, batches: seq<set<string>>,
                          idle: nat, noNew: nat, universe: set<string>)
  {
    && start <= processed <= universe && AllThumbnails(processed)
    && PairwiseDisjoint(batches) && Union(batches) == processed - start
    && idle <= noNew <= 2 * idle && idle <= MaxNoNewAttempts && EndsIdle(batches, idle)
  }

  /** One round keeps Visited and either visits new thumbnails or raises the counter. */
  lemma VisitedStep(obs: Round, start: set<string>, p0: set<string>, batches: seq<set<string>>, idle: nat,
                    noNew: nat, universe: set<string>, batch: set<string>, p1: set<string>, noNew': nat)
    requires SrcsWithin(obs, universe) && noNew < MaxNoNewAttempts
    requires Visited(start, p0, batches, idle, noNew, universe)
    requires batch == NewThumbs(obs.srcs, p0) && batch !! p0 && p1 == p0 + batch
    requires AllThumbnails(p0) ==> AllThumbnails(p1)
    requires batch != {} ==> noNew' == 0
    requires batch == {} ==> noNew + 1 <= noNew' <= noNew + 2
    ensures Visited(start, p1, batches + [batch], if batch == {} then idle + 1 else 0, noNew', universe)
    ensures p1 - start == (p0 - start) + batch
    ensures |p1 - start| == |p0 - start| + |batch|
    ensures batch != {} ==> universe - p1 < universe - p0
    ensures batch == {} ==> p1 == p0 && noNew < noNew'
  {
    VisitStep(obs, start, p0, batch, p1, universe);
    AddDisjointBatch(batches, batch);
    EndsIdleStep(batches, idle, batch);
  }

  /** One round adds its batch to the visited set, inside the universe, and otherwise leaves it alone. */
  lemma VisitStep(obs: Round, start: set<string>, p0: set<string>, batch: set<string>, p1: set<string>,
                  universe: set<string>)
    requires SrcsWithin(obs, universe) && start <= p0 <= universe
    requires batch == NewThumbs(obs.srcs, p0) && batch !! p0 && p1 == p0 + batch
    ensures start <= p1 <= universe
    ensures |p1 - start| == |p0 - start| + |batch|
    ensures p1 - start == (p0 - start) + batch
    ensures batch != {} ==> universe - p1 < universe - p0
    ensures batch == {} ==> p1 == p0
  {
    NewThumbsWithin(obs, p0, universe);
    assert p1 - start == (p0 - start) + batch;
    assert (p0 - start) !! batch;
    if batch != {} {
      ShrinksUnvisited(p0, batch, universe);
    }
  }

  /** The counter after a round: reset by new thumbnails, else 2 more on an unchanged height and 1 more otherwise. */
  ghost function NextCount(noNew: nat, batch: set<string>, obs: Round): nat
  {
    if batch != {} then 0 else if obs.newHeight == obs.lastHeight then noNew + 2 else noNew + 1
  }

  /**
   * Round `obs` was entered with the processed set `p0` and the counter `c0`
   * below the limit, and took them to `p1` and `c1` through the batch of its
   * new thumbnails.
   */
  ghost predicate RoundFollowed(obs: Round, p0: set<string>, batch: set<string>, p1: set<string>, c0: nat, c1: nat)
  {
    && c0 < MaxNoNewAttempts
    && batch == NewThumbs(obs.srcs, p0) && p1 == p0 + batch
    && c1 == NextCount(c0, batch, obs)
  }

  /**
   * The rounds so far, as `rounds` shows them: round `k` starts from
   * `before[k]` and `counters[k]` and ends at `before[k + 1]` and
   * `counters[k + 1]`, from `start` and a counter of 0.
   */
  ghost predicate Followed(rounds: nat -> Round, start: set<string>, batches: seq<set<string>>,
                           before: seq<set<string>>, counters: seq<nat>)
  {
    && |before| == |batches| + 1 && |counters| == |batches| + 1
    && before[0] == start && counters[0] == 0
    && forall k :: 0 <= k < |batches| ==>
         RoundFollowed(rounds(k), before[k], batches[k], before[k + 1], counters[k], counters[k + 1])
  }

  /** A whole reveal loop: the rounds followed until the counter first reaches the limit, ending at `end`. */
  ghost predicate RevealedFrom(rounds: nat -> Round, start: set<string>, batches: seq<set<string>>,
                               before: seq<set<string>>, counters: seq<nat>, end: set<string>)
  {
    && Followed(rounds, start, batches, before, counters)
    && before[|batches|] == end && MaxNoNewAttempts <= counters[|batches|]
  }

  /** The rounds of one account, with the processed set and counter before each round and after the last. */
  datatype Trail = Trail(batches: seq<set<string>>, before: seq<set<string>>, counters: seq<nat>)

  /** One more round, the next one `rounds` shows, extends Followed. */
  lemma FollowedStep(rounds: nat -> Round, start: set<string>, batches: seq<set<string>>,
                     before: seq<set<string>>, counters: seq<nat>, batch: set<string>, p1: set<string>, c1: nat)
    requires Followed(rounds, start, batches, before, counters)
    requires RoundFollowed(rounds(|batches|), before[|batches|], batch, p1, counters[|batches|], c1)
    ensures Followed(rounds, start, batches + [batch], before + [p1], counters + [c1])
  {
    var b, be, c := batches + [batch], before + [p1], counters + [c1];
    forall k | 0 <= k < |b| ensures RoundFollowed(rounds(k), be[k], b[k], be[k + 1], c[k], c[k + 1]) {
      if k < |batches| {
        assert b[k] == batches[k] && be[k] == before[k] && be[k + 1] == before[k + 1];
        assert c[k] == counters[k] && c[k + 1] == counters[k + 1];
      }
    }
  }

  /** Two runs over the same rounds from the same start agree on their first `k` rounds. */
  lemma {:induction false} FollowedAgree(rounds: nat -> Round, start: set<string>,
                                         b1: seq<set<string>>, be1: seq<set<string>>, c1: seq<nat>,
                                         b2: seq<set<string>>, be2: seq<set<string>>, c2: seq<nat>, k: nat)
    requires Followed(rounds, start, b1, be1, c1) && Followed(rounds, start, b2, be2, c2)
    requires k <= |b1| && k <= |b2|
    ensures b1[..k] == b2[..k] && be1[k] == be2[k] && c1[k] == c2[k]
    decreases k
  {
    if k > 0 {
      FollowedAgree(rounds, start, b1, be1, c1, b2, be2, c2, k - 1);
      assert RoundFollowed(rounds(k - 1), be1[k - 1], b1[k - 1], be1[k], c1[k - 1], c1[k]);
      assert RoundFollowed(rounds(k - 1), be2[k - 1], b2[k - 1], be2[k], c2[k - 1], c2[k]);
      assert b1[..k] == b1[..k - 1] + [b1[k - 1]] && b2[..k] == b2[..k - 1] + [b2[k - 1]];
    }
  }

  /** Every round of a run was entered with the counter below the limit. */
  lemma FollowedBelow(rounds: nat -> Round, start: set<string>, batches: seq<set<string>>,
                      before: seq<set<string>>, counters: seq<nat>, k: nat)
    requires Followed(rounds, start, batches, before, counters) && k < |batches|
    ensures counters[k] < MaxNoNewAttempts
  {
    assert RoundFollowed(rounds(k), before[k], batches[k], before[k + 1], counters[k], counters[k + 1]);
  }

  /** A run that has stopped is no shorter than any run over the same rounds. */
  lemma RevealedLongest(rounds: nat -> Round, start: set<string>,
                        b1: seq<set<string>>, be1: seq<set<string>>, c1: seq<nat>, e1: set<string>,
                        b2: seq<set<string>>, be2: seq<set<string>>, c2: seq<nat>)
    requires RevealedFrom(rounds, start, b1, be1, c1, e1) && Followed(rounds, start, b2, be2, c2)
    ensures |b2| <= |b1|
  {
    if |b1| < |b2| {
      FollowedAgree(rounds, start, b1, be1, c1, b2, be2, c2, |b1|);
      FollowedBelow(rounds, start, b2, be2, c2, |b1|);
      assert false;
    }
  }

  /**
   * The rounds decide the loop: two runs over the same rounds from the same
   * start that both stop have the same batches, processed sets and counters.
   */
  lemma RevealedUnique(rounds: nat -> Round, start: set<string>,
                       b1: seq<set<string>>, be1: seq<set<string>>, c1: seq<nat>, e1: set<string>,
                       b2: seq<set<string>>, be2: seq<set<string>>, c2: seq<nat>, e2: set<string>)
    requires RevealedFrom(rounds, start, b1, be1, c1, e1) && RevealedFrom(rounds, start, b2, be2, c2, e2)
    ensures b1 == b2 && be1 == be2 && c1 == c2 && e1 == e2
  {
    RevealedLongest(rounds, start, b1, be1, c1, e1, b2, be2, c2);
    RevealedLongest(rounds, start, b2, be2, c2, e2, b1, be1, c1);
    var n := |b1|;
    forall k | 0 <= k <= n ensures be1[k] == be2[k] && c1[k] == c2[k] {
      FollowedAgree(rounds, start, b1, be1, c1, b2, be2, c2, k);
    }
    FollowedAgree(rounds, start, b1, be1, c1, b2, be2, c2, n);
    assert b1 == b1[..n] && b2 == b2[..n];
  }
}
