/**
 * The two-hop resolution of a thumbnail to its original (the retry loop of
 * src/mimgd/__main__.py, lines 195-244): middle-click the thumbnail, wait
 * for the new page, and take either its `<img>`'s `src` or the page's own
 * address when that is a valid original reference; at most two attempts.
 */
module Resolver {
  import opened Wrappers
  import opened Urls

  const MaxRetries: nat := 2

  /** What one attempt observes in the browser. */
  datatype Attempt =
    | Raised                               // the click, the new page or the wait threw
    | ImageElement(src: Option<string>)    // the new page has an `<img>`; its `src`
    | NoImageElement(pageUrl: string)      // the new page has no `<img>`; its address

  /** The original reference an attempt yields, if any. */
  function Found(a: Attempt): (r: Option<string>)
    ensures r.Some? ==> IsOriginal(r.value)
    ensures a.Raised? ==> r.None?
    ensures a.ImageElement? && a.src.Some? && IsOriginal(a.src.value) ==> r == a.src
    ensures a.ImageElement? && !(a.src.Some? && IsOriginal(a.src.value)) ==> r.None?
    ensures a.NoImageElement? ==> r == (if IsOriginal(a.pageUrl) then Some(a.pageUrl) else None)
  {
    match a
    case Raised => None
    case ImageElement(src) => if src.Some? && IsOriginal(src.value) then src else None
    case NoImageElement(u) => if IsOriginal(u) then Some(u) else None
  }

  /**
   * The original that attempts `k`, `k + 1`, ... of `thumb` yield first,
   * if any within the `MaxRetries` allowed.
   */
  function FirstFound(thumb: string, click: (string, nat) -> Attempt, k: nat): (r: Option<string>)
    requires k <= MaxRetries
    ensures r.Some? ==> IsOriginal(r.value)
    ensures r.Some? ==> exists j :: k <= j < MaxRetries && Found(click(thumb, j)) == r
    ensures r.None? ==> forall j :: k <= j < MaxRetries ==> Found(click(thumb, j)).None?
    decreases MaxRetries - k
  {
    if k == MaxRetries then None
    else if Found(click(thumb, k)).Some? then Found(click(thumb, k))
    else FirstFound(thumb, click, k + 1)
  }

  /** Attempts that find nothing do not change what is found first. */
  lemma {:induction false} FirstFoundSkips(thumb: string, click: (string, nat) -> Attempt, k: nat, j: nat)
    requires k <= j <= MaxRetries
    requires forall i :: k <= i < j ==> Found(click(thumb, i)).None?
    ensures FirstFound(thumb, click, k) == FirstFound(thumb, click, j)
    decreases j - k
  {
    if k < j {
      FirstFoundSkips(thumb, click, k + 1, j);
    }
  }

  /** The original `thumb` contributes: the first one found, or none. */
  function Resolved(thumb: string, click: (string, nat) -> Attempt): (r: seq<string>)
    ensures |r| <= 1
    ensures |r| == 1 <==> FirstFound(thumb, click, 0).Some?
    ensures |r| == 1 ==> r[0] == FirstFound(thumb, click, 0).value
  {
    match FirstFound(thumb, click, 0)
    case Some(u) => [u]
    case None => []
  }

  /**
   * Resolves `thumb`, appending what it finds to `originals`; attempt `k` on
   * `thumb` observes `click(thumb, k)`. The loop stops at the first attempt
   * that finds an original, and after `MaxRetries` attempts in any case.
   */
  method Resolve(thumb: string, click: (string, nat) -> Attempt, originals: seq<string>)
    returns (originals': seq<string>, tries: nat)
    ensures 1 <= tries <= MaxRetries
    ensures forall k :: 0 <= k < tries - 1 ==> Found(click(thumb, k)).None?
    ensures tries < MaxRetries ==> Found(click(thumb, tries - 1)).Some?
    ensures originals' == originals + (match Found(click(thumb, tries - 1))
                                       case Some(u) => [u]
                                       case None => [])
    ensures originals' == originals + Resolved(thumb, click)
    ensures |originals'| <= |originals| + 1
    ensures forall k :: |originals| <= k < |originals'| ==> IsOriginal(originals'[k])
  {
    originals', tries := originals, 0;
    var success := false;
    while tries < MaxRetries && !success
      invariant 0 <= tries <= MaxRetries
      invariant success ==> tries >= 1 && Found(click(thumb, tries - 1)).Some?
      invariant forall k :: 0 <= k < tries && !(success && k == tries - 1) ==> Found(click(thumb, k)).None?
      invariant originals' == if success then originals + [Found(click(thumb, tries - 1)).value] else originals
    {
      match click(thumb, tries) {
        case Raised =>
          // logged; a two-second back-off precedes the next attempt
        case ImageElement(src) =>
          if src.Some? && IsOriginal(src.value) {
            originals' := originals' + [src.value];
            success := true;
          }
        case NoImageElement(pageUrl) =>
          if IsOriginal(pageUrl) {
            originals' := originals' + [pageUrl];
            success := true;
          }
      }
      tries := tries + 1;
    }
    FirstFoundSkips(thumb, click, 0, tries - 1);
  }

  /** The thumbnails of `thumbs` that resolve to an original. */
  ghost function Resolvable(thumbs: set<string>, click: (string, nat) -> Attempt): set<string>
  {
    set t | t in thumbs && FirstFound(t, click, 0).Some?
  }

  lemma ResolvableWithin(thumbs: set<string>, click: (string, nat) -> Attempt)
    ensures |Resolvable(thumbs, click)| <= |thumbs|
  {
    var res := Resolvable(thumbs, click);
    assert thumbs == res + (thumbs - res) && res !! (thumbs - res);
  }

  /** The thumbnails of `thumbs` whose first find is `u`. */
  ghost function ResolvingTo(thumbs: set<string>, click: (string, nat) -> Attempt, u: string): set<string>
  {
    set t | t in thumbs && FirstFound(t, click, 0) == Some(u)
  }

  /** Each original occurs as often as there are thumbnails of `thumbs` that resolve to it. */
  ghost predicate Multiplicities(originals: seq<string>, thumbs: set<string>, click: (string, nat) -> Attempt)
  {
    forall u :: multiset(originals)[u] == |ResolvingTo(thumbs, click, u)|
  }

  lemma MultiplicitiesStep(originals: seq<string>, done: set<string>, t: string, click: (string, nat) -> Attempt)
    requires Multiplicities(originals, done, click) && t !in done
    ensures Multiplicities(originals + Resolved(t, click), done + {t}, click)
  {
    var next := originals + Resolved(t, click);
    assert multiset(next) == multiset(originals) + multiset(Resolved(t, click));
    forall u ensures multiset(next)[u] == |ResolvingTo(done + {t}, click, u)| {
      if FirstFound(t, click, 0) == Some(u) {
        assert ResolvingTo(done + {t}, click, u) == ResolvingTo(done, click, u) + {t};
        assert Resolved(t, click) == [u];
      } else {
        assert ResolvingTo(done + {t}, click, u) == ResolvingTo(done, click, u);
        assert u !in Resolved(t, click);
      }
    }
  }

  /**
   * What the resolution of a batch hands to the download: one entry per
   * resolvable thumbnail, so each original as often as thumbnails resolve to it.
   */
  ghost predicate ResolvedFrom(originals: seq<string>, thumbs: set<string>, click: (string, nat) -> Attempt)
  {
    && |originals| == |Resolvable(thumbs, click)|
    && Multiplicities(originals, thumbs, click)
    && (forall u :: u in originals ==> exists t :: t in thumbs && FirstFound(t, click, 0) == Some(u))
    && (forall t :: t in thumbs && FirstFound(t, click, 0).Some? ==> FirstFound(t, click, 0).value in originals)
  }

  lemma ResolvedAreOriginal(originals: seq<string>, thumbs: set<string>, click: (string, nat) -> Attempt)
    requires ResolvedFrom(originals, thumbs, click)
    ensures forall u :: u in originals ==> IsOriginal(u)
  {
    forall u | u in originals ensures IsOriginal(u) {
      var t :| t in thumbs && FirstFound(t, click, 0) == Some(u);
    }
  }

  /** Resolving one more thumbnail `t` keeps ResolvedFrom. */
  lemma ResolvedFromStep(originals: seq<string>, done: set<string>, t: string, click: (string, nat) -> Attempt)
    requires ResolvedFrom(originals, done, click) && t !in done
    ensures ResolvedFrom(originals + Resolved(t, click), done + {t}, click)
  {
    ResolvableStep(done, t, click);
    MultiplicitiesStep(originals, done, t, click);
    var next := originals + Resolved(t, click);
    forall u | u in next ensures exists s :: s in done + {t} && FirstFound(s, click, 0) == Some(u) {
      if u !in originals {
        assert FirstFound(t, click, 0) == Some(u);
      }
    }
    forall s | s in done + {t} && FirstFound(s, click, 0).Some? ensures FirstFound(s, click, 0).value in next {
      if s == t {
        assert next[|originals|] == FirstFound(t, click, 0).value;
      }
    }
  }

  lemma ResolvableStep(done: set<string>, t: string, click: (string, nat) -> Attempt)
    requires t !in done
    ensures |Resolvable(done + {t}, click)| == |Resolvable(done, click)| + |Resolved(t, click)|
  {
    if FirstFound(t, click, 0).Some? {
      assert Resolvable(done + {t}, click) == Resolvable(done, click) + {t};
    } else {
      assert Resolvable(done + {t}, click) == Resolvable(done, click);
    }
  }

  /** One pass of ResolveAll's loop: resolve `thumb` after the thumbnails `done`. */
  method ResolveNext(thumb: string, click: (string, nat) -> Attempt, originals: seq<string>,
                     ghost done: set<string>) returns (originals': seq<string>)
    requires ResolvedFrom(originals, done, click) && thumb !in done
    ensures ResolvedFrom(originals', done + {thumb}, click)
  {
    ResolvedFromStep(originals, done, thumb, click);
    var tries;
    originals', tries := Resolve(thumb, click, originals);
  }

  /**
   * Resolves every thumbnail of one batch (lines 193-244), in whatever order
   * the set yields them. Each thumbnail contributes at most one original,
   * the first its attempts find.
   */
  method ResolveAll(thumbs: set<string>, click: (string, nat) -> Attempt) returns (originals: seq<string>)
    ensures ResolvedFrom(originals, thumbs, click)
    ensures |originals| <= |thumbs|
    ensures forall u :: u in originals ==> IsOriginal(u)
  {
    originals := [];
    var remaining := thumbs;
    ghost var done: set<string> := {};
    assert Resolvable({}, click) == {};
    forall u ensures multiset(originals)[u] == |ResolvingTo({}, click, u)| {
      assert ResolvingTo({}, click, u) == {};
    }
    while remaining != {}
      invariant done + remaining == thumbs && done !! remaining
      invariant ResolvedFrom(originals, done, click)
      decreases remaining
    {
      var thumb :| thumb in remaining;
      originals := ResolveNext(thumb, click, originals, done);
      done, remaining := done + {thumb}, remaining - {thumb};
    }
    ResolvableWithin(thumbs, click);
    ResolvedAreOriginal(originals, thumbs, click);
  }
}
