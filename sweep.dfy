/**
 * The two passes of src/mimgd/__main__.py over the output tree: the seeding
 * of the shared digest list before any user is processed (lines 277-287),
 * and `deduplicate_images` after all users are done (lines 314-346). The
 * directory walk is not modelled: `order` is the sequence of paths
 * `os.walk` yields, every one a file of the tree.
 */
module Sweep {
  import opened Text
  import opened FileSystem

  /** `file.endswith(('.jpg', '.jpeg', '.png', '.gif', '.webp'))` */
  predicate Recognised(p: Path)
  {
    EndsWith(p, ".jpg") || EndsWith(p, ".jpeg") || EndsWith(p, ".png") || EndsWith(p, ".gif") || EndsWith(p, ".webp")
  }

  /** Every listed path is a file of the tree. */
  ghost predicate Listed(files: map<Path, Bytes>, order: seq<Path>)
  {
    forall i :: 0 <= i < |order| ==> order[i] in files
  }

  /** A listing as `os.walk` produces one: every file of the tree exactly once. */
  ghost predicate Walk(files: map<Path, Bytes>, order: seq<Path>)
  {
    && Listed(files, order)
    && (forall p :: p in files ==> p in order)
    && (forall i, j :: 0 <= i < j < |order| ==> order[i] != order[j])
  }

  // ----------------------------------------------------------------- seeding

  /** The digests of the recognised files of `order`, in listing order. */
  ghost function RecognisedDigests(files: map<Path, Bytes>, order: seq<Path>, md5: Bytes -> Digest): seq<Digest>
    requires Listed(files, order)
  {
    if order == [] then []
    else
      var last := order[|order| - 1];
      RecognisedDigests(files, order[..|order| - 1], md5) + (if Recognised(last) then [md5(files[last])] else [])
  }

  /**
   * The seeding loop (lines 277-287): the digest of every recognised file
   * appended to the list, in listing order, duplicates included.
   */
  method SeedHashes(disk: Disk, order: seq<Path>, md5: Bytes -> Digest) returns (hashes: seq<Digest>)
    requires Listed(disk.files, order)
    ensures hashes == RecognisedDigests(disk.files, order, md5)
  {
    hashes := [];
    var i := 0;
    while i < |order|
      invariant 0 <= i <= |order|
      invariant hashes == RecognisedDigests(disk.files, order[..i], md5)
    {
      var p := order[i];
      assert order[..i + 1][..i] == order[..i];
      if Recognised(p) {
        hashes := hashes + [md5(disk.files[p])];
      }
      i := i + 1;
    }
    assert order[..i] == order;
  }

  /** The seeded list holds the digest of each recognised listed file, and nothing else. */
  lemma {:induction false} RecognisedDigestsMembers(files: map<Path, Bytes>, order: seq<Path>,
                                                    md5: Bytes -> Digest, h: Digest)
    requires Listed(files, order)
    ensures h in RecognisedDigests(files, order, md5) <==>
            exists i :: 0 <= i < |order| && Recognised(order[i]) && md5(files[order[i]]) == h
    ensures |RecognisedDigests(files, order, md5)| <= |order|
  {
    if order != [] {
      var init := order[..|order| - 1];
      RecognisedDigestsMembers(files, init, md5, h);
      forall i | 0 <= i < |init| ensures init[i] == order[i] { }
    }
  }

  // ------------------------------------------------------------ deduplication

  /** Some recognised file listed before position `i` has digest `h`. */
  ghost predicate SeenBefore(files: map<Path, Bytes>, order: seq<Path>, md5: Bytes -> Digest, i: int, h: Digest)
    requires Listed(files, order) && i <= |order|
  {
    exists j :: 0 <= j < i && Recognised(order[j]) && md5(files[order[j]]) == h
  }

  /** The file at position `i` is recognised and repeats the digest of an earlier recognised file. */
  ghost predicate IsDuplicateAt(files: map<Path, Bytes>, order: seq<Path>, md5: Bytes -> Digest, i: int)
    requires Listed(files, order) && 0 <= i < |order|
  {
    Recognised(order[i]) && SeenBefore(files, order, md5, i, md5(files[order[i]]))
  }

  /** The paths `deduplicate_images` collects, in listing order. */
  ghost function DuplicatesOf(files: map<Path, Bytes>, order: seq<Path>, md5: Bytes -> Digest): seq<Path>
    requires Listed(files, order)
  {
    if order == [] then []
    else
      DuplicatesOf(files, order[..|order| - 1], md5)
      + (if IsDuplicateAt(files, order, md5, |order| - 1) then [order[|order| - 1]] else [])
  }

  /** Whether a position is a duplicate depends only on the listing up to it. */
  lemma DuplicateAtPrefix(files: map<Path, Bytes>, order: seq<Path>, md5: Bytes -> Digest, n: nat, i: nat)
    requires Listed(files, order) && i < n <= |order|
    ensures Listed(files, order[..n])
    ensures IsDuplicateAt(files, order[..n], md5, i) == IsDuplicateAt(files, order, md5, i)
  {
    var pre := order[..n];
    forall j | 0 <= j <= i ensures pre[j] == order[j] { }
    if IsDuplicateAt(files, order, md5, i) {
      var j :| 0 <= j < i && Recognised(order[j]) && md5(files[order[j]]) == md5(files[order[i]]);
      assert Recognised(pre[j]) && md5(files[pre[j]]) == md5(files[pre[i]]);
    }
  }

  /** A path is collected exactly when it is listed at a duplicate position. */
  lemma {:induction false} DuplicatesOfMembers(files: map<Path, Bytes>, order: seq<Path>, md5: Bytes -> Digest, p: Path)
    requires Listed(files, order)
    ensures p in DuplicatesOf(files, order, md5) <==>
            exists i :: 0 <= i < |order| && order[i] == p && IsDuplicateAt(files, order, md5, i)
  {
    if order != [] {
      var n := |order| - 1;
      var init := order[..n];
      DuplicatesOfMembers(files, init, md5, p);
      if p in DuplicatesOf(files, init, md5) {
        var i :| 0 <= i < |init| && init[i] == p && IsDuplicateAt(files, init, md5, i);
        DuplicateAtPrefix(files, order, md5, n, i);
      }
      if exists i :: 0 <= i < |order| && order[i] == p && IsDuplicateAt(files, order, md5, i) {
        var i :| 0 <= i < |order| && order[i] == p && IsDuplicateAt(files, order, md5, i);
        if i < n {
          DuplicateAtPrefix(files, order, md5, n, i);
          assert init[i] == p;
        }
      }
    }
  }

  /**
   * The detection loop of `deduplicate_images` (lines 317-336): `firstPath`
   * maps each digest met so far to the first recognised path that has it;
   * every later recognised path with a digest already met is collected.
   */
  method FindDuplicates(disk: Disk, order: seq<Path>, md5: Bytes -> Digest)
    returns (firstPath: map<Digest, Path>, duplicates: seq<Path>)
    requires Listed(disk.files, order)
    ensures duplicates == DuplicatesOf(disk.files, order, md5)
    ensures forall h :: h in firstPath <==> SeenBefore(disk.files, order, md5, |order|, h)
    ensures forall h :: h in firstPath ==>
              exists i :: 0 <= i < |order| && order[i] == firstPath[h] && Recognised(order[i])
                          && md5(disk.files[order[i]]) == h && !IsDuplicateAt(disk.files, order, md5, i)
  {
    firstPath, duplicates := map[], [];
    var i := 0;
    while i < |order|
      invariant 0 <= i <= |order|
      invariant duplicates == DuplicatesOf(disk.files, order[..i], md5)
      invariant forall h :: h in firstPath <==> SeenBefore(disk.files, order, md5, i, h)
      invariant forall h :: h in firstPath ==>
                  exists k :: 0 <= k < i && order[k] == firstPath[h] && Recognised(order[k])
                              && md5(disk.files[order[k]]) == h && !IsDuplicateAt(disk.files, order, md5, k)
    {
      var p := order[i];
      ghost var init := order[..i + 1][..i];
      assert init == order[..i];
      DuplicateAtPrefix(disk.files, order, md5, i + 1, i);
      if Recognised(p) {
        var fileHash := md5(disk.files[p]);
        if fileHash in firstPath {
          duplicates := duplicates + [p];
        } else {
          firstPath := firstPath[fileHash := p];
        }
      }
      i := i + 1;
    }
    assert order[..i] == order;
  }

  /** The tree once every collected path is removed. */
  ghost function Swept(files: map<Path, Bytes>, order: seq<Path>, md5: Bytes -> Digest): map<Path, Bytes>
    requires Listed(files, order)
  {
    files - Elements(DuplicatesOf(files, order, md5))
  }

  ghost function Elements(s: seq<Path>): set<Path>
  {
    set p | p in s
  }

  /**
   * `deduplicate_images` (lines 314-346): detect, then remove every
   * collected path. The source only logs `len(duplicates)`; the model
   * returns it.
   */
  method Deduplicate(disk: Disk, order: seq<Path>, md5: Bytes -> Digest) returns (removed: nat)
    requires Listed(disk.files, order)
    modifies disk
    ensures disk.files == Swept(old(disk.files), order, md5)
    ensures removed == |DuplicatesOf(old(disk.files), order, md5)|
  {
    var firstPath, duplicates := FindDuplicates(disk, order, md5);
    ghost var before := disk.files;
    var k := 0;
    while k < |duplicates|
      invariant 0 <= k <= |duplicates|
      invariant disk.files == before - Elements(duplicates[..k])
    {
      assert Elements(duplicates[..k + 1]) == Elements(duplicates[..k]) + {duplicates[k]} by {
        assert duplicates[..k + 1] == duplicates[..k] + [duplicates[k]];
      }
      disk.Remove(duplicates[k]);
      k := k + 1;
    }
    assert duplicates[..k] == duplicates;
    removed := |duplicates|;
  }

  /** The first recognised position with the digest of position `k`; it is never a duplicate. */
  lemma {:induction false} FirstWithDigest(files: map<Path, Bytes>, order: seq<Path>, md5: Bytes -> Digest, k: nat)
    returns (i: nat)
    requires Listed(files, order) && k < |order| && Recognised(order[k])
    ensures i <= k && Recognised(order[i]) && md5(files[order[i]]) == md5(files[order[k]])
    ensures !IsDuplicateAt(files, order, md5, i)
    decreases k
  {
    if IsDuplicateAt(files, order, md5, k) {
      var j :| 0 <= j < k && Recognised(order[j]) && md5(files[order[j]]) == md5(files[order[k]]);
      i := FirstWithDigest(files, order, md5, j);
    } else {
      i := k;
    }
  }

  /** A position that is not a duplicate keeps its path, when the listing names each file once. */
  lemma NotDuplicateKept(files: map<Path, Bytes>, order: seq<Path>, md5: Bytes -> Digest, i: nat)
    requires Walk(files, order) && i < |order| && !IsDuplicateAt(files, order, md5, i)
    ensures order[i] in Swept(files, order, md5)
  {
    DuplicatesOfMembers(files, order, md5, order[i]);
  }

  /** After the sweep no two remaining recognised files have the same digest. */
  lemma SweptDistinct(files: map<Path, Bytes>, order: seq<Path>, md5: Bytes -> Digest, p: Path, q: Path)
    requires Walk(files, order)
    requires p in Swept(files, order, md5) && q in Swept(files, order, md5) && p != q
    requires Recognised(p) && Recognised(q)
    ensures md5(files[p]) != md5(files[q])
  {
    var i :| 0 <= i < |order| && order[i] == p;
    var j :| 0 <= j < |order| && order[j] == q;
    DuplicatesOfMembers(files, order, md5, p);
    DuplicatesOfMembers(files, order, md5, q);
    if md5(files[p]) == md5(files[q]) {
      if i < j {
        assert IsDuplicateAt(files, order, md5, j);
      } else {
        assert IsDuplicateAt(files, order, md5, i);
      }
    }
  }

  /** Every digest of a recognised file before the sweep is still the digest of one after it. */
  lemma SweptKeepsDigests(files: map<Path, Bytes>, order: seq<Path>, md5: Bytes -> Digest, p: Path)
    requires Walk(files, order) && p in files && Recognised(p)
    ensures exists q :: q in Swept(files, order, md5) && Recognised(q) && md5(files[q]) == md5(files[p])
  {
    var k :| 0 <= k < |order| && order[k] == p;
    var i := FirstWithDigest(files, order, md5, k);
    NotDuplicateKept(files, order, md5, i);
  }

  /** The sweep removes only recognised files, and changes no file's contents. */
  lemma SweptKeepsOthers(files: map<Path, Bytes>, order: seq<Path>, md5: Bytes -> Digest, p: Path)
    requires Listed(files, order) && p in files
    ensures !Recognised(p) ==> p in Swept(files, order, md5)
    ensures p in Swept(files, order, md5) ==> Swept(files, order, md5)[p] == files[p]
  {
    DuplicatesOfMembers(files, order, md5, p);
  }
}
