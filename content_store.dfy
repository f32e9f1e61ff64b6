/**
 * The save decision of `download_single_image` (src/mimgd/__main__.py):
 * reject a blob whose digest is already known, otherwise walk the candidate
 * paths `filename`, `name_1ext`, `name_2ext`, ... rejecting the blob if an
 * existing candidate has the same digest and writing it to the first
 * candidate that does not exist.
 */
module ContentStore {
  import opened Wrappers
  import opened Urls
  import opened FileSystem

  /** The candidates `0 .. count-1` of `filename` in `dir`. */
  ghost function Tried(dir: Path, filename: string, count: nat): set<Path>
    requires '/' !in filename
  {
    set j | 0 <= j < count :: Candidate(dir, filename, j)
  }

  lemma NotYetTried(dir: Path, filename: string, count: nat)
    requires '/' !in filename
    ensures Candidate(dir, filename, count) !in Tried(dir, filename, count)
  {
    if Candidate(dir, filename, count) in Tried(dir, filename, count) {
      var j :| 0 <= j < count && Candidate(dir, filename, j) == Candidate(dir, filename, count);
      CandidateInjective(dir, filename, j, count);
    }
  }

  /** The next candidate is new, and trying it adds exactly it. */
  lemma TriedNext(dir: Path, filename: string, count: nat)
    requires '/' !in filename
    ensures Candidate(dir, filename, count) !in Tried(dir, filename, count)
    ensures Tried(dir, filename, count + 1) == Tried(dir, filename, count) + {Candidate(dir, filename, count)}
  {
    NotYetTried(dir, filename, count);
  }

  /**
   * The collision search (lines 52-74). `index` is the last candidate
   * examined: every earlier one exists with other contents, and the
   * candidate at `index` is either absent (and returned) or holds equal
   * contents (and the blob is rejected).
   */
  method FindSlot(disk: Disk, dir: Path, filename: string, h: Digest, md5: Bytes -> Digest)
    returns (slot: Option<Path>, index: nat)
    requires '/' !in filename
    ensures forall j :: 0 <= j < index ==> HoldsOther(disk.files, dir, filename, j, h, md5)
    ensures slot.Some? ==> slot.value == Candidate(dir, filename, index) && slot.value !in disk.files
    ensures slot.None? ==>
              Candidate(dir, filename, index) in disk.files && md5(disk.files[Candidate(dir, filename, index)]) == h
  {
    var savePath := Join(dir, filename);
    if savePath in disk.files {
      if md5(disk.files[savePath]) == h {
        return None, 0;
      }
      var counter := 1;
      var (name, ext) := SplitExt(filename);
      while savePath in disk.files
        invariant savePath == Candidate(dir, filename, 0)
        invariant 1 <= counter
        invariant forall j :: 0 <= j < counter ==> HoldsOther(disk.files, dir, filename, j, h, md5)
        decreases disk.files.Keys - Tried(dir, filename, counter)
      {
        var newPath := Join(dir, name + "_" + Text.Decimal(counter) + ext);
        assert newPath == Candidate(dir, filename, counter);
        if newPath in disk.files {
          if md5(disk.files[newPath]) == h {
            return None, counter;
          }
          TriedNext(dir, filename, counter);
          counter := counter + 1;
        } else {
          savePath := newPath;
          break;
        }
      }
      return Some(savePath), counter;
    }
    return Some(savePath), 0;
  }

  /**
   * What one call of `download_single_image` does to the tree `f0`, leaving
   * `f1` and returning `r`; `index` is the last collision candidate examined.
   * A failed request, a known digest or a name that denotes a directory
   * change nothing. Otherwise every candidate before `index` holds other
   * contents, and the candidate at `index` either holds equal contents (the
   * blob is dropped) or is absent (the blob is written there and its digest
   * returned).
   */
  /** Candidate `j` exists and holds contents whose digest is not `h`. */
  ghost predicate HoldsOther(f0: map<Path, Bytes>, userDir: Path, fn: string, j: nat, h: Digest, md5: Bytes -> Digest)
    requires '/' !in fn
  {
    Candidate(userDir, fn, j) in f0 && md5(f0[Candidate(userDir, fn, j)]) != h
  }

  ghost predicate SaveOutcome(f0: map<Path, Bytes>, f1: map<Path, Bytes>, url: string, userDir: Path,
                              response: Option<Bytes>, known: seq<Digest>, r: Option<Digest>,
                              index: nat, md5: Bytes -> Digest)
  {
    var fn := FileName(Normalize(url));
    if response.None? || md5(response.value) in known || NamesDirectory(fn) then
      r.None? && f1 == f0
    else
      var h := md5(response.value);
      var c := Candidate(userDir, fn, index);
      && (forall j :: 0 <= j < index ==> HoldsOther(f0, userDir, fn, j, h, md5))
      && if c in f0 then md5(f0[c]) == h && r.None? && f1 == f0
         else r == Some(h) && f1 == f0[c := response.value]
  }

  /**
   * A body with an unlisted digest, for a URL whose file name is a plain
   * name still free in the user directory, is written under that name.
   */
  lemma SaveToFreeName(f0: map<Path, Bytes>, f1: map<Path, Bytes>, url: string, userDir: Path, body: Bytes,
                       known: seq<Digest>, r: Option<Digest>, index: nat, md5: Bytes -> Digest)
    requires SaveOutcome(f0, f1, url, userDir, Some(body), known, r, index, md5)
    requires md5(body) !in known && !NamesDirectory(FileName(Normalize(url)))
    requires Candidate(userDir, FileName(Normalize(url)), 0) !in f0
    ensures index == 0 && r == Some(md5(body))
    ensures f1 == f0[Candidate(userDir, FileName(Normalize(url)), 0) := body]
  {
    var fn := FileName(Normalize(url));
    assert 0 < index ==> HoldsOther(f0, userDir, fn, 0, md5(body), md5);
  }

  /**
   * `download_single_image` once the response is in: `response` is the body
   * of a status-200 reply, or None when the request failed or the status
   * was not 200; `known` is the shared digest list as it stood when the
   * download started. Returns the digest of a blob it wrote, or None.
   */
  method Save(disk: Disk, url: string, userDir: Path, response: Option<Bytes>,
              known: seq<Digest>, md5: Bytes -> Digest)
    returns (r: Option<Digest>, ghost path: Path, ghost index: nat)
    modifies disk
    ensures r.None? ==> disk.files == old(disk.files)
    ensures response.None? ==> r.None?
    ensures response.Some? && md5(response.value) in known ==> r.None?
    ensures response.Some? && NamesDirectory(FileName(Normalize(url))) ==> r.None?
    ensures r.Some? ==>
              && response.Some? && r.value == md5(response.value) && r.value !in known
              && path !in old(disk.files)
              && disk.files == old(disk.files)[path := response.value]
              && path == Candidate(userDir, FileName(Normalize(url)), index)
              && forall j :: 0 <= j < index ==> HoldsOther(old(disk.files), userDir, FileName(Normalize(url)), j, r.value, md5)
    ensures SaveOutcome(old(disk.files), disk.files, url, userDir, response, known, r, index, md5)
  {
    path, index := "", 0;
    var imgUrl := Normalize(url);
    if response.None? {
      return None, path, index;
    }
    var data := response.value;
    var imgHash := md5(data);
    if imgHash in known {
      return None, path, index;
    }
    var filename := FileName(imgUrl);
    if NamesDirectory(filename) {
      // The joined path is the user directory (or its parent); it exists, and
      // opening it for reading raises, which the handler turns into None.
      return None, path, index;
    }
    var slot;
    slot, index := FindSlot(disk, userDir, filename, imgHash, md5);
    if slot.None? {
      return None, path, index;
    }
    var savePath := slot.value;
    disk.Write(savePath, data);
    path := savePath;
    r := Some(imgHash);
  }
}
