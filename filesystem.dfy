/**
 * The output tree as the harvester sees it: a map from path to file
 * contents, updated in place by writes and removals. MD5 is not modelled;
 * every operation that hashes takes the digest function as a parameter.
 */
module FileSystem {

  type Bytes = seq<bv8>
  type Path = string
  /** `hashlib.md5(data).hexdigest()` */
  type Digest = string

  class Disk {
    var files: map<Path, Bytes>

    /** `open(p, "wb").write(data)` */
    method Write(p: Path, data: Bytes)
      modifies this
      ensures files == old(files)[p := data]
    {
      files := files[p := data];
    }

    /** `os.remove(p)` */
    method Remove(p: Path)
      modifies this
      ensures files == old(files) - {p}
    {
      files := files - {p};
    }
  }

  /** Every file of `before` is still in `after` with the same contents. */
  ghost predicate Extends(before: map<Path, Bytes>, after: map<Path, Bytes>)
  {
    forall p :: p in before ==> p in after && after[p] == before[p]
  }

  /** Writing a path the tree does not hold yet keeps every old file and adds one. */
  lemma ExtendsWrite(f0: map<Path, Bytes>, f1: map<Path, Bytes>, p: Path, data: Bytes)
    requires Extends(f0, f1) && p !in f1
    ensures Extends(f0, f1[p := data])
    ensures f1[p := data].Keys == f1.Keys + {p}
    ensures |f1[p := data].Keys| == |f1.Keys| + 1
  {
  }
}
