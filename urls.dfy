/**
 * The pure URL and file-name helpers shared by both versions of the
 * harvester: the account name taken from a profile URL, the default scheme,
 * the thumbnail / original URL grammar, and the file name and collision
 * candidates derived from an image URL (`urlparse`, `os.path.basename`,
 * `os.path.splitext`, `os.path.join` on POSIX).
 */
module Urls {
  import opened Text

  /** Host and path prefix shared by thumbnails and originals. */
  const MediaMarker: string := "media.misskeyusercontent.jp/io/"
  /** The path segment that marks a low-resolution preview. */
  const ThumbnailToken: string := "thumbnail-"

  /** `"media.misskeyusercontent.jp/io/thumbnail-" in src` */
  predicate IsThumbnail(src: string)
  {
    Contains(src, MediaMarker + ThumbnailToken)
  }

  /** `"media.misskeyusercontent.jp/io/" in url and "thumbnail-" not in url` */
  predicate IsOriginal(url: string)
  {
    Contains(url, MediaMarker) && !Contains(url, ThumbnailToken)
  }

  /** No thumbnail reference is ever accepted as an original reference. */
  lemma ThumbnailIsNotOriginal(src: string)
    ensures IsThumbnail(src) ==> !IsOriginal(src)
  {
    if IsThumbnail(src) {
      ContainsParts(src, MediaMarker, ThumbnailToken);
    }
  }

  // ---------------------------------------------------------------- username

  /** A position where the pattern `@([^/]+)` matches: an `@` followed by a character other than `/`. */
  predicate HandleAt(url: string, j: int)
  {
    0 <= j && j + 1 < |url| && url[j] == '@' && url[j + 1] != '/'
  }

  /** The leftmost position at or after `from` where the pattern matches, or -1. */
  function FirstHandle(url: string, from: nat): (r: int)
    requires from <= |url|
    ensures r == -1 || (from <= r && HandleAt(url, r))
    ensures forall j :: from <= j < (if r == -1 then |url| else r) ==> !HandleAt(url, j)
    decreases |url| - from
  {
    if from == |url| then -1
    else if HandleAt(url, from) then from
    else FirstHandle(url, from + 1)
  }

  /** `os.path.basename(p)`: everything after the last `/`. */
  function Basename(p: string): (r: string)
    ensures '/' !in r
    ensures |r| <= |p| && p[|p| - |r|..] == r
    ensures |r| < |p| ==> p[|p| - |r| - 1] == '/'
  {
    p[LastIndexOf(p, '/') + 1..]
  }

  /** The group `[^/]+` captured by a match at `j`: the run of non-`/` characters after the `@`. */
  function HandleName(url: string, j: nat): (r: string)
    requires HandleAt(url, j)
    ensures '/' !in r
    ensures 1 <= |r| && j + 1 + |r| <= |url| && r == url[j + 1..j + 1 + |r|]
    ensures j + 1 + |r| == |url| || url[j + 1 + |r|] == '/'
  {
    var e := IndexOfAny(url, j + 1, {'/'});
    var r := url[j + 1..e];
    assert '/' !in r by {
      forall k | 0 <= k < |r| ensures r[k] != '/' {
        assert r[k] == url[j + 1 + k];
      }
    }
    r
  }

  /** The leftmost match is the one FirstHandle finds. */
  lemma LeftmostHandle(url: string, j: int)
    requires HandleAt(url, j) && forall i :: 0 <= i < j ==> !HandleAt(url, i)
    ensures FirstHandle(url, 0) == j
  {
  }

  /**
   * `get_username_from_url`: the text captured by the leftmost match of
   * `@([^/]+)`, or else the last path segment with every `@` removed.
   */
  function Username(url: string): (r: string)
    ensures '/' !in r
  {
    var j := FirstHandle(url, 0);
    if j >= 0 then HandleName(url, j) else RemoveChar(Basename(url), '@')
  }

  /**
   * The account name is what the regular expression captures at its
   * leftmost match, and the `@`-free last segment when nothing matches.
   */
  lemma UsernameIsLeftmostCapture(url: string)
    ensures (forall j :: 0 <= j < |url| ==> !HandleAt(url, j)) ==> Username(url) == RemoveChar(Basename(url), '@')
    ensures forall j :: HandleAt(url, j) && (forall i :: 0 <= i < j ==> !HandleAt(url, i)) ==>
              Username(url) == HandleName(url, j)
  {
    forall j | HandleAt(url, j) && (forall i :: 0 <= i < j ==> !HandleAt(url, i))
      ensures Username(url) == HandleName(url, j)
    {
      LeftmostHandle(url, j);
    }
  }

  /** The fallback account name carries neither `@` nor `/`. */
  lemma {:induction false} FallbackUsernameIsBare(url: string)
    requires forall j :: 0 <= j < |url| ==> !HandleAt(url, j)
    ensures '@' !in Username(url) && '/' !in Username(url)
  {
    assert FirstHandle(url, 0) == -1;
  }

  // ------------------------------------------------------------------ scheme

  predicate HasScheme(url: string)
  {
    StartsWith(url, "http://") || StartsWith(url, "https://")
  }

  /** Prefix `https://` unless the URL already starts with `http://` or `https://`. */
  function Normalize(url: string): (r: string)
    ensures HasScheme(r)
    ensures HasScheme(url) ==> r == url
    ensures !HasScheme(url) ==> r == "https://" + url
  {
    if HasScheme(url) then url else "https://" + url
  }

  lemma NormalizeIdempotent(url: string)
    ensures Normalize(Normalize(url)) == Normalize(url)
  {
  }

  // --------------------------------------------------------------- file name

  /**
   * `urlparse(url).path` before parameter splitting, for an http(s) URL:
   * after `scheme:` comes `//`, the network location runs to the first `/`,
   * `?` or `#`, and the path runs from there to the first `?` or `#`.
   */
  function UrlPath(url: string): (p: string)
    requires HasScheme(url)
    ensures '?' !in p && '#' !in p
    ensures p == "" || p[0] == '/'
  {
    var rest := if StartsWith(url, "https://") then url[6..] else url[5..];
    var tail := rest[IndexOfAny(rest, 2, {'/', '?', '#'})..];
    tail[..IndexOfAny(tail, 0, {'?', '#'})]
  }

  /** An http(s) scheme followed by `//`: UrlPath's first step keeps the part from `//` on. */
  lemma SchemePrefix(scheme: string, rest: string)
    requires scheme == "https:" || scheme == "http:"
    requires 2 <= |rest| && rest[0] == '/' && rest[1] == '/'
    ensures HasScheme(scheme + rest)
    ensures (if StartsWith(scheme + rest, "https://") then (scheme + rest)[6..] else (scheme + rest)[5..]) == rest
  {
    var url := scheme + rest;
    assert url[..|scheme| + 2] == scheme + "//";
    assert url[|scheme|..] == rest;
    if scheme == "http:" {
      assert url[4] == ':';
    }
  }

  /** The network location ends at the first `/`, `?` or `#` after the `//`. */
  lemma AfterHost(host: string, rest: string)
    requires '/' !in host && '?' !in host && '#' !in host
    requires rest == "" || rest[0] in {'/', '?', '#'}
    ensures IndexOfAny("//" + host + rest, 2, {'/', '?', '#'}) == 2 + |host|
    ensures ("//" + host + rest)[2 + |host|..] == rest
  {
    var all := "//" + host + rest;
    forall i | 2 <= i < 2 + |host| ensures all[i] !in {'/', '?', '#'} {
      assert all[i] == host[i - 2];
    }
    if rest != "" {
      assert all[2 + |host|] == rest[0];
    }
    IndexOfAnyIs(all, 2, {'/', '?', '#'}, 2 + |host|);
  }

  /** The path ends at the first `?` or `#`. */
  lemma BeforeQuery(path: string, tail: string)
    requires '?' !in path && '#' !in path
    requires tail == "" || tail[0] == '?' || tail[0] == '#'
    ensures (path + tail)[..IndexOfAny(path + tail, 0, {'?', '#'})] == path
  {
    var t := path + tail;
    forall i | 0 <= i < |path| ensures t[i] !in {'?', '#'} {
      assert t[i] == path[i];
    }
    if tail != "" {
      assert t[|path|] == tail[0];
    }
    IndexOfAnyIs(t, 0, {'?', '#'}, |path|);
    assert t[..|path|] == path;
  }

  /**
   * For a URL written as scheme, `//`, a network location, a path and a
   * query or fragment part, UrlPath gives back exactly the path.
   */
  lemma UrlPathOfParts(scheme: string, host: string, path: string, tail: string)
    requires scheme == "https:" || scheme == "http:"
    requires '/' !in host && '?' !in host && '#' !in host
    requires (path == "" || path[0] == '/') && '?' !in path && '#' !in path
    requires tail == "" || tail[0] == '?' || tail[0] == '#'
    ensures HasScheme(scheme + "//" + host + path + tail)
    ensures UrlPath(scheme + "//" + host + path + tail) == path
  {
    var pt := path + tail;
    var rest := "//" + host + pt;
    assert scheme + "//" + host + path + tail == scheme + rest;
    assert rest[0] == '/' && rest[1] == '/';
    SchemePrefix(scheme, rest);
    assert pt == "" || pt[0] in {'/', '?', '#'} by {
      if path != "" { assert pt[0] == path[0]; } else if tail != "" { assert pt[0] == tail[0]; }
    }
    AfterHost(host, pt);
    BeforeQuery(path, tail);
  }

  /** Cutting a path after its last `/` leaves that `/` the last one. */
  lemma LastSlashOfCut(path: string, i: nat)
    requires LastIndexOf(path, '/') < i <= |path|
    ensures LastIndexOf(path[..i], '/') == LastIndexOf(path, '/')
  {
    var from, r := LastIndexOf(path, '/'), path[..i];
    if from >= 0 {
      assert r[from] == '/';
    }
    forall k | from < k < |r| ensures r[k] != '/' {
      assert r[k] == path[k];
    }
  }

  /** ... so the base name of the cut is what follows that `/` in it. */
  lemma CutAfterLastSlash(path: string, i: nat)
    requires LastIndexOf(path, '/') < i <= |path|
    ensures Basename(path[..i]) == path[LastIndexOf(path, '/') + 1..i]
  {
    LastSlashOfCut(path, i);
    var from, r := LastIndexOf(path, '/'), path[..i];
    assert Basename(r) == r[from + 1..];
    var tail, want := r[from + 1..], path[from + 1..i];
    forall k | 0 <= k < |tail| ensures tail[k] == want[k] {
      assert r[from + 1 + k] == path[from + 1 + k];
    }
    assert tail == want;
  }

  lemma NotInSlice(s: string, a: nat, b: nat, c: char)
    requires a <= b <= |s|
    requires forall k :: a <= k < b ==> s[k] != c
    ensures c !in s[a..b]
  {
    forall k | 0 <= k < b - a ensures s[a..b][k] != c {
      assert s[a..b][k] == s[a + k];
    }
  }

  /**
   * `n` is where `_splitparams` cuts: the first `;` at or after the last `/`
   * (from the start when there is no `/`), or the end when there is none.
   */
  predicate ParamsCutAt(path: string, n: nat)
  {
    var last := LastIndexOf(path, '/');
    last <= n <= |path| &&
    (forall k :: 0 <= k < n && last <= k ==> path[k] != ';') &&
    (n == |path| || path[n] == ';')
  }

  lemma FirstParamAfterSlash(path: string, i: nat)
    requires var from := LastIndexOf(path, '/');
             i == IndexOfAny(path, if from < 0 then 0 else from, {';'})
    ensures ParamsCutAt(path, i) && LastIndexOf(path, '/') < i
  {
  }

  /** urllib's `_splitparams`: cut the path at the first `;` after its last `/`. */
  function StripParams(path: string): (r: string)
    ensures |r| <= |path| && path[..|r|] == r
    ensures ';' !in Basename(r)
    ensures ParamsCutAt(path, |r|)
  {
    var from := LastIndexOf(path, '/');
    var start := if from < 0 then 0 else from;
    var i := IndexOfAny(path, start, {';'});
    FirstParamAfterSlash(path, i);
    CutAfterLastSlash(path, i);
    NotInSlice(path, from + 1, i, ';');
    path[..i]
  }

  /** `os.path.basename(urlparse(url).path)` */
  function FileName(url: string): (f: string)
    requires HasScheme(url)
    ensures '/' !in f && ';' !in f && '?' !in f && '#' !in f
  {
    Basename(StripParams(UrlPath(url)))
  }

  /**
   * The file name of a URL whose path is a directory part, `/` and a last
   * segment free of `/`, `;`, `?` and `#` is exactly that segment.
   */
  lemma FileNameOfParts(scheme: string, host: string, dir: string, name: string, tail: string)
    requires scheme == "https:" || scheme == "http:"
    requires '/' !in host && '?' !in host && '#' !in host
    requires (dir == "" || dir[0] == '/') && '?' !in dir && '#' !in dir
    requires '/' !in name && ';' !in name && '?' !in name && '#' !in name
    requires tail == "" || tail[0] == '?' || tail[0] == '#'
    ensures HasScheme(scheme + "//" + host + dir + "/" + name + tail)
    ensures FileName(scheme + "//" + host + dir + "/" + name + tail) == name
  {
    var path := dir + "/" + name;
    assert scheme + "//" + host + dir + "/" + name + tail == scheme + "//" + host + path + tail;
    PathOfParts(dir, name);
    UrlPathOfParts(scheme, host, path, tail);
    LastSegment(dir, name);
  }

  /** A directory part, `/` and a name form a path with neither `?` nor `#`. */
  lemma PathOfParts(dir: string, name: string)
    requires (dir == "" || dir[0] == '/') && '?' !in dir && '#' !in dir
    requires '/' !in name && '?' !in name && '#' !in name
    ensures var path := dir + "/" + name; path[0] == '/' && '?' !in path && '#' !in path
  {
    var path := dir + "/" + name;
    if dir != "" {
      assert path[0] == dir[0];
    }
    forall i | 0 <= i < |path| ensures path[i] != '?' && path[i] != '#' {
      if i < |dir| {
        assert path[i] == dir[i];
      } else if i > |dir| {
        assert path[i] == name[i - |dir| - 1];
      }
    }
  }

  /** Parameter stripping and the base name leave a plain last segment as it is. */
  lemma LastSegment(dir: string, name: string)
    requires '/' !in name && ';' !in name
    ensures Basename(StripParams(dir + "/" + name)) == name
  {
    var path := dir + "/" + name;
    forall i | |dir| < i < |path| ensures path[i] != '/' && path[i] != ';' {
      assert path[i] == name[i - |dir| - 1];
    }
    LastIndexOfIs(path, '/', |dir|);
    IndexOfAnyIs(path, |dir|, {';'}, |path|);
    assert StripParams(path) == path;
    assert path[|dir| + 1..] == name;
  }

  /** A file name that, joined to a directory, names a directory rather than a file. */
  predicate NamesDirectory(filename: string)
  {
    filename == "" || filename == "." || filename == ".."
  }

  /**
   * `os.path.splitext` on a name without `/`: the extension starts at the last
   * `.`, provided some character before that dot is not a `.`.
   */
  function SplitExt(f: string): (r: (string, string))
    requires '/' !in f
    ensures r.0 + r.1 == f
    ensures r.1 == "" || (r.1[0] == '.' && '.' !in r.1[1..])
    ensures r.1 != "" ==> exists i :: 0 <= i < |r.0| && r.0[i] != '.'
    ensures r.1 == "" ==> forall i :: 0 <= i < |f| && f[i] == '.' ==> forall k :: 0 <= k < i ==> f[k] == '.'
  {
    var d := LastIndexOf(f, '.');
    if d >= 0 && exists i :: 0 <= i < d && f[i] != '.' then
      assert '.' !in f[d..][1..] by {
        forall k | 0 <= k < |f[d..][1..]| ensures f[d..][1..][k] != '.' {
          assert f[d..][1..][k] == f[d + 1 + k];
        }
      }
      (f[..d], f[d..])
    else
      (f, "")
  }

  /** `os.path.join(a, b)` on POSIX. */
  function Join(a: string, b: string): (r: string)
  {
    if |b| > 0 && b[0] == '/' then b
    else if a == "" || a[|a| - 1] == '/' then a + b
    else a + "/" + b
  }

  /** Joining the same directory to two names without a leading `/` gives equal paths only for equal names. */
  lemma JoinInjective(dir: string, a: string, b: string)
    requires (a == "" || a[0] != '/') && (b == "" || b[0] != '/')
    requires Join(dir, a) == Join(dir, b)
    ensures a == b
  {
    var pre := if dir == "" || dir[|dir| - 1] == '/' then dir else dir + "/";
    assert Join(dir, a) == pre + a && Join(dir, b) == pre + b;
    assert a == (pre + a)[|pre|..];
    assert b == (pre + b)[|pre|..];
  }

  /** The stem `name_k` plus extension tried for collision counter `k`. */
  function Suffixed(filename: string, k: nat): (r: string)
    requires '/' !in filename
    ensures |r| > |filename|
    ensures r[0] != '/'
  {
    var (name, ext) := SplitExt(filename);
    var r := name + "_" + Decimal(k) + ext;
    assert r[0] != '/' by {
      if |name| > 0 { assert r[0] == name[0] == filename[0]; }
    }
    r
  }

  /**
   * The `k`-th path tried for `filename` in `dir`: the name itself for `k = 0`,
   * `name_k` + extension afterwards.
   */
  function Candidate(dir: string, filename: string, k: nat): string
    requires '/' !in filename
  {
    if k == 0 then Join(dir, filename) else Join(dir, Suffixed(filename, k))
  }

  /** Distinct counters give distinct candidate paths. */
  lemma CandidateInjective(dir: string, filename: string, j: nat, k: nat)
    requires '/' !in filename
    requires Candidate(dir, filename, j) == Candidate(dir, filename, k)
    ensures j == k
  {
    var (name, ext) := SplitExt(filename);
    if j == 0 && k == 0 {
    } else if j == 0 || k == 0 {
      var other := if j == 0 then k else j;
      JoinInjective(dir, filename, Suffixed(filename, other));
    } else {
      var sj, sk := Suffixed(filename, j), Suffixed(filename, k);
      JoinInjective(dir, sj, sk);
      assert sj == name + "_" + Decimal(j) + ext;
      assert sk == name + "_" + Decimal(k) + ext;
      assert |Decimal(j)| == |Decimal(k)|;
      assert Decimal(j) == sj[|name| + 1..|name| + 1 + |Decimal(j)|];
      assert Decimal(k) == sk[|name| + 1..|name| + 1 + |Decimal(k)|];
      DecimalInjective(j, k);
    }
  }
}
