/**
 * The directory walker: it lists a directory, collects the ".svg" entries
 * with the chain of names that will become their identifiers, and then
 * descends into the subdirectories when asked to.
 *
 * The filesystem is a finite tree. Reading a directory, testing whether an
 * entry is a directory and obtaining a listing entry are lookups in it.
 */
module Walker {
  import opened Wrappers
  import opened FileNames

  /** A filesystem path, as the names of its components. */
  type Path = seq<string>

  /**
   * What a path resolves to.
   * - `Dir`: a directory; `utf8` says whether its name converts to a string
   *   without loss, `readable` whether listing it succeeds.
   * - `File`: anything that is not a directory.
   * - `BadEntry`: a listing entry that could not be obtained; as a root, a
   *   path where nothing can be found.
   */
  datatype FsNode =
    | Dir(name: string, utf8: bool, readable: bool, entries: seq<FsNode>)
    | File(name: string)
    | BadEntry

  /** One collected file: the names its identifier is built from, and its location. */
  datatype SvgFile = SvgFile(treeNames: seq<string>, systemPath: Path)

  /** Why a walk stopped: the path is not a directory, or it could not be listed. */
  datatype WalkError = NotADirectory(path: Path) | ReadDirFailed(path: Path)

  /**
   * The effect of a walk: what it appended to the caller's list (also when it
   * stopped early) and the error it stopped with, if any.
   */
  datatype WalkOutcome = WalkOutcome(pushed: seq<SvgFile>, error: Option<WalkError>)

  /** The identifier names of a file entry: the ancestors, then the stem when there is one. */
  function StemmedNames(treeNames: seq<string>, name: string): seq<string>
  {
    match Stem(name)
    case Some(stem) => treeNames + [stem]
    case None => treeNames
  }

  /** The identifier names below a subdirectory: its name is added only when it is valid UTF-8. */
  function DirNames(treeNames: seq<string>, dir: FsNode): seq<string>
    requires dir.Dir?
  {
    if dir.utf8 then treeNames + [dir.name] else treeNames
  }

  /**
   * What the listing pass appends for one entry. A directory is set aside
   * only in recursive mode; otherwise it is judged by its extension like a file.
   */
  function ListedFile(item: FsNode, path: Path, treeNames: seq<string>, recursive: bool): seq<SvgFile>
  {
    if item.BadEntry? then []
    else if recursive && item.Dir? then []
    else match Extension(item.name)
      case Some(ext) =>
        if ext == "svg" then [SvgFile(StemmedNames(treeNames, item.name), path + [item.name])] else []
      case None => []
  }

  /** What the listing pass appends for a whole listing, in listing order. */
  function Listed(entries: seq<FsNode>, path: Path, treeNames: seq<string>, recursive: bool): seq<SvgFile>
  {
    if entries == [] then []
    else
      var last := |entries| - 1;
      Listed(entries[..last], path, treeNames, recursive) + ListedFile(entries[last], path, treeNames, recursive)
  }

  /** The directory entries of a listing, in listing order. */
  function SubDirs(entries: seq<FsNode>): seq<FsNode>
  {
    if entries == [] then []
    else
      var last := |entries| - 1;
      SubDirs(entries[..last]) + (if entries[last].Dir? then [entries[last]] else [])
  }

  /** Each subdirectory is a directory entry of the listing. */
  lemma {:induction false} SubDirAt(entries: seq<FsNode>, k: nat)
    requires k < |SubDirs(entries)|
    ensures SubDirs(entries)[k] in entries && SubDirs(entries)[k].Dir?
  {
    var last := |entries| - 1;
    if k < |SubDirs(entries[..last])| {
      SubDirAt(entries[..last], k);
      assert entries[..last] <= entries;
    }
  }

  /**
   * The walk of `node`, found at `path`, with ancestor names `treeNames`:
   * first every entry of the listing, then, in recursive mode, each
   * subdirectory in listing order, stopping at the first error.
   */
  function Walked(node: FsNode, path: Path, treeNames: seq<string>, recursive: bool): WalkOutcome
    decreases node, 1
  {
    if !node.Dir? then WalkOutcome([], Some(NotADirectory(path)))
    else if !node.readable then WalkOutcome([], Some(ReadDirFailed(path)))
    else
      var files := Listed(node.entries, path, treeNames, recursive);
      if recursive then
        var sub := Descended(node, |SubDirs(node.entries)|, path, treeNames, recursive);
        WalkOutcome(files + sub.pushed, sub.error)
      else WalkOutcome(files, None)
  }

  /**
   * The walks of the first `k` subdirectories of `node`, one after another,
   * each below its own path and names; after an error nothing more is walked.
   */
  function Descended(node: FsNode, k: nat, path: Path, treeNames: seq<string>, recursive: bool): WalkOutcome
    requires node.Dir? && k <= |SubDirs(node.entries)|
    decreases node, 0, k
  {
    if k == 0 then WalkOutcome([], None)
    else
      var before := Descended(node, k - 1, path, treeNames, recursive);
      if before.error.Some? then before
      else
        var dir := SubDirs(node.entries)[k - 1];
        SubDirAt(node.entries, k - 1);
        var walked := Walked(dir, path + [dir.name], DirNames(treeNames, dir), recursive);
        WalkOutcome(before.pushed + walked.pushed, walked.error)
  }

  /** One more subdirectory walk, after walks that all succeeded. */
  lemma DescendedStep(node: FsNode, j: nat, path: Path, treeNames: seq<string>, recursive: bool)
    requires node.Dir? && j < |SubDirs(node.entries)|
    requires Descended(node, j, path, treeNames, recursive).error.None?
    ensures var dir := SubDirs(node.entries)[j];
            && dir in node.entries && dir.Dir?
            && var done := Descended(node, j, path, treeNames, recursive).pushed;
               var walked := Walked(dir, path + [dir.name], DirNames(treeNames, dir), recursive);
               && Descended(node, j + 1, path, treeNames, recursive) == WalkOutcome(done + walked.pushed, walked.error)
               && forall svgs: seq<SvgFile> :: (svgs + done) + walked.pushed == svgs + (done + walked.pushed)
  {
    SubDirAt(node.entries, j);
  }

  /** Once a subdirectory's walk has failed, the later ones add nothing. */
  lemma {:induction false} DescendedStops(node: FsNode, j: nat, k: nat, path: Path, treeNames: seq<string>, recursive: bool)
    requires node.Dir? && j <= k <= |SubDirs(node.entries)|
    requires Descended(node, j, path, treeNames, recursive).error.Some?
    ensures Descended(node, k, path, treeNames, recursive) == Descended(node, j, path, treeNames, recursive)
    decreases k
  {
    if j < k {
      DescendedStops(node, j, k - 1, path, treeNames, recursive);
    }
  }

  /** One step of the listing pass over `entries[..i]`. */
  lemma ListingStep(entries: seq<FsNode>, i: nat, path: Path, treeNames: seq<string>, recursive: bool)
    requires i < |entries|
    ensures Listed(entries[..i + 1], path, treeNames, recursive)
         == Listed(entries[..i], path, treeNames, recursive) + ListedFile(entries[i], path, treeNames, recursive)
    ensures SubDirs(entries[..i + 1])
         == SubDirs(entries[..i]) + (if entries[i].Dir? then [entries[i]] else [])
    ensures forall svgs: seq<SvgFile> ::
              (svgs + Listed(entries[..i], path, treeNames, recursive)) + ListedFile(entries[i], path, treeNames, recursive)
              == svgs + Listed(entries[..i + 1], path, treeNames, recursive)
  {
    assert entries[..i + 1][..i] == entries[..i];
  }

  /**
   * The closure applied to each listing entry: a subdirectory is set aside
   * in recursive mode; anything else whose extension is exactly "svg" is
   * appended with its identifier names and its path.
   */
  method Visit(item: FsNode, path: Path, treeNames: seq<string>, recursive: bool, svgs: seq<SvgFile>, dirs: seq<FsNode>)
    returns (svgs': seq<SvgFile>, dirs': seq<FsNode>)
    ensures svgs' == svgs + ListedFile(item, path, treeNames, recursive)
    ensures dirs' == dirs + (if recursive && item.Dir? then [item] else [])
  {
    svgs', dirs' := svgs, dirs;
    if item.BadEntry? {
      // dropped by the listing itself
    } else if recursive && item.Dir? {
      dirs' := dirs + [item];
    } else if Extension(item.name).Some? {
      if Extension(item.name).value == "svg" {
        var names := treeNames;
        match Stem(item.name) {
          case Some(stem) => names := names + [stem];
          case None =>
        }
        svgs' := svgs + [SvgFile(names, path + [item.name])];
      }
    }
  }

  /**
   * The listing pass of `walk`: appends the ".svg" entries of `entries` to
   * `svgs` and, in recursive mode, sets the subdirectories aside, both in
   * listing order.
   */
  method ListDir(entries: seq<FsNode>, path: Path, svgs: seq<SvgFile>, treeNames: seq<string>, recursive: bool)
    returns (out: seq<SvgFile>, dirs: seq<FsNode>)
    ensures out == svgs + Listed(entries, path, treeNames, recursive)
    ensures dirs == if recursive then SubDirs(entries) else []
  {
    dirs := [];
    out := svgs;
    var i := 0;
    while i < |entries|
      invariant i <= |entries|
      invariant out == svgs + Listed(entries[..i], path, treeNames, recursive)
      invariant dirs == if recursive then SubDirs(entries[..i]) else []
    {
      ListingStep(entries, i, path, treeNames, recursive);
      out, dirs := Visit(entries[i], path, treeNames, recursive, out, dirs);
      i := i + 1;
    }
    assert entries[..i] == entries;
  }

  /**
   * `walk`: appends to `svgs` the files collected under `node` and returns
   * the list with the error the walk stopped at. A path that is not a
   * directory appends nothing and is reported.
   */
  method Walk(node: FsNode, path: Path, svgs: seq<SvgFile>, treeNames: seq<string>, recursive: bool)
    returns (out: seq<SvgFile>, err: Option<WalkError>)
    ensures out == svgs + Walked(node, path, treeNames, recursive).pushed
    ensures err == Walked(node, path, treeNames, recursive).error
    decreases node, 1
  {
    if !node.Dir? {
      return svgs, Some(NotADirectory(path));
    }
    if !node.readable {
      return svgs, Some(ReadDirFailed(path));
    }
    out, err := WalkListing(node, path, svgs, treeNames, recursive);
  }

  /** `walk` past its two checks: the listing pass, then in recursive mode the descent. */
  method WalkListing(node: FsNode, path: Path, svgs: seq<SvgFile>, treeNames: seq<string>, recursive: bool)
    returns (out: seq<SvgFile>, err: Option<WalkError>)
    requires node.Dir? && node.readable
    ensures out == svgs + Walked(node, path, treeNames, recursive).pushed
    ensures err == Walked(node, path, treeNames, recursive).error
    decreases node, 0, 1
  {
    var dirs;
    out, dirs := ListDir(node.entries, path, svgs, treeNames, recursive);
    if recursive {
      WalkedRecursive(node, path, treeNames);
      out, err := WalkSubdirs(node, dirs, path, out, treeNames, recursive);
    } else {
      err := None;
    }
  }

  /** The outcome of a recursive walk of a readable directory, split into its listing pass and its descent. */
  lemma WalkedRecursive(node: FsNode, path: Path, treeNames: seq<string>)
    requires node.Dir? && node.readable
    ensures var files := Listed(node.entries, path, treeNames, true);
            var sub := Descended(node, |SubDirs(node.entries)|, path, treeNames, true);
            && Walked(node, path, treeNames, true) == WalkOutcome(files + sub.pushed, sub.error)
            && forall svgs: seq<SvgFile> :: (svgs + files) + sub.pushed == svgs + (files + sub.pushed)
  {
  }

  /**
   * The descent of `walk`: each subdirectory of `node`, in listing order, is
   * walked below its own path with its name added to the identifier names;
   * the first error ends the descent and is passed on.
   */
  method WalkSubdirs(node: FsNode, dirs: seq<FsNode>, path: Path, svgs: seq<SvgFile>, treeNames: seq<string>, recursive: bool)
    returns (out: seq<SvgFile>, err: Option<WalkError>)
    requires node.Dir? && dirs == SubDirs(node.entries)
    ensures out == svgs + Descended(node, |dirs|, path, treeNames, recursive).pushed
    ensures err == Descended(node, |dirs|, path, treeNames, recursive).error
    decreases node, 0, 0
  {
    out, err := svgs, None;
    var j := 0;
    while j < |dirs| && err.None?
      invariant j <= |dirs|
      invariant out == svgs + Descended(node, j, path, treeNames, recursive).pushed
      invariant err == Descended(node, j, path, treeNames, recursive).error
    {
      var dir := dirs[j];
      DescendedStep(node, j, path, treeNames, recursive);
      out, err := Walk(dir, path + [dir.name], out, DirNames(treeNames, dir), recursive);
      j := j + 1;
    }
    if err.Some? {
      DescendedStops(node, j, |dirs|, path, treeNames, recursive);
    }
  }
}

/** What the walker promises about the list it builds. */
module WalkerProperties {
  import opened Wrappers
  import opened FileNames
  import opened Walker

  /**
   * Reference definition of a directly collected entry: a listing entry that
   * was obtained, is not a subdirectory being descended into, and is named
   * "<stem>.svg" with a non-empty stem, gives the file with the ancestor names
   * followed by that stem, at the directory's path followed by its name.
   */
  ghost predicate DirectFile(e: FsNode, path: Path, treeNames: seq<string>, recursive: bool, f: SvgFile)
  {
    && !e.BadEntry?
    && !(recursive && e.Dir?)
    && HasSvgSuffix(e.name)
    && f == SvgFile(treeNames + [e.name[..|e.name| - 4]], path + [e.name])
  }

  /**
   * Reference definition of the files under a directory: its direct files,
   * and in recursive mode the files found under each subdirectory, with the
   * subdirectory's path and names.
   */
  ghost predicate Found(node: FsNode, path: Path, treeNames: seq<string>, recursive: bool, f: SvgFile)
    decreases node, 0
  {
    && node.Dir?
    && (|| HasDirect(node.entries, path, treeNames, recursive, f)
        || (recursive && exists i :: 0 <= i < |node.entries| && FoundIn(node.entries[i], path, treeNames, recursive, f)))
  }

  /** `d` is a subdirectory and the reference finds `f` under it, with the subdirectory's path and names. */
  ghost predicate FoundIn(d: FsNode, path: Path, treeNames: seq<string>, recursive: bool, f: SvgFile)
    decreases d, 1
  {
    d.Dir? && Found(d, path + [d.name], DirNames(treeNames, d), recursive, f)
  }

  /** Some entry of the listing directly gives `f`. */
  ghost predicate HasDirect(entries: seq<FsNode>, path: Path, treeNames: seq<string>, recursive: bool, f: SvgFile)
  {
    exists i :: 0 <= i < |entries| && DirectFile(entries[i], path, treeNames, recursive, f)
  }

  /** `f` lies below `path`: its location extends `path`, its names extend `treeNames`, and its last name is its stem. */
  ghost predicate Below(f: SvgFile, path: Path, treeNames: seq<string>)
  {
    && |f.systemPath| > |path| && f.systemPath[..|path|] == path
    && |f.treeNames| > |treeNames| && f.treeNames[..|treeNames|] == treeNames
    && var name := f.systemPath[|f.systemPath| - 1];
       HasSvgSuffix(name) && f.treeNames[|f.treeNames| - 1] == name[..|name| - 4]
  }

  /** The entry's contribution to the listing pass is exactly its direct file, if it has one. */
  lemma ListedFileIff(e: FsNode, path: Path, treeNames: seq<string>, recursive: bool, f: SvgFile)
    ensures f in ListedFile(e, path, treeNames, recursive) <==> DirectFile(e, path, treeNames, recursive, f)
  {
    if !e.BadEntry? {
      SvgExtensionIff(e.name);
    }
  }

  /** A listing has a direct file `f` exactly when its prefix has, or its last entry gives it. */
  lemma HasDirectStep(entries: seq<FsNode>, path: Path, treeNames: seq<string>, recursive: bool, f: SvgFile)
    requires entries != []
    ensures HasDirect(entries, path, treeNames, recursive, f)
        <==> || HasDirect(entries[..|entries| - 1], path, treeNames, recursive, f)
             || DirectFile(entries[|entries| - 1], path, treeNames, recursive, f)
  {
    var last := |entries| - 1;
    if HasDirect(entries, path, treeNames, recursive, f) {
      var i :| 0 <= i < |entries| && DirectFile(entries[i], path, treeNames, recursive, f);
      if i < last {
        assert entries[..last][i] == entries[i];
      }
    }
    if HasDirect(entries[..last], path, treeNames, recursive, f) {
      var i :| 0 <= i < last && DirectFile(entries[..last][i], path, treeNames, recursive, f);
      assert entries[i] == entries[..last][i];
    }
  }

  /** The listing pass collects exactly the direct files of the listing. */
  lemma {:induction false} ListedIff(entries: seq<FsNode>, path: Path, treeNames: seq<string>, recursive: bool, f: SvgFile)
    ensures f in Listed(entries, path, treeNames, recursive) <==> HasDirect(entries, path, treeNames, recursive, f)
  {
    if entries != [] {
      var last := |entries| - 1;
      ListedIff(entries[..last], path, treeNames, recursive, f);
      ListedFileIff(entries[last], path, treeNames, recursive, f);
      HasDirectStep(entries, path, treeNames, recursive, f);
    }
  }

  /** Every directory entry of a listing is one of its subdirectories. */
  lemma {:induction false} SubDirsComplete(entries: seq<FsNode>, i: nat)
    requires i < |entries| && entries[i].Dir?
    ensures exists j :: 0 <= j < |SubDirs(entries)| && SubDirs(entries)[j] == entries[i]
  {
    var last := |entries| - 1;
    if i == last {
      assert SubDirs(entries)[|SubDirs(entries)| - 1] == entries[i];
    } else {
      SubDirsComplete(entries[..last], i);
      var j :| 0 <= j < |SubDirs(entries[..last])| && SubDirs(entries[..last])[j] == entries[..last][i];
      assert SubDirs(entries)[j] == entries[i];
    }
  }

  /** The reference finds `f` under one of the subdirectories exactly when it finds it under one of the first `k` of them, for `k` all of them. */
  lemma SubDirsFound(entries: seq<FsNode>, path: Path, treeNames: seq<string>, recursive: bool, f: SvgFile)
    ensures (exists i :: 0 <= i < |entries| && FoundIn(entries[i], path, treeNames, recursive, f))
        <==> (exists j :: 0 <= j < |SubDirs(entries)| && FoundIn(SubDirs(entries)[j], path, treeNames, recursive, f))
  {
    if exists i :: 0 <= i < |entries| && FoundIn(entries[i], path, treeNames, recursive, f) {
      var i :| 0 <= i < |entries| && FoundIn(entries[i], path, treeNames, recursive, f);
      SubDirsComplete(entries, i);
    }
    if exists j :: 0 <= j < |SubDirs(entries)| && FoundIn(SubDirs(entries)[j], path, treeNames, recursive, f) {
      var j :| 0 <= j < |SubDirs(entries)| && FoundIn(SubDirs(entries)[j], path, treeNames, recursive, f);
      SubDirAt(entries, j);
      var i :| 0 <= i < |entries| && entries[i] == SubDirs(entries)[j];
    }
  }

  /**
   * A walk that ends without error appends exactly the files the reference
   * definition finds: nothing is missed, nothing is added.
   */
  lemma {:induction false} WalkedFound(node: FsNode, path: Path, treeNames: seq<string>, recursive: bool, f: SvgFile)
    requires Walked(node, path, treeNames, recursive).error.None?
    ensures f in Walked(node, path, treeNames, recursive).pushed <==> Found(node, path, treeNames, recursive, f)
    decreases node, 1
  {
    ListedIff(node.entries, path, treeNames, recursive, f);
    if recursive {
      DescendedFound(node, |SubDirs(node.entries)|, path, treeNames, recursive, f);
      SubDirsFound(node.entries, path, treeNames, recursive, f);
    }
  }

  /** The first `k` subdirectory walks, when none failed, append exactly what the reference finds below those subdirectories. */
  lemma {:induction false} DescendedFound(node: FsNode, k: nat, path: Path, treeNames: seq<string>, recursive: bool, f: SvgFile)
    requires node.Dir? && k <= |SubDirs(node.entries)|
    requires Descended(node, k, path, treeNames, recursive).error.None?
    ensures f in Descended(node, k, path, treeNames, recursive).pushed
        <==> exists j :: 0 <= j < k && FoundIn(SubDirs(node.entries)[j], path, treeNames, recursive, f)
    decreases node, 0, k
  {
    if k > 0 {
      var d := SubDirs(node.entries)[k - 1];
      SubDirAt(node.entries, k - 1);
      DescendedFound(node, k - 1, path, treeNames, recursive, f);
      WalkedFound(d, path + [d.name], DirNames(treeNames, d), recursive, f);
      if exists j :: 0 <= j < k && FoundIn(SubDirs(node.entries)[j], path, treeNames, recursive, f) {
        var j :| 0 <= j < k && FoundIn(SubDirs(node.entries)[j], path, treeNames, recursive, f);
        assert j < k - 1 || FoundIn(d, path, treeNames, recursive, f);
      }
    }
  }

  /** Everything a walk appends, even one that stops at an error, lies below the walked path and its names. */
  lemma {:induction false} PushedBelow(node: FsNode, path: Path, treeNames: seq<string>, recursive: bool)
    ensures forall f :: f in Walked(node, path, treeNames, recursive).pushed ==> Below(f, path, treeNames)
    decreases node, 1
  {
    if node.Dir? && node.readable {
      forall f | f in Listed(node.entries, path, treeNames, recursive)
        ensures Below(f, path, treeNames) && |f.systemPath| == |path| + 1
      {
        ListedIff(node.entries, path, treeNames, recursive, f);
        assert (path + [f.systemPath[|path|]])[..|path|] == path;
      }
      if recursive {
        DescendedBelow(node, |SubDirs(node.entries)|, path, treeNames, recursive);
      }
    }
  }

  /** What the subdirectory walks append lies at least two levels below the walked path. */
  lemma {:induction false} DescendedBelow(node: FsNode, k: nat, path: Path, treeNames: seq<string>, recursive: bool)
    requires node.Dir? && k <= |SubDirs(node.entries)|
    ensures forall f :: f in Descended(node, k, path, treeNames, recursive).pushed ==>
              Below(f, path, treeNames) && |f.systemPath| > |path| + 1
    decreases node, 0, k
  {
    if k > 0 {
      DescendedBelow(node, k - 1, path, treeNames, recursive);
      var d := SubDirs(node.entries)[k - 1];
      SubDirAt(node.entries, k - 1);
      var dpath, dnames := path + [d.name], DirNames(treeNames, d);
      PushedBelow(d, dpath, dnames, recursive);
      forall f | f in Walked(d, dpath, dnames, recursive).pushed
        ensures Below(f, path, treeNames) && |f.systemPath| > |path| + 1
      {
        assert f.systemPath[..|path|] == f.systemPath[..|dpath|][..|path|];
        assert f.treeNames[..|treeNames|] == f.treeNames[..|dnames|][..|treeNames|];
      }
    }
  }

  /** The obtained entries of a listing have pairwise distinct names. */
  ghost predicate UniqueNames(entries: seq<FsNode>)
  {
    forall i, j :: 0 <= i < j < |entries| && !entries[i].BadEntry? && !entries[j].BadEntry? ==>
      entries[i].name != entries[j].name
  }

  /** Every listing in the tree below `node` has pairwise distinct names, as a real directory has. */
  ghost predicate DistinctNames(node: FsNode)
  {
    node.Dir? ==>
      && UniqueNames(node.entries)
      && forall i :: 0 <= i < |node.entries| ==> DistinctNames(node.entries[i])
  }

  /** No two collected files share a location. */
  ghost predicate DistinctPaths(s: seq<SvgFile>)
  {
    forall k, l :: 0 <= k < l < |s| ==> s[k].systemPath != s[l].systemPath
  }

  /** Two lists of distinct locations, with no location in both, make one such list. */
  lemma DistinctAppend(a: seq<SvgFile>, b: seq<SvgFile>)
    requires DistinctPaths(a) && DistinctPaths(b)
    requires forall f, g :: f in a && g in b ==> f.systemPath != g.systemPath
    ensures DistinctPaths(a + b)
  {
    forall k, l | 0 <= k < l < |a + b|
      ensures (a + b)[k].systemPath != (a + b)[l].systemPath
    {
      if k < |a| && l >= |a| {
        assert (a + b)[k] in a && (a + b)[l] in b;
      }
    }
  }

  /** A file whose location is unique in `s` occurs in `s` at most once. */
  lemma {:induction false} DistinctOnce(s: seq<SvgFile>, f: SvgFile)
    requires DistinctPaths(s)
    ensures multiset(s)[f] == if f in s then 1 else 0
  {
    if s != [] {
      var last := |s| - 1;
      assert s == s[..last] + [s[last]];
      DistinctOnce(s[..last], f);
      if s[last] == f {
        assert f !in s[..last];
      }
    }
  }

  /** The listing pass over a listing with distinct names collects files at distinct locations. */
  lemma {:induction false} ListedDistinct(entries: seq<FsNode>, path: Path, treeNames: seq<string>, recursive: bool)
    requires UniqueNames(entries)
    ensures DistinctPaths(Listed(entries, path, treeNames, recursive))
  {
    if entries != [] {
      var last := |entries| - 1;
      var prefix := entries[..last];
      ListedDistinct(prefix, path, treeNames, recursive);
      forall f, g | f in Listed(prefix, path, treeNames, recursive) && g in ListedFile(entries[last], path, treeNames, recursive)
        ensures f.systemPath != g.systemPath
      {
        ListedIff(prefix, path, treeNames, recursive, f);
        ListedFileIff(entries[last], path, treeNames, recursive, g);
        var i :| 0 <= i < last && DirectFile(prefix[i], path, treeNames, recursive, f);
        assert prefix[i] == entries[i];
        assert f.systemPath[|path|] == entries[i].name;
        assert g.systemPath[|path|] == entries[last].name;
      }
      DistinctAppend(Listed(prefix, path, treeNames, recursive), ListedFile(entries[last], path, treeNames, recursive));
    }
  }

  /** The subdirectories of a listing with distinct names have distinct names. */
  lemma {:induction false} SubDirsUnique(entries: seq<FsNode>)
    requires UniqueNames(entries)
    ensures forall j :: 0 <= j < |SubDirs(entries)| ==> SubDirs(entries)[j].Dir?
    ensures forall j, l :: 0 <= j < l < |SubDirs(entries)| ==> SubDirs(entries)[j].name != SubDirs(entries)[l].name
  {
    if entries != [] {
      var last := |entries| - 1;
      var prefix := entries[..last];
      SubDirsUnique(prefix);
      forall j | 0 <= j < |SubDirs(entries)| ensures SubDirs(entries)[j].Dir? {
        SubDirAt(entries, j);
      }
      forall j, l | 0 <= j < l < |SubDirs(entries)|
        ensures SubDirs(entries)[j].name != SubDirs(entries)[l].name
      {
        if l == |SubDirs(prefix)| {
          SubDirAt(prefix, j);
          var i :| 0 <= i < last && prefix[i] == SubDirs(prefix)[j];
          assert entries[i] == prefix[i];
        }
      }
    }
  }

  /** Everything the first `k` subdirectory walks append lies in one of those `k` subdirectories. */
  lemma {:induction false} DescendedUnder(node: FsNode, k: nat, path: Path, treeNames: seq<string>, recursive: bool)
    requires node.Dir? && k <= |SubDirs(node.entries)|
    ensures forall f :: f in Descended(node, k, path, treeNames, recursive).pushed ==>
              |f.systemPath| > |path| && exists j :: 0 <= j < k && SubDirs(node.entries)[j].Dir? && f.systemPath[|path|] == SubDirs(node.entries)[j].name
  {
    if k > 0 {
      DescendedUnder(node, k - 1, path, treeNames, recursive);
      var d := SubDirs(node.entries)[k - 1];
      SubDirAt(node.entries, k - 1);
      var dpath, dnames := path + [d.name], DirNames(treeNames, d);
      PushedBelow(d, dpath, dnames, recursive);
      forall f | f in Walked(d, dpath, dnames, recursive).pushed
        ensures |f.systemPath| > |path| && f.systemPath[|path|] == SubDirs(node.entries)[k - 1].name
      {
        assert f.systemPath[|path|] == f.systemPath[..|dpath|][|path|];
      }
    }
  }

  /**
   * When every listing in the tree has distinct names, a walk (even one that
   * stops at an error) never appends two files at the same location.
   */
  lemma {:induction false} WalkedDistinct(node: FsNode, path: Path, treeNames: seq<string>, recursive: bool)
    requires DistinctNames(node)
    ensures DistinctPaths(Walked(node, path, treeNames, recursive).pushed)
    decreases node, 1
  {
    if node.Dir? && node.readable {
      var files := Listed(node.entries, path, treeNames, recursive);
      ListedDistinct(node.entries, path, treeNames, recursive);
      if recursive {
        var sub := Descended(node, |SubDirs(node.entries)|, path, treeNames, recursive);
        DescendedDistinct(node, |SubDirs(node.entries)|, path, treeNames, recursive);
        DescendedBelow(node, |SubDirs(node.entries)|, path, treeNames, recursive);
        forall f | f in files ensures |f.systemPath| == |path| + 1 {
          ListedIff(node.entries, path, treeNames, recursive, f);
        }
        DistinctAppend(files, sub.pushed);
      }
    }
  }

  /** The `k`-th subdirectory walk appends nothing at a location the earlier ones used. */
  lemma SubDirApart(node: FsNode, k: nat, path: Path, treeNames: seq<string>, recursive: bool)
    requires node.Dir? && UniqueNames(node.entries) && 0 < k <= |SubDirs(node.entries)|
    ensures var d := SubDirs(node.entries)[k - 1];
            d.Dir? &&
            forall f, g :: f in Descended(node, k - 1, path, treeNames, recursive).pushed
                        && g in Walked(d, path + [d.name], DirNames(treeNames, d), recursive).pushed
                       ==> f.systemPath != g.systemPath
  {
    var d := SubDirs(node.entries)[k - 1];
    SubDirAt(node.entries, k - 1);
    var dpath, dnames := path + [d.name], DirNames(treeNames, d);
    DescendedUnder(node, k - 1, path, treeNames, recursive);
    SubDirsUnique(node.entries);
    PushedBelow(d, dpath, dnames, recursive);
    forall f, g | f in Descended(node, k - 1, path, treeNames, recursive).pushed && g in Walked(d, dpath, dnames, recursive).pushed
      ensures f.systemPath != g.systemPath
    {
      var j :| 0 <= j < k - 1 && SubDirs(node.entries)[j].Dir? && f.systemPath[|path|] == SubDirs(node.entries)[j].name;
      assert g.systemPath[|path|] == g.systemPath[..|dpath|][|path|];
    }
  }

  /** The first `k` subdirectory walks of a tree with distinct names append files at distinct locations. */
  lemma {:induction false} DescendedDistinct(node: FsNode, k: nat, path: Path, treeNames: seq<string>, recursive: bool)
    requires node.Dir? && DistinctNames(node) && k <= |SubDirs(node.entries)|
    ensures DistinctPaths(Descended(node, k, path, treeNames, recursive).pushed)
    decreases node, 0, k
  {
    if k > 0 {
      var before := Descended(node, k - 1, path, treeNames, recursive);
      DescendedDistinct(node, k - 1, path, treeNames, recursive);
      if before.error.None? {
        var d := SubDirs(node.entries)[k - 1];
        SubDirAt(node.entries, k - 1);
        var i :| 0 <= i < |node.entries| && node.entries[i] == d;
        var dpath, dnames := path + [d.name], DirNames(treeNames, d);
        WalkedDistinct(d, dpath, dnames, recursive);
        var walked := Walked(d, dpath, dnames, recursive);
        SubDirApart(node, k, path, treeNames, recursive);
        DistinctAppend(before.pushed, walked.pushed);
      }
    }
  }

  /**
   * When every listing in the tree has distinct names, a walk that ends
   * without error appends each file the reference finds exactly once, and
   * no other file: N files found give N entries.
   */
  lemma WalkedOnce(node: FsNode, path: Path, treeNames: seq<string>, recursive: bool, f: SvgFile)
    requires DistinctNames(node)
    requires Walked(node, path, treeNames, recursive).error.None?
    ensures multiset(Walked(node, path, treeNames, recursive).pushed)[f]
         == if Found(node, path, treeNames, recursive, f) then 1 else 0
  {
    WalkedFound(node, path, treeNames, recursive, f);
    WalkedDistinct(node, path, treeNames, recursive);
    DistinctOnce(Walked(node, path, treeNames, recursive).pushed, f);
  }

  /**
   * Within one walk of a directory, the files of the directory itself come
   * first, as a block, and everything found in its subdirectories after them.
   */
  lemma DirectFilesFirst(node: FsNode, path: Path, treeNames: seq<string>, recursive: bool)
    requires node.Dir? && node.readable
    ensures var pushed := Walked(node, path, treeNames, recursive).pushed;
            var direct := |Listed(node.entries, path, treeNames, recursive)|;
            && direct <= |pushed|
            && forall k :: 0 <= k < |pushed| ==> (k < direct <==> |pushed[k].systemPath| == |path| + 1)
  {
    var files := Listed(node.entries, path, treeNames, recursive);
    forall f | f in files ensures |f.systemPath| == |path| + 1 {
      ListedIff(node.entries, path, treeNames, recursive, f);
    }
    if recursive {
      DescendedBelow(node, |SubDirs(node.entries)|, path, treeNames, recursive);
    }
  }

  /**
   * Without recursion the walk of a readable directory cannot fail and stays
   * at the top level: every file sits directly in the directory and is named
   * by the ancestors followed by its stem.
   */
  lemma NonRecursiveIsFlat(node: FsNode, path: Path, treeNames: seq<string>)
    requires node.Dir? && node.readable
    ensures Walked(node, path, treeNames, false).error.None?
    ensures forall f :: f in Walked(node, path, treeNames, false).pushed ==>
              && HasDirect(node.entries, path, treeNames, false, f)
              && |f.systemPath| == |path| + 1
              && |f.treeNames| == |treeNames| + 1
  {
    forall f | f in Walked(node, path, treeNames, false).pushed
      ensures HasDirect(node.entries, path, treeNames, false, f)
    {
      ListedIff(node.entries, path, treeNames, false, f);
    }
  }

  /**
   * "Not a directory" can only be the walked path itself: every
   * subdirectory is a directory, so below the root only listing errors occur.
   */
  lemma {:induction false} OnlyRootIsNotADirectory(node: FsNode, path: Path, treeNames: seq<string>, recursive: bool)
    decreases node, 1
    ensures Walked(node, path, treeNames, recursive).error.Some? &&
            Walked(node, path, treeNames, recursive).error.value.NotADirectory?
        <==> !node.Dir?
    ensures !node.Dir? ==> Walked(node, path, treeNames, recursive) == WalkOutcome([], Some(NotADirectory(path)))
  {
    if node.Dir? && node.readable && recursive {
      DescendedListingErrors(node, |SubDirs(node.entries)|, path, treeNames);
    }
  }

  /** The errors of subdirectory walks are listing errors. */
  lemma {:induction false} DescendedListingErrors(node: FsNode, k: nat, path: Path, treeNames: seq<string>)
    requires node.Dir? && k <= |SubDirs(node.entries)|
    ensures Descended(node, k, path, treeNames, true).error.Some? ==>
            Descended(node, k, path, treeNames, true).error.value.ReadDirFailed?
    decreases node, 0, k
  {
    if k > 0 {
      DescendedListingErrors(node, k - 1, path, treeNames);
      var d := SubDirs(node.entries)[k - 1];
      SubDirAt(node.entries, k - 1);
      OnlyRootIsNotADirectory(d, path + [d.name], DirNames(treeNames, d), true);
    }
  }
}
