/**
 * When generated identifiers are unique. The identifier of a file is its
 * names joined by the separator; the names mirror the file's location
 * below the input directory as long as every directory name is valid UTF-8.
 */
module UniqueIds {
  import opened FileNames
  import opened Walker
  import opened WalkerProperties
  import opened Ids

  /** Every directory below `node` has a name that is valid UTF-8. */
  ghost predicate Utf8Below(node: FsNode)
    decreases node
  {
    node.Dir? ==>
      forall i :: 0 <= i < |node.entries| && node.entries[i].Dir? ==>
        node.entries[i].utf8 && Utf8Below(node.entries[i])
  }

  /**
   * The names of `f` are `treeNames` followed by the components of its
   * location after `path`, the last one without its ".svg".
   */
  ghost predicate NamedAfter(f: SvgFile, path: Path, treeNames: seq<string>)
  {
    && |f.systemPath| > |path| && f.systemPath[..|path|] == path
    && var last := f.systemPath[|f.systemPath| - 1];
       && HasSvgSuffix(last)
       && f.treeNames == treeNames + f.systemPath[|path|..|f.systemPath| - 1] + [last[..|last| - 4]]
  }

  /** A file named after the location below a subdirectory is named after the location below its parent. */
  lemma NamedAfterParent(f: SvgFile, path: Path, treeNames: seq<string>, name: string)
    requires NamedAfter(f, path + [name], treeNames + [name])
    ensures NamedAfter(f, path, treeNames)
  {
    var sp := f.systemPath;
    assert sp[..|path|] == sp[..|path| + 1][..|path|];
    assert sp[|path|] == sp[..|path| + 1][|path|] == name;
    assert sp[|path|..|sp| - 1] == [name] + sp[|path| + 1..|sp| - 1];
  }

  /** When all directory names are valid UTF-8, every file a walk appends is named after its location. */
  lemma {:induction false} PushedNamedAfter(node: FsNode, path: Path, treeNames: seq<string>, recursive: bool)
    requires Utf8Below(node)
    ensures forall f :: f in Walked(node, path, treeNames, recursive).pushed ==> NamedAfter(f, path, treeNames)
    decreases node, 1
  {
    if node.Dir? && node.readable {
      forall f | f in Listed(node.entries, path, treeNames, recursive)
        ensures NamedAfter(f, path, treeNames)
      {
        ListedIff(node.entries, path, treeNames, recursive, f);
        var i :| 0 <= i < |node.entries| && DirectFile(node.entries[i], path, treeNames, recursive, f);
        DirectNamedAfter(node.entries[i], path, treeNames, recursive, f);
      }
      if recursive {
        DescendedNamedAfter(node, |SubDirs(node.entries)|, path, treeNames);
      }
    }
  }

  /** A directly collected file is named after its location. */
  lemma DirectNamedAfter(e: FsNode, path: Path, treeNames: seq<string>, recursive: bool, f: SvgFile)
    requires DirectFile(e, path, treeNames, recursive, f)
    ensures NamedAfter(f, path, treeNames)
  {
    assert f.systemPath[|path|..|f.systemPath| - 1] == [];
  }

  /** The same for the subdirectory walks of a recursive walk. */
  lemma {:induction false} DescendedNamedAfter(node: FsNode, k: nat, path: Path, treeNames: seq<string>)
    requires node.Dir? && k <= |SubDirs(node.entries)|
    requires Utf8Below(node)
    ensures forall f :: f in Descended(node, k, path, treeNames, true).pushed ==> NamedAfter(f, path, treeNames)
    decreases node, 0, k
  {
    if k > 0 {
      DescendedNamedAfter(node, k - 1, path, treeNames);
      var d := SubDirs(node.entries)[k - 1];
      SubDirAt(node.entries, k - 1);
      var i :| 0 <= i < |node.entries| && node.entries[i] == d;
      PushedNamedAfter(d, path + [d.name], treeNames + [d.name], true);
      forall f | f in Walked(d, path + [d.name], DirNames(treeNames, d), true).pushed
        ensures NamedAfter(f, path, treeNames)
      {
        NamedAfterParent(f, path, treeNames, d.name);
      }
    }
  }

  /** The parts of a location that the names of a file named after it give back. */
  lemma NamedAfterParts(f: SvgFile, path: Path)
    requires NamedAfter(f, path, [])
    ensures |f.treeNames| == |f.systemPath| - |path|
    ensures f.treeNames[..|f.treeNames| - 1] == f.systemPath[|path|..|f.systemPath| - 1]
    ensures f.systemPath[|f.systemPath| - 1] == f.treeNames[|f.treeNames| - 1] + ".svg"
    ensures f.systemPath == path + f.systemPath[|path|..|f.systemPath| - 1] + [f.systemPath[|f.systemPath| - 1]]
  {
    var sp := f.systemPath;
    var last := sp[|sp| - 1];
    assert f.treeNames == sp[|path|..|sp| - 1] + [last[..|last| - 4]];
    assert last == last[..|last| - 4] + last[|last| - 4..];
  }

  /** Two files named after their locations below the same path, with the same names, are the same file. */
  lemma NamesDetermineFile(f: SvgFile, g: SvgFile, path: Path)
    requires NamedAfter(f, path, []) && NamedAfter(g, path, [])
    requires f.treeNames == g.treeNames
    ensures f == g
  {
    NamedAfterParts(f, path);
    NamedAfterParts(g, path);
  }

  /**
   * Identifiers are unique among the files of a successful or failed walk
   * from the input directory when every directory name below it is valid
   * UTF-8 and no name contains the separator's first character: files with
   * the same identifier are the same file.
   */
  lemma SameIdSameFile(node: FsNode, path: Path, recursive: bool, separator: string, f: SvgFile, g: SvgFile)
    requires Utf8Below(node)
    requires f in Walked(node, path, [], recursive).pushed && g in Walked(node, path, [], recursive).pushed
    requires separator != []
    requires Avoids(f.treeNames, separator[0]) && Avoids(g.treeNames, separator[0])
    requires Join(f.treeNames, separator) == Join(g.treeNames, separator)
    ensures f == g
  {
    PushedNamedAfter(node, path, [], recursive);
    JoinInjective(f.treeNames, g.treeNames, separator);
    NamesDetermineFile(f, g, path);
  }
}
