/**
 * File-name splitting as the walker sees it: the extension and the stem of a
 * directory entry's name, computed the way Rust's `Path::extension` and
 * `Path::file_stem` do, by splitting the name at its LAST dot.
 *
 * A name here is a single component as a directory listing yields it (never
 * "." or ".." and never containing a separator), so it is its own file name.
 */
module FileNames {
  import opened Wrappers

  /** Position of the last '.' in `name`, if there is one. */
  function LastDot(name: string): (r: Option<nat>)
    ensures r.Some? ==> r.value < |name| && name[r.value] == '.'
    ensures r.Some? ==> forall j :: r.value < j < |name| ==> name[j] != '.'
    ensures r.None? ==> forall j :: 0 <= j < |name| ==> name[j] != '.'
  {
    if |name| == 0 then None
    else if name[|name| - 1] == '.' then Some(|name| - 1)
    else LastDot(name[..|name| - 1])
  }

  /**
   * Rust's `rsplit_file_at_dot`: the parts before and after the last dot.
   * ".." and a name whose only dot is its first character (".svg"-style
   * hidden files) count as having no extension at all.
   */
  function SplitAtDot(name: string): (Option<string>, Option<string>)
  {
    if name == ".." then (Some(name), None)
    else match LastDot(name)
      case None => (None, Some(name))
      case Some(k) =>
        if k == 0 then (Some(name), None) else (Some(name[..k]), Some(name[k + 1..]))
  }

  /** `Path::extension`: `before.and(after)`. */
  function Extension(name: string): Option<string>
  {
    var (before, after) := SplitAtDot(name);
    if before.Some? then after else None
  }

  /**
   * `Path::file_stem`: `before.or(after)`. It is never absent for an entry
   * name, which is what makes the walker's "no stem" branch dead.
   */
  function Stem(name: string): (r: Option<string>)
    ensures r.Some?
    ensures Extension(name).None? ==> r.value == name
    ensures Extension(name).Some? ==> r.value != "" && r.value + "." + Extension(name).value == name
    ensures Extension(name).Some? ==> forall j :: 0 <= j < |Extension(name).value| ==> Extension(name).value[j] != '.'
  {
    var (before, after) := SplitAtDot(name);
    if before.Some? then before else after
  }

  /** The name ends in ".svg" with at least one character before the dot. */
  predicate HasSvgSuffix(name: string)
  {
    |name| > 4 && name[|name| - 4..] == ".svg"
  }

  /**
   * The extension is exactly "svg" (case-sensitively) if and only if the name
   * ends in ".svg" after a non-empty stem; the stem is then the name minus
   * those four characters.
   */
  lemma SvgExtensionIff(name: string)
    ensures Extension(name) == Some("svg") <==> HasSvgSuffix(name)
    ensures HasSvgSuffix(name) ==> Stem(name) == Some(name[..|name| - 4])
  {
    if HasSvgSuffix(name) {
      var k := |name| - 4;
      assert name[k..] == ".svg";
      assert name[k] == '.' && name[k + 1] == 's' && name[k + 2] == 'v' && name[k + 3] == 'g';
      match LastDot(name)
      case None =>
        assert false;
      case Some(d) =>
        assert d == k;
        assert name[k + 1..] == "svg";
    }
    if Extension(name) == Some("svg") {
      assert name != "..";
      var d := LastDot(name).value;
      assert d > 0 && name[d + 1..] == "svg";
      assert |name| == d + 4;
      assert name[d..] == ".svg";
    }
  }
}
