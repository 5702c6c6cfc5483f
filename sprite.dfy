/**
 * The merger: every collected file that can be read and parsed becomes one
 * `g` or `symbol` child of a new `svg` root, with its top-level comments and
 * listed elements dropped, the listed attributes removed from its surviving
 * top-level elements, and an `id` built from its names.
 *
 * Reading a file and parsing its text are parameters: `read` gives the text
 * at a path or nothing, `parse` gives the root element of a text or nothing.
 */
module Sprite {
  import opened Wrappers
  import opened Xml
  import opened Ids
  import opened Seqs
  import opened Walker

  /** The element every file becomes. */
  datatype SvgTag = G | Symbol

  /** The merger's settings, as chosen on the command line. */
  datatype Options = Options(
    separator: string,
    tag: SvgTag,
    removeAttributes: seq<string>,
    removeElements: seq<string>,
    recursive: bool)

  /** The value of the tag option: "g" selects groups, anything else symbols. */
  function TagFromArg(value: Option<string>): (tag: SvgTag)
    ensures tag == G <==> value == Some("g")
  {
    match value
    case Some("g") => G
    case _ => Symbol
  }

  /** The element name of a tag. */
  function TagName(tag: SvgTag): (name: string)
    ensures tag == G <==> name == "g"
    ensures tag == Symbol <==> name == "symbol"
  {
    match tag
    case G => "g"
    case Symbol => "symbol"
  }

  const SvgNamespace: string := "http://www.w3.org/2000/svg"
  const XlinkNamespace: string := "http://www.w3.org/1999/xlink"

  /** The output root before any file is merged: an `svg` element declaring the default and the `xlink` namespaces. */
  function SpriteRoot(): Element
  {
    NewElement("svg").(namespaces := Some(map["" := SvgNamespace, "xlink" := XlinkNamespace]))
  }

  /** The first filter: comments are dropped. */
  predicate IsComment(child: XmlNode)
  {
    child.Comment?
  }

  /** The second filter: elements named in `removeElements` are dropped. */
  predicate IsRemovedElement(child: XmlNode, removeElements: seq<string>)
  {
    child.ElementNode? && child.element.name in removeElements
  }

  /** A top-level child passes both filters. */
  predicate Kept(child: XmlNode, removeElements: seq<string>)
  {
    !IsComment(child) && !IsRemovedElement(child, removeElements)
  }

  /** `attrs` after removing each of `names` in turn. */
  function Without(attrs: map<string, string>, names: seq<string>): (r: map<string, string>)
    ensures forall k :: k in r <==> k in attrs && k !in names
    ensures forall k :: k in r ==> r[k] == attrs[k]
  {
    if names == [] then attrs
    else Without(attrs, names[..|names| - 1]) - {names[|names| - 1]}
  }

  /**
   * A surviving child with the listed attributes removed: an element keeps
   * everything but the listed attributes, including its own children, whose
   * attributes are untouched; any other node is unchanged.
   */
  function Strip(child: XmlNode, removeAttributes: seq<string>): (r: XmlNode)
    ensures !child.ElementNode? ==> r == child
    ensures child.ElementNode? ==>
              && r.ElementNode?
              && r.element == child.element.(attributes := r.element.attributes)
              && (forall k :: k in r.element.attributes <==> k in child.element.attributes && k !in removeAttributes)
              && (forall k :: k in r.element.attributes ==> r.element.attributes[k] == child.element.attributes[k])
  {
    match child
    case ElementNode(e) => ElementNode(e.(attributes := Without(e.attributes, removeAttributes)))
    case _ => child
  }

  /** The children the new element receives from `children`, in order. */
  function Survivors(children: seq<XmlNode>, removeElements: seq<string>, removeAttributes: seq<string>): seq<XmlNode>
  {
    if children == [] then []
    else
      var last := |children| - 1;
      Survivors(children[..last], removeElements, removeAttributes)
      + (if Kept(children[last], removeElements) then [Strip(children[last], removeAttributes)] else [])
  }

  /** The stripped children at positions `indices`, in that order. */
  function Select(children: seq<XmlNode>, indices: seq<nat>, removeAttributes: seq<string>): seq<XmlNode>
    requires forall k :: 0 <= k < |indices| ==> indices[k] < |children|
  {
    seq(|indices|, k requires 0 <= k < |indices| => Strip(children[indices[k]], removeAttributes))
  }

  /**
   * The survivors are exactly the kept children, stripped, in their original
   * order: the positions of the kept children are increasing, every kept
   * child is among them and every other child is not.
   */
  lemma {:induction false} SurvivorsSelect(children: seq<XmlNode>, n: nat, removeElements: seq<string>, removeAttributes: seq<string>)
    requires n <= |children|
    ensures Survivors(children[..n], removeElements, removeAttributes)
         == Select(children, IndicesBelow(children, c => Kept(c, removeElements), n), removeAttributes)
  {
    if n > 0 {
      SurvivorsSelect(children, n - 1, removeElements, removeAttributes);
      var before := IndicesBelow(children, c => Kept(c, removeElements), n - 1);
      assert children[..n][..n - 1] == children[..n - 1];
      if Kept(children[n - 1], removeElements) {
        assert IndicesBelow(children, c => Kept(c, removeElements), n) == before + [n - 1];
        SelectSnoc(children, before, n - 1, removeAttributes);
      } else {
        assert IndicesBelow(children, c => Kept(c, removeElements), n) == before;
      }
    }
  }

  /** Selecting one more position adds that child, stripped, at the end. */
  lemma SelectSnoc(children: seq<XmlNode>, indices: seq<nat>, i: nat, removeAttributes: seq<string>)
    requires forall k :: 0 <= k < |indices| ==> indices[k] < |children|
    requires i < |children|
    ensures Select(children, indices + [i], removeAttributes)
         == Select(children, indices, removeAttributes) + [Strip(children[i], removeAttributes)]
  {
  }

  /**
   * The new element for one file: a `g` or `symbol` element with the
   * source root's `viewBox` (symbols only), the surviving children and the
   * identifier built from the file's names.
   */
  function Transformed(root: Element, options: Options, treeNames: seq<string>): Element
  {
    var attrs :=
      if options.tag == Symbol && "viewBox" in root.attributes
      then map["viewBox" := root.attributes["viewBox"]]
      else map[];
    NewElement(TagName(options.tag)).(
      attributes := attrs["id" := Join(treeNames, options.separator)],
      children := Survivors(root.children, options.removeElements, options.removeAttributes))
  }

  /**
   * The new element is named after the tag; it has an `id` holding the
   * joined names, a `viewBox` exactly when it is a symbol and the source root
   * has one (with the same value), no other attribute, no namespace, and the
   * survivors of the source root's children.
   */
  lemma TransformedShape(root: Element, options: Options, treeNames: seq<string>)
    ensures var r := Transformed(root, options, treeNames);
            && r.name == TagName(options.tag)
            && "id" in r.attributes && r.attributes["id"] == Join(treeNames, options.separator)
            && ("viewBox" in r.attributes <==> options.tag == Symbol && "viewBox" in root.attributes)
            && ("viewBox" in r.attributes ==> r.attributes["viewBox"] == root.attributes["viewBox"])
            && (forall k :: k in r.attributes ==> k == "id" || k == "viewBox")
            && r.children == Survivors(root.children, options.removeElements, options.removeAttributes)
            && r.prefix.None? && r.namespace.None? && r.namespaces.None?
  {
  }

  /** The root element of a collected file, when it can be read and its text parsed. */
  function Loaded(file: SvgFile, read: Path -> Option<string>, parse: string -> Option<Element>): Option<Element>
  {
    match read(file.systemPath)
    case Some(text) => parse(text)
    case None => None
  }

  /** The children the merger gives the output root for `files`: one per file that loads, in order. */
  function Assembled(files: seq<SvgFile>, options: Options, read: Path -> Option<string>, parse: string -> Option<Element>): seq<XmlNode>
  {
    if files == [] then []
    else
      var last := |files| - 1;
      Assembled(files[..last], options, read, parse)
      + match Loaded(files[last], read, parse)
        case Some(root) => [ElementNode(Transformed(root, options, files[last].treeNames))]
        case None => []
  }

  /** The output children for the files at positions `indices`, in that order. */
  function Sprites(files: seq<SvgFile>, indices: seq<nat>, options: Options, read: Path -> Option<string>, parse: string -> Option<Element>): seq<XmlNode>
    requires forall k :: 0 <= k < |indices| ==> indices[k] < |files| && Loaded(files[indices[k]], read, parse).Some?
  {
    seq(|indices|, k requires 0 <= k < |indices| =>
      ElementNode(Transformed(Loaded(files[indices[k]], read, parse).value, options, files[indices[k]].treeNames)))
  }

  /**
   * The output has exactly one child per file that is read and parsed, in
   * the order of the files; a file that fails leaves nothing behind.
   */
  lemma {:induction false} AssembledSelect(files: seq<SvgFile>, n: nat, options: Options, read: Path -> Option<string>, parse: string -> Option<Element>)
    requires n <= |files|
    ensures Assembled(files[..n], options, read, parse)
         == Sprites(files, IndicesBelow(files, f => Loaded(f, read, parse).Some?, n), options, read, parse)
  {
    if n > 0 {
      AssembledSelect(files, n - 1, options, read, parse);
      var before := IndicesBelow(files, f => Loaded(f, read, parse).Some?, n - 1);
      assert files[..n][..n - 1] == files[..n - 1];
      if Loaded(files[n - 1], read, parse).Some? {
        assert IndicesBelow(files, f => Loaded(f, read, parse).Some?, n) == before + [n - 1];
        SpritesSnoc(files, before, n - 1, options, read, parse);
      } else {
        assert IndicesBelow(files, f => Loaded(f, read, parse).Some?, n) == before;
      }
    }
  }

  /** Selecting one more loaded file adds its element at the end. */
  lemma SpritesSnoc(files: seq<SvgFile>, indices: seq<nat>, i: nat, options: Options, read: Path -> Option<string>, parse: string -> Option<Element>)
    requires forall k :: 0 <= k < |indices| ==> indices[k] < |files| && Loaded(files[indices[k]], read, parse).Some?
    requires i < |files| && Loaded(files[i], read, parse).Some?
    ensures Sprites(files, indices + [i], options, read, parse)
         == Sprites(files, indices, options, read, parse)
            + [ElementNode(Transformed(Loaded(files[i], read, parse).value, options, files[i].treeNames))]
  {
  }

  /** The `for` loop over the attributes to remove. */
  method RemoveAttributes(attrs: map<string, string>, names: seq<string>) returns (r: map<string, string>)
    ensures r == Without(attrs, names)
  {
    r := attrs;
    for i := 0 to |names|
      invariant r == Without(attrs, names[..i])
    {
      assert names[..i + 1][..i] == names[..i];
      r := r - {names[i]};
    }
    assert names[..|names|] == names;
  }

  /** The two filters and the attribute removal over the source root's children, pushing each survivor onto `pushed`. */
  method PushSurvivors(pushed: seq<XmlNode>, children: seq<XmlNode>, removeElements: seq<string>, removeAttributes: seq<string>)
    returns (out: seq<XmlNode>)
    ensures out == pushed + Survivors(children, removeElements, removeAttributes)
  {
    out := pushed;
    for i := 0 to |children|
      invariant out == pushed + Survivors(children[..i], removeElements, removeAttributes)
    {
      assert children[..i + 1][..i] == children[..i];
      var child := children[i];
      if child.Comment? {
        // dropped by the first filter
      } else if child.ElementNode? && child.element.name in removeElements {
        // dropped by the second filter
      } else {
        if child.ElementNode? {
          var attrs := RemoveAttributes(child.element.attributes, removeAttributes);
          child := ElementNode(child.element.(attributes := attrs));
        }
        out := out + [child];
      }
    }
    assert children[..|children|] == children;
  }

  /** The transform of one parsed file into its `g` or `symbol` element. */
  method Transform(root: Element, options: Options, treeNames: seq<string>) returns (e: Element)
    ensures e == Transformed(root, options, treeNames)
  {
    e := NewElement(match options.tag case G => "g" case Symbol => "symbol");
    if options.tag == Symbol {
      if "viewBox" in root.attributes {
        e := e.(attributes := e.attributes["viewBox" := root.attributes["viewBox"]]);
      }
    }
    var children := PushSurvivors(e.children, root.children, options.removeElements, options.removeAttributes);
    e := e.(children := children);
    e := e.(attributes := e.attributes["id" := Join(treeNames, options.separator)]);
  }

  /** The merge loop: each collected file that loads is transformed and pushed onto the output root. */
  method Merge(files: seq<SvgFile>, options: Options, read: Path -> Option<string>, parse: string -> Option<Element>)
    returns (svg: Element)
    ensures svg == SpriteRoot().(children := Assembled(files, options, read, parse))
  {
    svg := SpriteRoot();
    for i := 0 to |files|
      invariant svg == SpriteRoot().(children := Assembled(files[..i], options, read, parse))
    {
      assert files[..i + 1][..i] == files[..i];
      var file := files[i];
      match read(file.systemPath) {
        case Some(content) =>
          match parse(content) {
            case Some(sourceRoot) =>
              var child := Transform(sourceRoot, options, file.treeNames);
              svg := svg.(children := svg.children + [ElementNode(child)]);
            case None =>
          }
        case None =>
      }
    }
    assert files[..|files|] == files;
  }

  /**
   * The whole run past option parsing: walk the input directory; a walk that
   * fails yields its error and no output at all, otherwise the merged sprite.
   */
  method BuildSprite(input: FsNode, inputPath: Path, options: Options, read: Path -> Option<string>, parse: string -> Option<Element>)
    returns (r: Result<Element, WalkError>)
    ensures var walked := Walked(input, inputPath, [], options.recursive);
            && (walked.error.Some? ==> r == Err(walked.error.value))
            && (walked.error.None? ==> r == Ok(SpriteRoot().(children := Assembled(walked.pushed, options, read, parse))))
  {
    var svgs, err := Walk(input, inputPath, [], [], options.recursive);
    if err.Some? {
      return Err(err.value);
    }
    assert svgs == Walked(input, inputPath, [], options.recursive).pushed;
    var svg := Merge(svgs, options, read, parse);
    return Ok(svg);
  }
}
