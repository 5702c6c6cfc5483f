/** Concrete runs of the model. */
module Scenarios {
  import opened Wrappers
  import opened FileNames
  import opened Walker
  import opened WalkerProperties
  import opened Ids
  import opened Xml
  import opened Sprite

  /** "a-b.svg" at the top of the input directory "icons". */
  function Top(): FsNode { File("a-b.svg") }

  /** "b.svg" inside the directory "a". */
  function Inner(): FsNode { File("b.svg") }

  /** The directory "a". */
  function SubA(): FsNode { Dir("a", true, true, [Inner()]) }

  /** The input directory "icons". */
  function Icons(): FsNode { Dir("icons", true, true, [Top(), SubA()]) }

  /** The file collected for a ".svg" entry directly in `path`. */
  lemma CollectedAt(item: FsNode, path: Path, treeNames: seq<string>)
    requires item.File? && HasSvgSuffix(item.name)
    ensures ListedFile(item, path, treeNames, true)
         == [SvgFile(treeNames + [item.name[..|item.name| - 4]], path + [item.name])]
  {
    SvgExtensionIff(item.name);
  }

  /** The walk of "a" collects "b.svg" with the names "a", "b". */
  lemma WalkOfSubA()
    ensures Walked(SubA(), ["icons", "a"], ["a"], true) == WalkOutcome([SvgFile(["a", "b"], ["icons", "a", "b.svg"])], None)
  {
    var path, names := ["icons", "a"], ["a"];
    assert HasSvgSuffix(Inner().name);
    CollectedAt(Inner(), path, names);
    assert Inner().name[..|Inner().name| - 4] == "b";
    assert names + ["b"] == ["a", "b"] && path + [Inner().name] == ["icons", "a", "b.svg"];
    assert [Inner()][..0] == [];
    var files := Listed([Inner()], path, names, true);
    assert files == Listed([], path, names, true) + ListedFile(Inner(), path, names, true);
    assert files == [SvgFile(["a", "b"], ["icons", "a", "b.svg"])];
    assert SubDirs([Inner()]) == SubDirs([]) + [];
    assert Descended(SubA(), 0, path, names, true) == WalkOutcome([], None);
  }

  /** The listing pass over "icons" collects "a-b.svg" with the single name "a-b" and sets "a" aside. */
  lemma ListingOfIcons()
    ensures Listed(Icons().entries, ["icons"], [], true) == [SvgFile(["a-b"], ["icons", "a-b.svg"])]
    ensures SubDirs(Icons().entries) == [SubA()]
  {
    var path: Path, names: seq<string> := ["icons"], [];
    assert HasSvgSuffix(Top().name);
    CollectedAt(Top(), path, names);
    assert Top().name[..|Top().name| - 4] == "a-b";
    assert names + ["a-b"] == ["a-b"] && path + [Top().name] == ["icons", "a-b.svg"];
    assert Icons().entries[..1] == [Top()] && [Top()][..0] == [];
    var first := Listed([Top()], path, names, true);
    assert first == Listed([], path, names, true) + ListedFile(Top(), path, names, true);
    assert first == [SvgFile(["a-b"], ["icons", "a-b.svg"])];
    assert Listed(Icons().entries, path, names, true) == first + ListedFile(SubA(), path, names, true);
    assert SubDirs([Top()]) == SubDirs([]) + [];
    assert SubDirs(Icons().entries) == SubDirs([Top()]) + [SubA()];
  }

  /** The recursive walk of "icons": first "a-b.svg", then "b.svg" from "a". */
  lemma WalkOfIcons()
    ensures Walked(Icons(), ["icons"], [], true)
         == WalkOutcome([SvgFile(["a-b"], ["icons", "a-b.svg"]), SvgFile(["a", "b"], ["icons", "a", "b.svg"])], None)
  {
    ListingOfIcons();
    WalkOfSubA();
    assert ["icons"] + [SubA().name] == ["icons", "a"] && DirNames([], SubA()) == ["a"];
    var sub := Descended(Icons(), 1, ["icons"], [], true);
    assert sub == WalkOutcome([] + Walked(SubA(), ["icons", "a"], ["a"], true).pushed, None);
    assert Walked(Icons(), ["icons"], [], true)
        == WalkOutcome(Listed(Icons().entries, ["icons"], [], true) + sub.pushed, sub.error);
  }

  /**
   * Names that contain the separator make identifiers collide although
   * every directory holds distinct names: "a-b.svg" at the top and "b.svg"
   * in the directory "a" both get the identifier "a-b".
   */
  lemma CollidingIds()
    ensures var walked := Walked(Icons(), ["icons"], [], true);
            && walked.error.None? && |walked.pushed| == 2
            && walked.pushed[0].systemPath != walked.pushed[1].systemPath
            && Join(walked.pushed[0].treeNames, "-") == Join(walked.pushed[1].treeNames, "-") == "a-b"
  {
    WalkOfIcons();
    JoinCollision();
  }

  /** "x.svg", both at the top of "icons" and inside the directory below. */
  function X(): FsNode { File("x.svg") }

  /** A directory whose name is not valid UTF-8 (shown after lossy conversion), holding "x.svg". */
  function Raw(): FsNode { Dir("caf\U{FFFD}", false, true, [X()]) }

  /** The input directory "icons", holding "x.svg" and that directory. */
  function Mixed(): FsNode { Dir("icons", true, true, [X(), Raw()]) }

  /** The walk of the non-UTF-8 directory names "x.svg" by its stem alone. */
  lemma WalkOfRaw()
    ensures Walked(Raw(), ["icons", Raw().name], [], true) == WalkOutcome([SvgFile(["x"], ["icons", Raw().name, "x.svg"])], None)
  {
    var path: Path, names: seq<string> := ["icons", Raw().name], [];
    assert HasSvgSuffix(X().name);
    CollectedAt(X(), path, names);
    assert X().name[..|X().name| - 4] == "x";
    assert names + ["x"] == ["x"] && path + [X().name] == ["icons", Raw().name, "x.svg"];
    assert [X()][..0] == [];
    assert Listed([X()], path, names, true) == Listed([], path, names, true) + ListedFile(X(), path, names, true);
    assert SubDirs([X()]) == SubDirs([]) + [];
    assert Descended(Raw(), 0, path, names, true) == WalkOutcome([], None);
  }

  /** The listing pass over "icons" collects the top "x.svg" and sets the non-UTF-8 directory aside. */
  lemma ListingOfMixed()
    ensures Listed(Mixed().entries, ["icons"], [], true) == [SvgFile(["x"], ["icons", "x.svg"])]
    ensures SubDirs(Mixed().entries) == [Raw()]
  {
    var path: Path, names: seq<string> := ["icons"], [];
    assert HasSvgSuffix(X().name);
    CollectedAt(X(), path, names);
    assert X().name[..|X().name| - 4] == "x";
    assert names + ["x"] == ["x"] && path + [X().name] == ["icons", "x.svg"];
    assert Mixed().entries[..1] == [X()] && [X()][..0] == [];
    var first := Listed([X()], path, names, true);
    assert first == Listed([], path, names, true) + ListedFile(X(), path, names, true);
    assert Listed(Mixed().entries, path, names, true) == first + ListedFile(Raw(), path, names, true);
    assert SubDirs([X()]) == SubDirs([]) + [];
    assert SubDirs(Mixed().entries) == SubDirs([X()]) + [Raw()];
  }

  /**
   * A directory whose name is not valid UTF-8 adds no name, so a file inside
   * it collides with a file of the same name beside it: both "x.svg" files
   * get the identifier "x", although every listing holds distinct names.
   */
  lemma NonUtf8CollidingIds()
    ensures var walked := Walked(Mixed(), ["icons"], [], true);
            && DistinctNames(Mixed())
            && walked.error.None?
            && walked.pushed == [SvgFile(["x"], ["icons", "x.svg"]), SvgFile(["x"], ["icons", Raw().name, "x.svg"])]
            && Join(walked.pushed[0].treeNames, "-") == Join(walked.pushed[1].treeNames, "-") == "x"
  {
    ListingOfMixed();
    WalkOfRaw();
    assert ["icons"] + [Raw().name] == ["icons", Raw().name] && DirNames([], Raw()) == [];
    var sub := Descended(Mixed(), 1, ["icons"], [], true);
    assert sub == WalkOutcome([] + Walked(Raw(), ["icons", Raw().name], [], true).pushed, None);
    assert X().name != Raw().name by { assert X().name[0] == 'x' && Raw().name[0] == 'c'; }
  }

  /** The only child of the source document: a `path` element. */
  function ArrowPath(): XmlNode
  {
    ElementNode(NewElement("path").(attributes := map["d" := "M0 0"]))
  }

  /** The parsed source document of "arrow.svg": an `svg` root with a `viewBox` and one `path`. */
  function ArrowRoot(): Element
  {
    NewElement("svg").(attributes := map["viewBox" := "0 0 10 10"], children := [ArrowPath()])
  }

  /** The input directory "icons" holding only "arrow.svg". */
  function ArrowIcons(): FsNode
  {
    Dir("icons", true, true, [File("arrow.svg")])
  }

  /** The walk of "icons" collects "arrow.svg" with the single name "arrow". */
  lemma WalkOfArrowIcons()
    ensures Walked(ArrowIcons(), ["icons"], [], false) == WalkOutcome([SvgFile(["arrow"], ["icons", "arrow.svg"])], None)
  {
    var path: Path, names: seq<string> := ["icons"], [];
    var arrow := File("arrow.svg");
    assert HasSvgSuffix(arrow.name);
    SvgExtensionIff(arrow.name);
    assert arrow.name[..|arrow.name| - 4] == "arrow";
    assert names + ["arrow"] == ["arrow"] && path + [arrow.name] == ["icons", "arrow.svg"];
    assert ListedFile(arrow, path, names, false) == [SvgFile(["arrow"], ["icons", "arrow.svg"])];
    assert [arrow][..0] == [];
    assert Listed([arrow], path, names, false) == Listed([], path, names, false) + ListedFile(arrow, path, names, false);
  }

  /** The default options: separator "-", symbols, nothing removed, no recursion. */
  function DefaultOptions(): Options
  {
    Options("-", Symbol, [], [], false)
  }

  /** The element "arrow.svg" becomes under the default options. */
  function ArrowSymbol(): Element
  {
    NewElement("symbol").(attributes := map["viewBox" := "0 0 10 10", "id" := "arrow"], children := [ArrowPath()])
  }

  /** The transform keeps the `path`, copies the `viewBox` and adds the identifier. */
  lemma TransformOfArrow()
    ensures Transformed(ArrowRoot(), DefaultOptions(), ["arrow"]) == ArrowSymbol()
  {
    assert [ArrowPath()][..0] == [];
    assert Survivors([ArrowPath()], [], []) == Survivors([], [], []) + [Strip(ArrowPath(), [])];
    assert Without(map["d" := "M0 0"], []) == map["d" := "M0 0"];
    assert Join(["arrow"], "-") == "arrow";
  }

  /**
   * With the default options, "arrow.svg" becomes one `symbol` carrying the
   * source's `viewBox`, the identifier "arrow" and the source's `path`.
   */
  lemma ArrowRoundTrip()
    ensures var read := (p: Path) => if p == ["icons", "arrow.svg"] then Some("<svg/>") else None;
            var parse := (t: string) => Some(ArrowRoot());
            var walked := Walked(ArrowIcons(), ["icons"], [], false);
            && walked.error.None?
            && Assembled(walked.pushed, DefaultOptions(), read, parse) == [ElementNode(ArrowSymbol())]
  {
    WalkOfArrowIcons();
    TransformOfArrow();
    var read := (p: Path) => if p == ["icons", "arrow.svg"] then Some("<svg/>") else None;
    var parse := (t: string) => Some(ArrowRoot());
    var file := SvgFile(["arrow"], ["icons", "arrow.svg"]);
    assert Loaded(file, read, parse) == Some(ArrowRoot());
    assert [file][..0] == [];
    assert Assembled([file], DefaultOptions(), read, parse)
        == Assembled([], DefaultOptions(), read, parse) + [ElementNode(Transformed(ArrowRoot(), DefaultOptions(), ["arrow"]))];
  }
}
