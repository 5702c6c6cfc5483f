# svg-sprite, modelled in Dafny

svg-sprite is a command-line tool. It turns a directory of SVG icons into
one sprite sheet: a single `svg` document with one `g` or `symbol` child per
icon. It runs in two steps, and this project models both.

- **The walker** (`walk`) lists the input directory. It collects every entry
  whose extension is exactly `svg`, together with the names that will make up
  its identifier: the ancestor directory names followed by the file's stem.
  In recursive mode it then descends into the subdirectories, in listing
  order. The first error it meets ends the whole run.
- **The merger** is the loop at the end of `main`. Each collected file whose
  text can be read and parsed becomes a new `g` or `symbol` element:
  - a `symbol` gets the source root's `viewBox`;
  - the top-level comments are dropped;
  - top-level elements with a listed name are dropped;
  - the listed attributes are removed from the surviving top-level elements;
  - the element gets an `id` made of the file's names joined by the separator.

  The elements are appended, in walk order, to an `svg` root that declares the
  SVG and XLink namespaces.

The filesystem is a finite tree (`Walker.FsNode`). A directory carries:
- its name;
- whether that name is valid UTF-8;
- whether it can be listed;
- its listing, in order.

A listing entry that cannot be obtained is a `BadEntry`. Reading a file and
parsing its text are function parameters (`read`, `parse`) that may yield
nothing. The XML tree (`Xml.Element`, `Xml.XmlNode`) has the fields of the
element type the program uses.

Files:
- `wrappers.dfy`: `Option` and `Result`.
- `file_names.dfy`: the extension and stem of an entry name, split at the last dot.
- `walker.dfy`:
  - `walk` as methods;
  - the specification functions `Walked` and `Descended`;
  - the properties in `WalkerProperties`.
- `ids.dfy`: the `join` that builds identifiers.
- `seqs.dfy`: the increasing positions selected by a predicate.
- `xml.dfy`: the XML values.
- `sprite.dfy`: the transform, the merge and the whole run past option parsing.
- `unique_ids.dfy`: when identifiers are unique.
- `scenarios.dfy`: three concrete runs.

### Identifiers are not unique in general

It is tempting to expect generated identifiers to be unique whenever names
are unique within each directory. The code does not guarantee this:
- `Scenarios.CollidingIds` is a counterexample. `a-b.svg` at the top and
  `b.svg` inside `a` both get the identifier `a-b` under the default separator.
- A directory whose name is not valid UTF-8 adds no name at all. Its files
  can therefore share identifiers with files higher up whenever their
  remaining names coincide. `Scenarios.NonUtf8CollidingIds` shows this:
  `x.svg` inside such a directory and `x.svg` beside it both get the
  identifier `x`.

`UniqueIds.SameIdSameFile` proves what does hold. If every directory name is
valid UTF-8 and no name contains the separator's first character, two
collected files with the same identifier are the same file.

## Model

| member | source | states |
|---|---|---|
| FileNames.LastDot | src/main.rs:58 | The position found holds a dot and no dot follows it; no position means the name has no dot. |
| FileNames.Stem | src/main.rs:63-65 | The stem of an entry name always exists. It is the whole name when there is no extension. Otherwise it is non-empty, stem + "." + extension is the name, and the extension holds no dot, so the split is at the last dot. So the walker's "no stem" branch is dead. |
| FileNames.SvgExtensionIff | src/main.rs:58-59 | The extension is exactly "svg" (case-sensitive) iff the name ends in ".svg" after a non-empty stem. The stem is then the name without those four characters. |
| Walker.Visit | src/main.rs:55-72 | One entry of the listing pass. In recursive mode a directory is set aside. Any other obtained entry is appended when its extension is "svg", with the ancestors plus its stem as names and the directory's path plus its name as location. |
| Walker.ListDir | src/main.rs:51-72 | The listing pass appends the listing's collected entries to the caller's list, in listing order. In recursive mode it returns the subdirectories in listing order, otherwise none. |
| Walker.Walk | src/main.rs:43-89 | `walk` appends exactly `Walked(...).pushed` to the caller's list, including what it appended before an error, and returns `Walked(...).error`. |
| Walker.WalkListing | src/main.rs:48-88 | A readable directory: the listing pass, then in recursive mode the descent; the outcome is `Walked`. |
| Walker.WalkSubdirs | src/main.rs:74-86 | The subdirectories are walked in listing order, each below its own path and names. The first error ends the descent and is returned. |
| Walker.DescendedStops | src/main.rs:84 | Once a subdirectory walk has failed, later subdirectories add nothing and the error is kept. |
| WalkerProperties.ListedFileIff | src/main.rs:53-71 | An entry contributes file f iff it was obtained, is not a directory being descended into, is named "stem.svg" with a non-empty stem, and f is (ancestors + [stem], path + [name]). |
| WalkerProperties.ListedIff | src/main.rs:51-72 | The listing pass collects exactly the direct files of the listing: siblings get the same ancestors followed by their own stem. |
| WalkerProperties.SubDirsFound | src/main.rs:56-57 | A file is found under some directory entry iff it is found under one of the subdirectories set aside. |
| WalkerProperties.WalkedFound | src/main.rs:43-89 | A walk that ends without error appends f iff the reference definition `Found` finds f. Nothing is missed and nothing is added. |
| WalkerProperties.WalkedDistinct | src/main.rs:43-89 | When every listing in the tree has distinct names, no two appended files share a location, even in a walk that stops at an error. |
| WalkerProperties.ListedDistinct | src/main.rs:51-72 | A listing with distinct names gives direct files at distinct locations. |
| WalkerProperties.DescendedDistinct | src/main.rs:74-86 | The subdirectory walks of such a tree append files at distinct locations; files of different subdirectories differ in the subdirectory's name. |
| WalkerProperties.WalkedOnce | src/main.rs:43-89 | When every listing has distinct names and the walk ends without error, each file `Found` finds is appended exactly once and no other file is appended, so N files found give N entries. |
| WalkerProperties.DescendedFound | src/main.rs:74-86 | The first k subdirectory walks, when none fails, append f iff `Found` finds f under one of those k subdirectories. |
| WalkerProperties.PushedBelow | src/main.rs:60-67 | Every appended file, even in a walk that fails, lies below the walked path and ancestor names. Its last name is the stem of its ".svg" file name. |
| WalkerProperties.DescendedBelow | src/main.rs:74-86 | Everything a subdirectory walk appends lies at least two levels below the walked path. |
| WalkerProperties.DirectFilesFirst | src/main.rs:48-86 | The directory's own files come first, as one block; every later entry comes from a subdirectory. |
| WalkerProperties.NonRecursiveIsFlat | src/main.rs:56-59 | Without recursion, a readable directory never fails. Every appended file is a direct file one level below, with one more name. |
| WalkerProperties.OnlyRootIsNotADirectory | src/main.rs:44-46 | The walk reports "not a directory" iff the walked path is not a directory; then it appends nothing. |
| WalkerProperties.DescendedListingErrors | src/main.rs:51-52 | A subdirectory walk can only fail because a listing fails. |
| Ids.JoinSnoc | src/main.rs:227 | One more name adds the separator and that name at the end of the identifier. |
| Ids.JoinInjective | src/main.rs:227 | When no name contains the separator's first character, the identifier determines the list of names. |
| Ids.JoinCollision | src/main.rs:227 | Without that condition, different name lists can give the same identifier. |
| Sprite.TagFromArg | src/main.rs:159-162 | The tag is `g` iff the option's value is "g". Any other value, or none, selects `symbol`. |
| Sprite.TagName | src/main.rs:188-191 | The element name is "g" for `g` and "symbol" for `symbol`. |
| Sprite.Without | src/main.rs:217-219 | After removal, a key is present iff it was present and is not listed; every remaining value is unchanged. |
| Sprite.Strip | src/main.rs:213-221 | An element keeps everything but the listed attributes, including its own children. Any other node is unchanged. |
| Sprite.SurvivorsSelect | src/main.rs:199-223 | The surviving children are exactly the children that are neither comments nor listed elements, stripped, in original order. |
| Sprite.TransformedShape | src/main.rs:188-227 | The new element is named after the tag and has an `id` equal to the joined names. It has a `viewBox` iff it is a symbol and the source root has one, and then with the same value. It has no other attribute, and its children are the survivors. |
| Sprite.AssembledSelect | src/main.rs:185-232 | The output root gets exactly one child per file that is read and parsed, in walk order. A file that fails leaves nothing. |
| Sprite.RemoveAttributes | src/main.rs:217-219 | The `for` loop removes exactly the listed attributes. |
| Sprite.PushSurvivors | src/main.rs:199-223 | The two filters plus the per-child attribute removal push exactly the survivors, in order. |
| Sprite.Transform | src/main.rs:188-227 | Building the new element gives `Transformed`. |
| Sprite.Merge | src/main.rs:177-232 | The output is the namespaced `svg` root whose children are the assembled elements. |
| Sprite.BuildSprite | src/main.rs:167-232 | A failed walk yields its error and no sprite at all. Otherwise the result is the merged sprite of what the walk collected. |
| UniqueIds.PushedNamedAfter | src/main.rs:60-84 | When every directory name is valid UTF-8, the names of each appended file are the components of its location below the input, the last without ".svg". |
| UniqueIds.NamesDetermineFile | src/main.rs:60-67 | Two files named after their locations below the same path, with equal names, are the same file. |
| UniqueIds.SameIdSameFile | src/main.rs:227 | When every directory name is valid UTF-8 and no name contains the separator's first character, two collected files with the same identifier are the same file. |
| Scenarios.WalkOfIcons | src/main.rs:43-89 | A recursive walk of `icons` holding `a-b.svg` and `a/b.svg` collects `a-b.svg` first, then `a/b.svg`. |
| Scenarios.CollidingIds | src/main.rs:227 | In that walk the two files get the same identifier "a-b". |
| Scenarios.NonUtf8CollidingIds | src/main.rs:76-84 | In a tree whose listings hold distinct names, `x.svg` beside a directory whose name is not valid UTF-8 and `x.svg` inside it are both collected, and both get the identifier "x". |
| Scenarios.TransformOfArrow | src/main.rs:188-227 | An `svg` root with a `viewBox` and one `path`, under default options, becomes a `symbol` with that `viewBox`, the `id` "arrow" and the same `path`. |
| Scenarios.ArrowRoundTrip | src/main.rs:167-232 | `icons/arrow.svg`, walked and merged with default options, gives exactly that one `symbol`. |

## Left out

- Command-line parsing and its defaults (src/main.rs:91-165). It is library configuration. The options arrive as a `Sprite.Options` value, and only the tag selection is modelled.
- Real filesystem calls are left out: `is_dir`, `read_dir`, `read_to_string`, `File::create`. The filesystem is a finite tree, so symbolic links, cycles and directories that change during the walk are not modelled.
- `is_dir` failing on a listing entry is not modelled. The program then treats a directory whose metadata cannot be read as a file. In the model, each entry's kind is fixed.
- The XML parser and the emitter are not modelled: `Element::parse`, and `write_with_config` with indentation. Parsing is the `parse` parameter. Serialising the result is not modelled.
- Attributes are a map, so the order in which attributes are written out is not modelled.
- Only two outcomes of OS string conversion are modelled. File names are strings after lossy conversion. For directories, only "the name is / is not valid UTF-8" is kept.
- Entry names are single path components, never "." or "..". For such names the file-name lookup behind `file_name` and `file_stem` always succeeds.
- `SVGFile::print` (src/main.rs:26-28) is not modelled. It is a stub that writes a constant.
- Choosing the output (standard output or a file) and printing errors (src/main.rs:171-175, 234-256) are not modelled. They are input/output plumbing. `Sprite.BuildSprite` returns the walk error instead of printing it.
- `Namespace::put` keeps an existing prefix rather than overwriting it. The two prefixes of the output root are distinct, so the root is a constant.
- `WalkerProperties.WalkedFound` gives which files are collected, not how often. Multiplicity is stated by `WalkerProperties.WalkedOnce`, which needs distinct names within each listing. The model's listings may repeat a name; a real directory's cannot.
