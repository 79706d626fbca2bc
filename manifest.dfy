/**
 * builder/manifest.py: the manifest tree of the vault.
 *
 * The vault is an abstract directory tree. A directory becomes a manifest
 * node when it is not a `graphics` directory and holds a README; its
 * Markdown files become file nodes and its eligible sub-directories
 * become child nodes, all in the order of their lower-cased names.
 */
module Manifest {

  import opened Wrappers
  import opened Strings
  import opened Utils

  const README_NAME := "README.md"
  const MARKDOWN_SUFFIX := ".md"
  const GRAPHICS_DIR_NAME := "graphics"

  /** A directory entry as `iterdir` lists it: a directory with its children, or a file. */
  datatype Entry = Directory(name: string, children: seq<Entry>) | File(name: string)

  /** A breadcrumb: `{"title": ..., "slugPath": ...}`, whose slug path may be missing. */
  datatype Crumb = Crumb(title: string, slugPath: Option<string>)

  datatype Readme = Readme(source: string, html: string)

  datatype FileNode = FileNode(
    name: string, title: string, slug: string, slugPath: string,
    source: string, html: string, breadcrumbs: seq<Crumb>)

  datatype DirNode = DirNode(
    name: string, title: string, slug: string, slugPath: string,
    readme: Readme, breadcrumbs: seq<Crumb>,
    directories: seq<DirNode>, files: seq<FileNode>)

  // ------------------------------------------------------------ file names

  /** The index of the last `c` in `s` (`str.rfind`). */
  function LastIndexOf(s: string, c: char): (r: Option<nat>)
    ensures r.Some? ==> r.value < |s| && s[r.value] == c && c !in s[r.value + 1..]
    ensures r.None? ==> c !in s
    decreases |s|
  {
    if s == [] then None
    else if s[|s| - 1] == c then Some(|s| - 1)
    else
      var r := LastIndexOf(s[..|s| - 1], c);
      assert s == s[..|s| - 1] + [s[|s| - 1]];
      if r.Some? then
        assert s[r.value + 1..] == s[..|s| - 1][r.value + 1..] + [s[|s| - 1]];
        r
      else None
  }

  /** Where `Path.suffix` starts: the last `.`, unless it begins or ends the name. */
  function SuffixStart(name: string): (i: nat)
    ensures i <= |name|
  {
    match LastIndexOf(name, '.')
    case Some(i) => if 0 < i < |name| - 1 then i else |name|
    case None => |name|
  }

  /** `Path.suffix` */
  function Suffix(name: string): string {
    name[SuffixStart(name)..]
  }

  /** `Path.stem` */
  function Stem(name: string): string {
    name[..SuffixStart(name)]
  }

  /** The stem and the suffix put together are the name, and a suffix is a dot and at least one more character with no dot. */
  lemma StemSuffix(name: string)
    ensures Stem(name) + Suffix(name) == name
    ensures var x := Suffix(name);
      x == [] || (|x| >= 2 && x[0] == '.' && '.' !in x[1..] && Stem(name) != [])
  {
    assert name[..SuffixStart(name)] + name[SuffixStart(name)..] == name;
  }

  /** A name with a dot after the first character and before the last has the text after its last dot as suffix. */
  lemma SuffixOf(stem: string, ext: string)
    requires stem != [] && ext != [] && '.' !in ext
    ensures Suffix(stem + "." + ext) == "." + ext
    ensures Stem(stem + "." + ext) == stem
  {
    var name := stem + "." + ext;
    assert name[|stem|] == '.';
    assert name[|stem| + 1..] == ext;
    LastIndexOfAt(name, '.', |stem|);
    assert name[|stem|..] == "." + ext;
    assert name[..|stem|] == stem;
  }

  /** An occurrence of `c` with none after it is the one `LastIndexOf` finds. */
  lemma LastIndexOfAt(s: string, c: char, i: nat)
    requires i < |s| && s[i] == c && c !in s[i + 1..]
    ensures LastIndexOf(s, c) == Some(i)
  {
    var r := LastIndexOf(s, c);
    assert s[i] in s;
    forall j | i < j < |s| ensures s[j] != c {
      assert s[j] == s[i + 1..][j - i - 1];
    }
    if r.Some? {
      forall j | r.value < j < |s| ensures s[j] != c {
        assert s[j] == s[r.value + 1..][j - r.value - 1];
      }
    }
  }

  /** A README, matched case-insensitively. */
  predicate IsReadme(name: string) {
    Lower(name) == Lower(README_NAME)
  }

  /** A Markdown file: the lower-cased suffix is `.md`. */
  predicate IsMarkdown(name: string) {
    Lower(Suffix(name)) == MARKDOWN_SUFFIX
  }

  /** `find_readme`: the name of the first file child that is a README. */
  function FindReadme(children: seq<Entry>): (r: Option<string>)
    ensures r.Some? ==> IsReadme(r.value) && File(r.value) in children
    ensures r.None? ==> forall c :: c in children && c.File? ==> !IsReadme(c.name)
    decreases |children|
  {
    if children == [] then None
    else if children[0].File? && IsReadme(children[0].name) then Some(children[0].name)
    else FindReadme(children[1..])
  }

  /** `convert_markdown_file`, without its I/O: the relative path of the HTML it writes. */
  function ConvertMarkdownFile(relDir: seq<string>, name: string): (html: string)
  {
    PosixPath(relDir + [Stem(name) + ".html"])
  }

  /** The HTML path names the stem of the Markdown file, beside it. */
  lemma ConvertedPath(relDir: seq<string>, stem: string)
    requires stem != [] && '/' !in stem
    requires forall i :: 0 <= i < |relDir| ==> '/' !in relDir[i]
    ensures Split(ConvertMarkdownFile(relDir, stem + ".md"), '/') == relDir + [stem + ".html"]
  {
    SuffixOf(stem, "md");
    assert stem + ".md" == stem + "." + "md";
    var parts := relDir + [stem + ".html"];
    assert '/' !in ".html";
    PosixPathRoundTrip(parts);
  }

  // --------------------------------------------------------------- sorting

  /** The sort key of `sorted(..., key=lambda p: p.name.lower())`. */
  function Key(e: Entry): string {
    Lower(e.name)
  }

  predicate SortedByKey(s: seq<Entry>) {
    forall i, j :: 0 <= i < j < |s| ==> LexLe(Key(s[i]), Key(s[j]))
  }

  /** Puts `x` before the first element whose key is not below its own. */
  function Insert(x: Entry, s: seq<Entry>): (r: seq<Entry>)
    ensures multiset(r) == multiset(s) + multiset{x}
    decreases |s|
  {
    if s == [] || LexLe(Key(x), Key(s[0])) then [x] + s
    else
      assert s == [s[0]] + s[1..];
      [s[0]] + Insert(x, s[1..])
  }

  lemma {:induction false} InsertSorted(x: Entry, s: seq<Entry>)
    requires SortedByKey(s)
    ensures SortedByKey(Insert(x, s))
    decreases |s|
  {
    if s == [] || LexLe(Key(x), Key(s[0])) {
      forall j | 0 <= j < |s| ensures LexLe(Key(x), Key(s[j])) {
        if j > 0 {
          LexLeTrans(Key(x), Key(s[0]), Key(s[j]));
        }
      }
      SortedCons(x, s);
    } else {
      var t := Insert(x, s[1..]);
      InsertSorted(x, s[1..]);
      LexLeTotal(Key(x), Key(s[0]));
      forall j | 0 <= j < |t| ensures LexLe(Key(s[0]), Key(t[j])) {
        var y := t[j];
        assert y in multiset(t);
        if y != x {
          assert y in multiset(s[1..]);
          var k :| 0 <= k < |s[1..]| && s[1..][k] == y;
          assert s[k + 1] == y;
        }
      }
      SortedCons(s[0], t);
    }
  }

  /** An element whose key is below every key of a sorted sequence can go in front of it. */
  lemma SortedCons(x: Entry, s: seq<Entry>)
    requires SortedByKey(s)
    requires forall j :: 0 <= j < |s| ==> LexLe(Key(x), Key(s[j]))
    ensures SortedByKey([x] + s)
  {
    var r := [x] + s;
    forall i, j | 0 <= i < j < |r| ensures LexLe(Key(r[i]), Key(r[j])) {
      assert r[j] == s[j - 1];
      if i > 0 {
        assert r[i] == s[i - 1];
      }
    }
  }

  /** `sorted(children, key=lambda p: p.name.lower())`, a stable insertion sort. */
  function SortByName(s: seq<Entry>): (r: seq<Entry>)
    ensures multiset(r) == multiset(s) && |r| == |s|
    ensures SortedByKey(r)
    decreases |s|
  {
    if s == [] then []
    else
      assert s == [s[0]] + s[1..];
      InsertSorted(s[0], SortByName(s[1..]));
      Insert(s[0], SortByName(s[1..]))
  }

  // ----------------------------------------------------------- breadcrumbs

  predicate AllPresent(chain: seq<Crumb>) {
    forall i :: 0 <= i < |chain| ==> chain[i].slugPath.Some?
  }

  /** `build_breadcrumbs`: the crumbs whose slug path is present, in order. */
  function BuildBreadcrumbs(chain: seq<Crumb>): (r: seq<Crumb>)
    ensures AllPresent(r)
    ensures forall c :: c in r <==> c in chain && c.slugPath.Some?
    ensures |r| <= |chain|
    decreases |chain|
  {
    if chain == [] then []
    else (if chain[0].slugPath.Some? then [chain[0]] else []) + BuildBreadcrumbs(chain[1..])
  }

  /** Filtering distributes over concatenation: the crumbs keep their order. */
  lemma {:induction false} BreadcrumbsConcat(a: seq<Crumb>, b: seq<Crumb>)
    ensures BuildBreadcrumbs(a + b) == BuildBreadcrumbs(a) + BuildBreadcrumbs(b)
    decreases |a|
  {
    if a == [] {
      assert a + b == b;
    } else {
      assert (a + b)[0] == a[0];
      assert (a + b)[1..] == a[1..] + b;
      BreadcrumbsConcat(a[1..], b);
    }
  }

  /** A chain whose crumbs are all present is kept whole. */
  lemma {:induction false} BreadcrumbsKeepPresent(chain: seq<Crumb>)
    requires AllPresent(chain)
    ensures BuildBreadcrumbs(chain) == chain
    decreases |chain|
  {
    if chain != [] {
      BreadcrumbsKeepPresent(chain[1..]);
      assert chain == [chain[0]] + chain[1..];
    }
  }

  lemma BreadcrumbsIdempotent(chain: seq<Crumb>)
    ensures BuildBreadcrumbs(BuildBreadcrumbs(chain)) == BuildBreadcrumbs(chain)
  {
    BreadcrumbsKeepPresent(BuildBreadcrumbs(chain));
  }

  // ---------------------------------------------------------- the tree

  /**
   * `build_directory(ctx, e, segs, chain)` as a value: `relDir` is the
   * directory's path below the vault root, `segs` the slug segments and
   * `chain` the ancestors' crumbs.
   */
  function BuildDir(e: Entry, relDir: seq<string>, segs: seq<string>, chain: seq<Crumb>): (r: Option<DirNode>)
    requires e.Directory?
    ensures r.Some? <==> Lower(e.name) != GRAPHICS_DIR_NAME && FindReadme(e.children).Some?
    ensures r.Some? ==> r.value.name == e.name
    decreases e, 2
  {
    if Lower(e.name) == GRAPHICS_DIR_NAME then None
    else
      match FindReadme(e.children)
      case None => None
      case Some(readme) =>
        var title := DeriveTitle(if segs == [] then "Notes" else e.name);
        var slugPath := Join(segs, "/");
        var crumbs := chain + [Crumb(title, Some(slugPath))];
        var children := SortByName(e.children);
        Some(DirNode(
          e.name, title, if segs == [] then "" else Slugify(e.name), slugPath,
          Readme(PosixPath(relDir + [README_NAME]), ConvertMarkdownFile(relDir, readme)),
          BuildBreadcrumbs(chain),
          Present(ChildNodes(e, relDir, segs, crumbs)),
          ChildFiles(children, relDir, segs, crumbs)))
  }

  /** The sorted children are children. */
  lemma SortedChildWithin(e: Entry, k: nat)
    requires e.Directory? && k < |e.children|
    ensures SortByName(e.children)[k] in e.children
  {
    var children := SortByName(e.children);
    assert children[k] in multiset(children);
  }

  /** What the recursive call makes of the `j`-th sorted child: nothing for a file. */
  function ChildNode(parent: Entry, j: nat, relDir: seq<string>, segs: seq<string>, crumbs: seq<Crumb>): (r: Option<DirNode>)
    requires parent.Directory? && j < |parent.children|
    ensures r.Some? ==> r.value.name == SortByName(parent.children)[j].name
    decreases parent, 0
  {
    var c := SortByName(parent.children)[j];
    SortedChildWithin(parent, j);
    if c.Directory? then BuildDir(c, relDir + [c.name], segs + [Slugify(c.name)], crumbs) else None
  }

  /** The recursive results for all sorted children, in order. */
  function ChildNodes(parent: Entry, relDir: seq<string>, segs: seq<string>, crumbs: seq<Crumb>): (r: seq<Option<DirNode>>)
    requires parent.Directory?
    ensures |r| == |parent.children|
    decreases parent, 1
  {
    seq(|parent.children|, j requires 0 <= j < |parent.children| => ChildNode(parent, j, relDir, segs, crumbs))
  }

  /** The nodes that are there, in order (`if child_manifest: directory_children.append(...)`). */
  function Present(rs: seq<Option<DirNode>>): seq<DirNode>
    decreases |rs|
  {
    if rs == [] then []
    else Present(rs[..|rs| - 1]) + (if rs[|rs| - 1].Some? then [rs[|rs| - 1].value] else [])
  }

  lemma PresentStep(rs: seq<Option<DirNode>>, i: nat)
    requires i < |rs|
    ensures Present(rs[..i + 1]) == Present(rs[..i]) + (if rs[i].Some? then [rs[i].value] else [])
  {
    assert rs[..i + 1][..i] == rs[..i];
  }

  /** A node is listed exactly when some result holds it. */
  lemma {:induction false} PresentMembers(rs: seq<Option<DirNode>>)
    ensures forall j :: 0 <= j < |rs| && rs[j].Some? ==> rs[j].value in Present(rs)
    ensures forall d :: d in Present(rs) ==> exists j :: 0 <= j < |rs| && rs[j] == Some(d)
    decreases |rs|
  {
    if rs != [] {
      var init := rs[..|rs| - 1];
      PresentMembers(init);
      assert forall j :: 0 <= j < |init| ==> init[j] == rs[j];
    }
  }

  /** Results named after children in name order are listed in name order. */
  lemma {:induction false} PresentSorted(rs: seq<Option<DirNode>>, cs: seq<Entry>)
    requires |rs| == |cs| && SortedByKey(cs)
    requires forall j :: 0 <= j < |rs| && rs[j].Some? ==> rs[j].value.name == cs[j].name
    ensures DirsSorted(Present(rs))
    decreases |rs|
  {
    if rs != [] {
      var n := |rs| - 1;
      var init, cinit := rs[..n], cs[..n];
      assert forall j :: 0 <= j < n ==> init[j] == rs[j] && cinit[j] == cs[j];
      PresentSorted(init, cinit);
      PresentMembers(init);
      var before := Present(init);
      var ds := Present(rs);
      if rs[n].Some? {
        forall i | 0 <= i < |before| ensures LexLe(Lower(before[i].name), Key(cs[n])) {
          var j :| 0 <= j < n && init[j] == Some(before[i]);
        }
        forall i, j | 0 <= i < j < |ds| ensures LexLe(Lower(ds[i].name), Lower(ds[j].name)) {
          if j == |before| {
            assert ds[i] == before[i];
          } else {
            assert ds[i] == before[i] && ds[j] == before[j];
          }
        }
      }
    }
  }

  /** The file node of a Markdown file that is not the README. */
  function FileNodeOf(name: string, relDir: seq<string>, segs: seq<string>, crumbs: seq<Crumb>): FileNode {
    var stem := Stem(name);
    FileNode(
      name, DeriveTitle(stem), Slugify(stem), Join(segs + [Slugify(stem)], "/"),
      PosixPath(relDir + [name]), ConvertMarkdownFile(relDir, name),
      BuildBreadcrumbs(crumbs))
  }

  /** The file nodes of the Markdown files among `cs` that are not READMEs, in the order of `cs`. */
  function ChildFiles(cs: seq<Entry>, relDir: seq<string>, segs: seq<string>, crumbs: seq<Crumb>): (r: seq<FileNode>)
    decreases |cs|
  {
    if cs == [] then []
    else
      var c := cs[|cs| - 1];
      var before := ChildFiles(cs[..|cs| - 1], relDir, segs, crumbs);
      if c.File? && !IsReadme(c.name) && IsMarkdown(c.name) then
        before + [FileNodeOf(c.name, relDir, segs, crumbs)]
      else before
  }

  lemma ChildFilesStep(cs: seq<Entry>, i: nat, relDir: seq<string>, segs: seq<string>, crumbs: seq<Crumb>)
    requires i < |cs|
    ensures var c := cs[i];
      ChildFiles(cs[..i + 1], relDir, segs, crumbs) ==
        ChildFiles(cs[..i], relDir, segs, crumbs)
        + (if c.File? && !IsReadme(c.name) && IsMarkdown(c.name) then [FileNodeOf(c.name, relDir, segs, crumbs)] else [])
  {
    assert cs[..i + 1][..i] == cs[..i];
  }

  lemma BuildDirUnfold(e: Entry, relDir: seq<string>, segs: seq<string>, chain: seq<Crumb>)
    requires e.Directory? && Lower(e.name) != GRAPHICS_DIR_NAME && FindReadme(e.children).Some?
    ensures var title := DeriveTitle(if segs == [] then "Notes" else e.name);
      var slugPath := Join(segs, "/");
      var crumbs := chain + [Crumb(title, Some(slugPath))];
      BuildDir(e, relDir, segs, chain) == Some(DirNode(
          e.name, title, if segs == [] then "" else Slugify(e.name), slugPath,
          Readme(PosixPath(relDir + [README_NAME]), ConvertMarkdownFile(relDir, FindReadme(e.children).value)),
          BuildBreadcrumbs(chain),
          Present(ChildNodes(e, relDir, segs, crumbs)),
          ChildFiles(SortByName(e.children), relDir, segs, crumbs)))
  {
  }

  /** `build_directory`, with the copying and the writing of HTML left out. */
  method BuildDirectory(directory: Entry, relDir: seq<string>, slugSegments: seq<string>, ancestorChain: seq<Crumb>)
    returns (r: Option<DirNode>)
    requires directory.Directory?
    ensures r == BuildDir(directory, relDir, slugSegments, ancestorChain)
    decreases directory, 1
  {
    var isRoot := slugSegments == [];
    if Lower(directory.name) == GRAPHICS_DIR_NAME {
      return None;
    }
    var readmePath := FindReadme(directory.children);
    if readmePath.None? {
      return None;
    }
    var readmeHtml := ConvertMarkdownFile(relDir, readmePath.value);
    var title := DeriveTitle(if !isRoot then directory.name else "Notes");
    var slugPath := Join(slugSegments, "/");
    var currentCrumb := Crumb(title, Some(slugPath));
    var breadcrumbs := BuildBreadcrumbs(ancestorChain);
    var crumbs := ancestorChain + [currentCrumb];
    var directoryChildren, fileChildren := BuildChildren(directory, relDir, slugSegments, crumbs);
    BuildDirUnfold(directory, relDir, slugSegments, ancestorChain);
    return Some(DirNode(
      directory.name, title, if !isRoot then Slugify(directory.name) else "", slugPath,
      Readme(PosixPath(relDir + [README_NAME]), readmeHtml),
      breadcrumbs, directoryChildren, fileChildren));
  }

  /**
   * The loop of `build_directory_manifest` over the sorted children: the
   * manifests of the subdirectories that have one, and the nodes of the
   * Markdown files other than the README, each list in sorted order.
   */
  method BuildChildren(directory: Entry, relDir: seq<string>, slugSegments: seq<string>, crumbs: seq<Crumb>)
    returns (directoryChildren: seq<DirNode>, fileChildren: seq<FileNode>)
    requires directory.Directory?
    ensures directoryChildren == Present(ChildNodes(directory, relDir, slugSegments, crumbs))
    ensures fileChildren == ChildFiles(SortByName(directory.children), relDir, slugSegments, crumbs)
    decreases directory, 0
  {
    directoryChildren := [];
    fileChildren := [];
    var children := SortByName(directory.children);
    ghost var results := ChildNodes(directory, relDir, slugSegments, crumbs);
    for i := 0 to |children|
      invariant directoryChildren == Present(results[..i])
      invariant fileChildren == ChildFiles(children[..i], relDir, slugSegments, crumbs)
    {
      var child := children[i];
      SortedChildWithin(directory, i);
      PresentStep(results, i);
      ChildFilesStep(children, i, relDir, slugSegments, crumbs);
      assert results[i] == ChildNode(directory, i, relDir, slugSegments, crumbs);
      if child.Directory? {
        var childManifest := BuildDirectory(child, relDir + [child.name], slugSegments + [Slugify(child.name)], crumbs);
        if childManifest.Some? {
          directoryChildren := directoryChildren + [childManifest.value];
        }
      } else {
        if Lower(child.name) == Lower(README_NAME) {
          continue;
        }
        if Lower(Suffix(child.name)) == MARKDOWN_SUFFIX {
          var htmlRelPath := ConvertMarkdownFile(relDir, child.name);
          var stem := Stem(child.name);
          fileChildren := fileChildren + [FileNode(
            child.name, DeriveTitle(stem), Slugify(stem), Join(slugSegments + [Slugify(stem)], "/"),
            PosixPath(relDir + [child.name]), htmlRelPath,
            BuildBreadcrumbs(crumbs))];
        }
      }
    }
    assert children[..|children|] == children;
    assert results[..|results|] == results;
  }

  // ------------------------------------------------------------ the rules

  predicate DirsSorted(ds: seq<DirNode>) {
    forall i, j :: 0 <= i < j < |ds| ==> LexLe(Lower(ds[i].name), Lower(ds[j].name))
  }

  predicate FilesSorted(fs: seq<FileNode>) {
    forall i, j :: 0 <= i < j < |fs| ==> LexLe(Lower(fs[i].name), Lower(fs[j].name))
  }

  /** A file node listed by a directory at `relDir` with slug segments `segs` and crumbs `crumbs`. */
  predicate FileWellFormed(f: FileNode, relDir: seq<string>, segs: seq<string>, crumbs: seq<Crumb>) {
    && IsMarkdown(f.name) && !IsReadme(f.name)
    && f.title == DeriveTitle(Stem(f.name))
    && f.slug == Slugify(Stem(f.name)) && IsSlug(f.slug)
    && f.slugPath == Join(segs + [f.slug], "/")
    && f.source == PosixPath(relDir + [f.name])
    && f.html == PosixPath(relDir + [Stem(f.name) + ".html"])
    && f.breadcrumbs == crumbs
  }

  /**
   * The rules a node's own fields keep: no `graphics` node, the slug path
   * is the join of the slug segments, the root is `""` and "Notes", the
   * README page is the HTML of a README of the directory, and the
   * breadcrumbs are the ancestors.
   */
  ghost predicate FieldsWellFormed(n: DirNode, relDir: seq<string>, segs: seq<string>, chain: seq<Crumb>) {
    && Lower(n.name) != GRAPHICS_DIR_NAME
    && n.slugPath == Join(segs, "/")
    && (segs == [] ==> n.slug == "" && n.slugPath == "" && n.title == "Notes")
    && (segs != [] ==> n.slug == Slugify(n.name) && n.title == DeriveTitle(n.name))
    && n.readme.source == PosixPath(relDir + [README_NAME])
    && (exists name :: IsReadme(name) && n.readme.html == ConvertMarkdownFile(relDir, name))
    && n.breadcrumbs == chain
  }

  /**
   * The rules every node of the manifest keeps: its own fields keep theirs,
   * children are in name order, and each child extends the segments and the
   * crumbs.
   */
  ghost predicate WellFormed(n: DirNode, relDir: seq<string>, segs: seq<string>, chain: seq<Crumb>)
    decreases n
  {
    var crumbs := chain + [Crumb(n.title, Some(n.slugPath))];
    && FieldsWellFormed(n, relDir, segs, chain)
    && DirsSorted(n.directories) && FilesSorted(n.files)
    && (forall f :: f in n.files ==> FileWellFormed(f, relDir, segs, crumbs))
    && (forall d :: d in n.directories ==> WellFormed(d, relDir + [d.name], segs + [Slugify(d.name)], crumbs))
  }

  /** The root's title: `derive_title("Notes")` is "Notes". */
  lemma NotesTitle()
    ensures DeriveTitle("Notes") == "Notes"
  {
    assert NoWordSep("Notes") && IsCapitalised("Notes");
    DeriveTitleOfWord("Notes");
  }

  /** Every node `build_directory` returns keeps the rules, when the ancestors' crumbs all have a slug path. */
  lemma BuildWellFormed(e: Entry, relDir: seq<string>, segs: seq<string>, chain: seq<Crumb>)
    requires e.Directory? && AllPresent(chain) && BuildDir(e, relDir, segs, chain).Some?
    ensures WellFormed(BuildDir(e, relDir, segs, chain).value, relDir, segs, chain)
    decreases e, 3
  {
    BuildFieldsWellFormed(e, relDir, segs, chain);
    BuildChildrenWellFormed(e, relDir, segs, chain);
  }

  /** The fields of a node `build_directory` returns keep their rules. */
  lemma BuildFieldsWellFormed(e: Entry, relDir: seq<string>, segs: seq<string>, chain: seq<Crumb>)
    requires e.Directory? && AllPresent(chain) && BuildDir(e, relDir, segs, chain).Some?
    ensures FieldsWellFormed(BuildDir(e, relDir, segs, chain).value, relDir, segs, chain)
  {
    var n := BuildDir(e, relDir, segs, chain).value;
    var crumbs := chain + [Crumb(n.title, Some(n.slugPath))];
    BuildDirUnfold(e, relDir, segs, chain);
    BreadcrumbsKeepPresent(chain);
    if segs == [] {
      NotesTitle();
    }
    var readme := FindReadme(e.children).value;
    assert IsReadme(readme) && n.readme.html == ConvertMarkdownFile(relDir, readme);
  }

  /** The children of a node `build_directory` returns are sorted and keep the rules. */
  lemma BuildChildrenWellFormed(e: Entry, relDir: seq<string>, segs: seq<string>, chain: seq<Crumb>)
    requires e.Directory? && AllPresent(chain) && BuildDir(e, relDir, segs, chain).Some?
    ensures var n := BuildDir(e, relDir, segs, chain).value;
      var crumbs := chain + [Crumb(n.title, Some(n.slugPath))];
      && DirsSorted(n.directories) && FilesSorted(n.files)
      && (forall f :: f in n.files ==> FileWellFormed(f, relDir, segs, crumbs))
      && (forall d :: d in n.directories ==> WellFormed(d, relDir + [d.name], segs + [Slugify(d.name)], crumbs))
    decreases e, 2
  {
    var n := BuildDir(e, relDir, segs, chain).value;
    var children := SortByName(e.children);
    var crumbs := chain + [Crumb(n.title, Some(n.slugPath))];
    var rs := ChildNodes(e, relDir, segs, crumbs);
    BuildDirUnfold(e, relDir, segs, chain);
    assert AllPresent(crumbs);
    ChildNodesWellFormed(e, relDir, segs, crumbs);
    PresentSorted(rs, children);
    ChildFilesWellFormed(children, relDir, segs, crumbs);
    ChildFilesSorted(children, relDir, segs, crumbs);
  }

  /** The nodes made of the sub-directories keep the rules. */
  lemma ChildNodesWellFormed(e: Entry, relDir: seq<string>, segs: seq<string>, crumbs: seq<Crumb>)
    requires e.Directory? && AllPresent(crumbs)
    ensures forall d :: d in Present(ChildNodes(e, relDir, segs, crumbs)) ==>
      WellFormed(d, relDir + [d.name], segs + [Slugify(d.name)], crumbs)
    decreases e, 1
  {
    var rs := ChildNodes(e, relDir, segs, crumbs);
    PresentMembers(rs);
    forall d | d in Present(rs) ensures WellFormed(d, relDir + [d.name], segs + [Slugify(d.name)], crumbs) {
      var j :| 0 <= j < |rs| && rs[j] == Some(d);
      assert rs[j] == ChildNode(e, j, relDir, segs, crumbs);
      ChildWellFormed(e, j, relDir, segs, crumbs);
    }
  }

  /** The node made of the `j`-th sorted child, if any, keeps the rules. */
  lemma ChildWellFormed(e: Entry, j: nat, relDir: seq<string>, segs: seq<string>, crumbs: seq<Crumb>)
    requires e.Directory? && j < |e.children| && AllPresent(crumbs)
    ensures var r := ChildNode(e, j, relDir, segs, crumbs);
      r.Some? ==> WellFormed(r.value, relDir + [r.value.name], segs + [Slugify(r.value.name)], crumbs)
    decreases e, 0
  {
    var c := SortByName(e.children)[j];
    SortedChildWithin(e, j);
    if c.Directory? && ChildNode(e, j, relDir, segs, crumbs).Some? {
      BuildWellFormed(c, relDir + [c.name], segs + [Slugify(c.name)], crumbs);
    }
  }

  lemma {:induction false} ChildFilesWellFormed(cs: seq<Entry>, relDir: seq<string>, segs: seq<string>, crumbs: seq<Crumb>)
    requires AllPresent(crumbs)
    ensures forall f :: f in ChildFiles(cs, relDir, segs, crumbs) ==> FileWellFormed(f, relDir, segs, crumbs)
    decreases |cs|
  {
    if cs != [] {
      ChildFilesWellFormed(cs[..|cs| - 1], relDir, segs, crumbs);
      BreadcrumbsKeepPresent(crumbs);
    }
  }

  lemma {:induction false} ChildFilesBelow(cs: seq<Entry>, key: string, relDir: seq<string>, segs: seq<string>, crumbs: seq<Crumb>)
    requires forall j :: 0 <= j < |cs| ==> LexLe(Key(cs[j]), key)
    ensures forall f :: f in ChildFiles(cs, relDir, segs, crumbs) ==> LexLe(Lower(f.name), key)
    decreases |cs|
  {
    if cs != [] {
      ChildFilesBelow(cs[..|cs| - 1], key, relDir, segs, crumbs);
    }
  }

  lemma {:induction false} ChildFilesSorted(cs: seq<Entry>, relDir: seq<string>, segs: seq<string>, crumbs: seq<Crumb>)
    requires SortedByKey(cs)
    ensures FilesSorted(ChildFiles(cs, relDir, segs, crumbs))
    decreases |cs|
  {
    if cs != [] {
      var init := cs[..|cs| - 1];
      var key := Key(cs[|cs| - 1]);
      ChildFilesSorted(init, relDir, segs, crumbs);
      ChildFilesBelow(init, key, relDir, segs, crumbs);
      var before := ChildFiles(init, relDir, segs, crumbs);
      var fs := ChildFiles(cs, relDir, segs, crumbs);
      if |fs| > |before| {
        forall i, j | 0 <= i < j < |fs| ensures LexLe(Lower(fs[i].name), Lower(fs[j].name)) {
          if j == |before| {
            assert fs[i] == before[i] && fs[i] in before;
          } else {
            assert fs[i] == before[i] && fs[j] == before[j];
          }
        }
      }
    }
  }

  /** The file nodes are exactly those of the Markdown files that are not READMEs. */
  lemma {:induction false} ChildFilesExactly(cs: seq<Entry>, relDir: seq<string>, segs: seq<string>, crumbs: seq<Crumb>)
    ensures forall c :: c in cs && c.File? && !IsReadme(c.name) && IsMarkdown(c.name) ==>
      FileNodeOf(c.name, relDir, segs, crumbs) in ChildFiles(cs, relDir, segs, crumbs)
    ensures forall f :: f in ChildFiles(cs, relDir, segs, crumbs) ==>
      File(f.name) in cs && !IsReadme(f.name) && IsMarkdown(f.name)
    decreases |cs|
  {
    if cs != [] {
      var init := cs[..|cs| - 1];
      ChildFilesExactly(init, relDir, segs, crumbs);
      assert cs == init + [cs[|cs| - 1]];
    }
  }

  /** A sub-directory that is not `graphics` and holds a README. */
  predicate Eligible(c: Entry) {
    c.Directory? && Lower(c.name) != GRAPHICS_DIR_NAME && FindReadme(c.children).Some?
  }

  /**
   * The manifest lists every Markdown file of the directory except its
   * README, and every sub-directory that is not `graphics` and holds a
   * README; it lists nothing else.
   */
  lemma NodeChildren(e: Entry, relDir: seq<string>, segs: seq<string>, chain: seq<Crumb>)
    requires e.Directory? && BuildDir(e, relDir, segs, chain).Some?
    ensures var n := BuildDir(e, relDir, segs, chain).value;
      var crumbs := chain + [Crumb(n.title, Some(n.slugPath))];
      && (forall c :: c in e.children && c.File? && !IsReadme(c.name) && IsMarkdown(c.name) ==>
            FileNodeOf(c.name, relDir, segs, crumbs) in n.files)
      && (forall f :: f in n.files ==> File(f.name) in e.children && !IsReadme(f.name) && IsMarkdown(f.name))
      && (forall c :: c in e.children && Eligible(c) ==>
            BuildDir(c, relDir + [c.name], segs + [Slugify(c.name)], crumbs).value in n.directories)
      && (forall d :: d in n.directories ==>
            (exists c :: c in e.children && Eligible(c) &&
               BuildDir(c, relDir + [c.name], segs + [Slugify(c.name)], crumbs) == Some(d)))
  {
    NodeChildFiles(e, relDir, segs, chain);
    NodeChildDirectories(e, relDir, segs, chain);
  }

  /** The file half of `NodeChildren`. */
  lemma NodeChildFiles(e: Entry, relDir: seq<string>, segs: seq<string>, chain: seq<Crumb>)
    requires e.Directory? && BuildDir(e, relDir, segs, chain).Some?
    ensures var n := BuildDir(e, relDir, segs, chain).value;
      var crumbs := chain + [Crumb(n.title, Some(n.slugPath))];
      && (forall c :: c in e.children && c.File? && !IsReadme(c.name) && IsMarkdown(c.name) ==>
            FileNodeOf(c.name, relDir, segs, crumbs) in n.files)
      && (forall f :: f in n.files ==> File(f.name) in e.children && !IsReadme(f.name) && IsMarkdown(f.name))
  {
    var n := BuildDir(e, relDir, segs, chain).value;
    var crumbs := chain + [Crumb(n.title, Some(n.slugPath))];
    var children := SortByName(e.children);
    BuildDirUnfold(e, relDir, segs, chain);
    ChildFilesExactly(children, relDir, segs, crumbs);
    forall c | c in e.children ensures c in children {
      assert c in multiset(e.children);
    }
    forall f | f in n.files ensures File(f.name) in e.children {
      assert File(f.name) in multiset(children);
    }
  }

  /** The directory half of `NodeChildren`. */
  lemma NodeChildDirectories(e: Entry, relDir: seq<string>, segs: seq<string>, chain: seq<Crumb>)
    requires e.Directory? && BuildDir(e, relDir, segs, chain).Some?
    ensures var n := BuildDir(e, relDir, segs, chain).value;
      var crumbs := chain + [Crumb(n.title, Some(n.slugPath))];
      && (forall c :: c in e.children && Eligible(c) ==>
            BuildDir(c, relDir + [c.name], segs + [Slugify(c.name)], crumbs).value in n.directories)
      && (forall d :: d in n.directories ==>
            (exists c :: c in e.children && Eligible(c) &&
               BuildDir(c, relDir + [c.name], segs + [Slugify(c.name)], crumbs) == Some(d)))
  {
    var n := BuildDir(e, relDir, segs, chain).value;
    var crumbs := chain + [Crumb(n.title, Some(n.slugPath))];
    var children := SortByName(e.children);
    var rs := ChildNodes(e, relDir, segs, crumbs);
    BuildDirUnfold(e, relDir, segs, chain);
    PresentMembers(rs);
    forall c | c in e.children ensures c in children {
      assert c in multiset(e.children);
    }
    forall c | c in e.children && Eligible(c)
      ensures BuildDir(c, relDir + [c.name], segs + [Slugify(c.name)], crumbs).value in n.directories
    {
      var j :| 0 <= j < |children| && children[j] == c;
      assert rs[j] == ChildNode(e, j, relDir, segs, crumbs);
    }
    forall d | d in n.directories
      ensures (exists c :: c in e.children && Eligible(c) &&
                 BuildDir(c, relDir + [c.name], segs + [Slugify(c.name)], crumbs) == Some(d))
    {
      var j :| 0 <= j < |rs| && rs[j] == Some(d);
      var c := children[j];
      SortedChildWithin(e, j);
      assert rs[j] == ChildNode(e, j, relDir, segs, crumbs);
      assert c.Directory?;
    }
  }

  /** A directory named `graphics`, in any case, yields no node, and no more does one without a README. */
  lemma Ineligible(e: Entry, relDir: seq<string>, segs: seq<string>, chain: seq<Crumb>)
    requires e.Directory?
    requires Lower(e.name) == GRAPHICS_DIR_NAME || forall c :: c in e.children && c.File? ==> !IsReadme(c.name)
    ensures BuildDir(e, relDir, segs, chain) == None
  {
  }
}
