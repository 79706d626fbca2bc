/**
 * Image references resolved the way Obsidian resolves them: the direct
 * path first, then the same directory (with an `.excalidraw` fallback),
 * then a `graphics/` directory in the current directory and in every
 * ancestor up to the vault root. The file system is a set of existing
 * file paths, each a sequence of segments below `/`.
 */
module Assets {

  import opened Wrappers
  import opened Strings
  import opened Utils
  import opened Manifest

  const EXCALIDRAW_SUFFIX := ".excalidraw"

  /** One lookup: the name, as written, joined to a directory. */
  datatype Probe = Probe(dir: seq<string>, name: string)

  /**
   * `(dir / name).resolve()` over lexically normalised paths: a name
   * starting with `/` replaces the directory, as `pathlib` does.
   */
  function Target(p: Probe): seq<string> {
    var parts := Split(p.name, '/');
    if p.name != [] && p.name[0] == '/' then Walk([], parts) else Walk(p.dir, parts)
  }

  /** `candidate.exists() and candidate.is_file() and is_within(candidate, source_root)` */
  predicate Found(files: set<seq<string>>, root: seq<string>, path: seq<string>) {
    path in files && IsWithin(path, root)
  }

  /** The target of the first probe that finds a file. */
  function FirstMatch(files: set<seq<string>>, root: seq<string>, ps: seq<Probe>): (r: Option<seq<string>>)
    ensures r.Some? ==> Found(files, root, r.value)
    ensures r.Some? ==> (exists i :: 0 <= i < |ps| && r.value == Target(ps[i]) &&
                           forall j :: 0 <= j < i ==> !Found(files, root, Target(ps[j])))
    ensures r.None? ==> forall i :: 0 <= i < |ps| ==> !Found(files, root, Target(ps[i]))
    decreases |ps|
  {
    if ps == [] then None
    else if Found(files, root, Target(ps[0])) then
      Some(Target(ps[0]))
    else
      var r := FirstMatch(files, root, ps[1..]);
      assert forall i :: 0 < i < |ps| ==> ps[i] == ps[1..][i - 1];
      if r.Some? then
        var i :| 0 <= i < |ps[1..]| && r.value == Target(ps[1..][i]) &&
          forall j :: 0 <= j < i ==> !Found(files, root, Target(ps[1..][j]));
        assert r.value == Target(ps[i + 1]);
        r
      else r
  }

  /** The search over two lists of probes is the search over the first, then the second. */
  lemma {:induction false} FirstMatchConcat(files: set<seq<string>>, root: seq<string>, a: seq<Probe>, b: seq<Probe>)
    ensures FirstMatch(files, root, a + b) ==
      if FirstMatch(files, root, a).Some? then FirstMatch(files, root, a) else FirstMatch(files, root, b)
    decreases |a|
  {
    if a == [] {
      assert a + b == b;
    } else {
      assert (a + b)[0] == a[0];
      assert (a + b)[1..] == a[1..] + b;
      FirstMatchConcat(files, root, a[1..], b);
    }
  }

  /** `f"{ref}.excalidraw"`, tried only when the reference has no `.` (rules 2b and 3b). */
  function Excalidraw(dir: seq<string>, ref: string): (r: seq<Probe>)
    ensures '.' in ref ==> r == []
    ensures '.' !in ref ==> r == [Probe(dir, ref + EXCALIDRAW_SUFFIX)]
  {
    if '.' !in ref then [Probe(dir, ref + EXCALIDRAW_SUFFIX)] else []
  }

  /** The probes of one level of the upward search: `dir/graphics/ref`, then its `.excalidraw` variant. */
  function LevelProbes(dir: seq<string>, ref: string): seq<Probe> {
    var graphicsDir := dir + [GRAPHICS_DIR_NAME];
    [Probe(graphicsDir, ref)] + Excalidraw(graphicsDir, ref)
  }

  /** Below a root that it is not, a directory's parent is still within the root, one level up. */
  lemma ParentWithin(current: seq<string>, root: seq<string>)
    requires IsWithin(current, root) && current != root
    ensures IsWithin(Parent(current), root) && |Parent(current)| == |current| - 1
  {
    assert |root| < |current|;
    assert root == current[..|root|];
    assert Parent(current)[..|root|] == root;
  }

  /** Rule 3: the levels from `current` up to and including `root`, nearest first. */
  function GraphicsProbes(current: seq<string>, root: seq<string>, ref: string): seq<Probe>
    requires IsWithin(current, root)
    decreases |current| - |root|
  {
    LevelProbes(current, ref) +
      if current == root then []
      else
        ParentWithin(current, root);
        GraphicsProbes(Parent(current), root, ref)
  }

  /** All probes in the order the resolver makes them. */
  function Probes(sourceDir: seq<string>, root: seq<string>, ref: string): seq<Probe>
    requires IsWithin(sourceDir, root)
  {
    var direct := Probe(sourceDir, ref);
    [direct] + if '/' in ref then [] else [direct] + Excalidraw(sourceDir, ref) + GraphicsProbes(sourceDir, root, ref)
  }

  /** `resolve_asset_reference` as a value. */
  function Resolve(files: set<seq<string>>, root: seq<string>, sourceDir: seq<string>, reference: string): (r: Option<seq<string>>)
    requires IsWithin(sourceDir, root)
    ensures r.Some? ==> r.value in files && IsWithin(r.value, root)
    ensures var direct := Target(Probe(sourceDir, ReplaceChar(reference, '\\', "/")));
      Found(files, root, direct) ==> r == Some(direct)
  {
    FirstMatch(files, root, Probes(sourceDir, root, ReplaceChar(reference, '\\', "/")))
  }

  /**
   * `resolve_asset_reference`: early returns for the direct, same-directory
   * and `.excalidraw` candidates, then the upward loop over `graphics/`.
   */
  method ResolveAssetReference(files: set<seq<string>>, sourceRoot: seq<string>, sourceDir: seq<string>, reference: string)
    returns (r: Option<seq<string>>)
    requires IsWithin(sourceDir, sourceRoot)
    ensures r == Resolve(files, sourceRoot, sourceDir, reference)
    ensures r.Some? ==> r.value in files && IsWithin(r.value, sourceRoot)
  {
    var normalisedRef := ReplaceChar(reference, '\\', "/");
    ghost var rest := if '/' in normalisedRef then [] else
      [Probe(sourceDir, normalisedRef)] + Excalidraw(sourceDir, normalisedRef) + GraphicsProbes(sourceDir, sourceRoot, normalisedRef);
    FirstMatchConcat(files, sourceRoot, [Probe(sourceDir, normalisedRef)], rest);

    var directCandidate := Target(Probe(sourceDir, normalisedRef));
    if Found(files, sourceRoot, directCandidate) {
      return Some(directCandidate);
    }
    if '/' in normalisedRef {
      return None;
    }
    ghost var plain := Excalidraw(sourceDir, normalisedRef) + GraphicsProbes(sourceDir, sourceRoot, normalisedRef);
    FirstMatchConcat(files, sourceRoot, [Probe(sourceDir, normalisedRef)], plain);
    var candidateInSameDir := Target(Probe(sourceDir, normalisedRef));
    if Found(files, sourceRoot, candidateInSameDir) {
      return Some(candidateInSameDir);
    }
    FirstMatchConcat(files, sourceRoot, Excalidraw(sourceDir, normalisedRef), GraphicsProbes(sourceDir, sourceRoot, normalisedRef));
    if '.' !in normalisedRef {
      var excalidrawCandidate := Target(Probe(sourceDir, normalisedRef + EXCALIDRAW_SUFFIX));
      if Found(files, sourceRoot, excalidrawCandidate) {
        return Some(excalidrawCandidate);
      }
    }

    var currentDir := sourceDir;
    while true
      invariant IsWithin(currentDir, sourceRoot)
      invariant Resolve(files, sourceRoot, sourceDir, reference) ==
        FirstMatch(files, sourceRoot, GraphicsProbes(currentDir, sourceRoot, normalisedRef))
      decreases |currentDir| - |sourceRoot|
    {
      var graphicsDir := currentDir + [GRAPHICS_DIR_NAME];
      if currentDir != sourceRoot {
        ParentWithin(currentDir, sourceRoot);
      }
      ghost var above := if currentDir == sourceRoot then [] else GraphicsProbes(Parent(currentDir), sourceRoot, normalisedRef);
      FirstMatchConcat(files, sourceRoot, [Probe(graphicsDir, normalisedRef)] + Excalidraw(graphicsDir, normalisedRef), above);
      FirstMatchConcat(files, sourceRoot, [Probe(graphicsDir, normalisedRef)], Excalidraw(graphicsDir, normalisedRef));
      var candidateInGraphics := Target(Probe(graphicsDir, normalisedRef));
      if Found(files, sourceRoot, candidateInGraphics) {
        return Some(candidateInGraphics);
      }
      if '.' !in normalisedRef {
        var excalidrawInGraphics := Target(Probe(graphicsDir, normalisedRef + EXCALIDRAW_SUFFIX));
        if Found(files, sourceRoot, excalidrawInGraphics) {
          return Some(excalidrawInGraphics);
        }
      }
      if currentDir == sourceRoot {
        break;
      }
      currentDir := Parent(currentDir);
    }
    return None;
  }

  // ---------------------------------------------------------- the rules

  /** A backslash counts as `/`: the reference and its backslash-free form resolve alike. */
  lemma BackslashesAsSlashes(files: set<seq<string>>, root: seq<string>, sourceDir: seq<string>, reference: string)
    requires IsWithin(sourceDir, root)
    ensures Resolve(files, root, sourceDir, reference) == Resolve(files, root, sourceDir, ReplaceChar(reference, '\\', "/"))
  {
    var n := ReplaceChar(reference, '\\', "/");
    assert '\\' !in n;
    assert ReplaceChar(n, '\\', "/") == n;
  }

  /** A reference with a `/` is tried as a direct path only, with no search after it. */
  lemma SlashDirectOnly(files: set<seq<string>>, root: seq<string>, sourceDir: seq<string>, reference: string)
    requires IsWithin(sourceDir, root)
    requires '/' in ReplaceChar(reference, '\\', "/")
    ensures var direct := Target(Probe(sourceDir, ReplaceChar(reference, '\\', "/")));
      Resolve(files, root, sourceDir, reference) == if Found(files, root, direct) then Some(direct) else None
  {
    var n := ReplaceChar(reference, '\\', "/");
    assert Probes(sourceDir, root, n) == [Probe(sourceDir, n)];
    assert [Probe(sourceDir, n)][1..] == [];
  }

  /** The second look in the same directory (rule 2) repeats the first (rule 1) and never decides the result. */
  lemma SameDirectoryRepeatsDirect(files: set<seq<string>>, root: seq<string>, sourceDir: seq<string>, ref: string)
    requires IsWithin(sourceDir, root)
    ensures var direct := Probe(sourceDir, ref);
      var tail := if '/' in ref then [] else Excalidraw(sourceDir, ref) + GraphicsProbes(sourceDir, root, ref);
      FirstMatch(files, root, Probes(sourceDir, root, ref)) == FirstMatch(files, root, [direct] + tail)
  {
    var direct := Probe(sourceDir, ref);
    if '/' !in ref {
      var tail := Excalidraw(sourceDir, ref) + GraphicsProbes(sourceDir, root, ref);
      assert Probes(sourceDir, root, ref) == [direct] + ([direct] + tail);
      FirstMatchConcat(files, root, [direct], [direct] + tail);
      FirstMatchConcat(files, root, [direct], tail);
    }
  }

  /** Every probe uses the reference itself, or its `.excalidraw` variant when it has no `.`. */
  lemma ProbeNames(sourceDir: seq<string>, root: seq<string>, ref: string)
    requires IsWithin(sourceDir, root)
    ensures forall p :: p in Probes(sourceDir, root, ref) ==>
      p.name == ref || ('.' !in ref && p.name == ref + EXCALIDRAW_SUFFIX)
  {
    GraphicsProbeNames(sourceDir, root, ref);
  }

  lemma {:induction false} GraphicsProbeNames(current: seq<string>, root: seq<string>, ref: string)
    requires IsWithin(current, root)
    ensures forall p :: p in GraphicsProbes(current, root, ref) ==>
      p.name == ref || ('.' !in ref && p.name == ref + EXCALIDRAW_SUFFIX)
    decreases |current| - |root|
  {
    if current != root {
      ParentWithin(current, root);
      GraphicsProbeNames(Parent(current), root, ref);
    }
  }

  /**
   * The upward search looks only in `graphics/` directories of `current`
   * and of its ancestors down to `root`: never above the vault root.
   */
  lemma {:induction false} GraphicsLevels(current: seq<string>, root: seq<string>, ref: string)
    requires IsWithin(current, root)
    ensures forall p :: p in GraphicsProbes(current, root, ref) ==>
      exists k :: |root| <= k <= |current| && p.dir == current[..k] + [GRAPHICS_DIR_NAME]
    decreases |current| - |root|
  {
    var graphicsDir := current + [GRAPHICS_DIR_NAME];
    assert current[..|current|] == current;
    if current != root {
      ParentWithin(current, root);
      var parent := Parent(current);
      GraphicsLevels(parent, root, ref);
      forall p | p in GraphicsProbes(parent, root, ref)
        ensures exists k :: |root| <= k <= |current| && p.dir == current[..k] + [GRAPHICS_DIR_NAME]
      {
        var k :| |root| <= k <= |parent| && p.dir == parent[..k] + [GRAPHICS_DIR_NAME];
        assert parent[..k] == current[..k];
      }
    }
  }

  /**
   * The nearest `graphics/` directory wins: when nothing is found at the
   * levels below `current[..k]` and `current[..k]/graphics/ref` is a file,
   * the search returns it.
   */
  lemma {:induction false} NearestWins(files: set<seq<string>>, current: seq<string>, root: seq<string>, ref: string, k: nat)
    requires IsWithin(current, root) && |root| <= k <= |current|
    requires Found(files, root, Target(Probe(current[..k] + [GRAPHICS_DIR_NAME], ref)))
    requires forall m :: k < m <= |current| ==> FirstMatch(files, root, LevelProbes(current[..m], ref)).None?
    ensures FirstMatch(files, root, GraphicsProbes(current, root, ref)) ==
      Some(Target(Probe(current[..k] + [GRAPHICS_DIR_NAME], ref)))
    decreases |current| - |root|
  {
    var found := Target(Probe(current[..k] + [GRAPHICS_DIR_NAME], ref));
    assert current[..|current|] == current;
    if k < |current| {
      var parent := Parent(current);
      ParentWithin(current, root);
      assert FirstMatch(files, root, LevelProbes(current, ref)).None? by {
        assert FirstMatch(files, root, LevelProbes(current[..|current|], ref)).None?;
      }
      assert FirstMatch(files, root, GraphicsProbes(parent, root, ref)) == Some(found) by {
        assert parent[..k] == current[..k];
        forall m | k < m <= |parent| ensures FirstMatch(files, root, LevelProbes(parent[..m], ref)).None? {
          assert parent[..m] == current[..m];
        }
        NearestWins(files, parent, root, ref, k);
      }
      FirstMatchConcat(files, root, LevelProbes(current, ref), GraphicsProbes(parent, root, ref));
    } else {
      var graphicsDir := current + [GRAPHICS_DIR_NAME];
      if current != root { ParentWithin(current, root); }
      var above := if current == root then [] else GraphicsProbes(Parent(current), root, ref);
      assert FirstMatch(files, root, LevelProbes(current, ref)) == Some(found) by {
        FirstMatchConcat(files, root, [Probe(graphicsDir, ref)], Excalidraw(graphicsDir, ref));
      }
      FirstMatchConcat(files, root, LevelProbes(current, ref), above);
    }
  }

  /**
   * Outside the vault the loop's stop test never holds: the directory is
   * not the root, and no parent of it is within the root either. This is
   * why the resolver needs `source_dir` within `source_root`.
   */
  lemma OutsideRootNeverStops(current: seq<string>, root: seq<string>)
    requires !IsWithin(current, root)
    ensures current != root && !IsWithin(Parent(current), root)
  {
  }

  // ------------------------------------------------------ normalise_image_src

  /**
   * `normalise_image_src`: `""` for an empty reference, the stripped
   * reference itself when it resolves to nothing, and otherwise the path
   * from the page's directory `relativeDir` (below the root) to the asset.
   */
  function NormaliseImageSrc(files: set<seq<string>>, root: seq<string>, sourceDir: seq<string>, relativeDir: seq<string>, rawReference: string): (r: string)
    requires IsWithin(sourceDir, root)
    ensures Strip(rawReference) == "" ==> r == ""
    ensures Strip(rawReference) != "" && Resolve(files, root, sourceDir, Strip(rawReference)).None? ==> r == Strip(rawReference)
  {
    var reference := Strip(rawReference);
    if reference == "" then ""
    else
      match Resolve(files, root, sourceDir, reference)
      case None => reference
      case Some(asset) =>
        var assetRelativeToSourceRoot := RelativeTo(asset, root).value;
        PosixRelpath(assetRelativeToSourceRoot, relativeDir)
  }

  /** Walking down from a normal path by pieces free of separators stays normal. */
  lemma {:induction false} WalkNormal(cur: seq<string>, parts: seq<string>)
    requires IsNormalPath(cur)
    requires forall i :: 0 <= i < |parts| ==> '/' !in parts[i] && '\\' !in parts[i]
    ensures IsNormalPath(Walk(cur, parts))
    decreases |parts|
  {
    if parts != [] {
      var p := parts[0];
      var next := if p == "" || p == "." then cur else if p == ".." then Parent(cur) else cur + [p];
      assert IsNormalPath(next);
      WalkNormal(next, parts[1..]);
    }
  }

  lemma TargetNormal(p: Probe)
    requires IsNormalPath(p.dir) && '\\' !in p.name
    ensures IsNormalPath(Target(p))
  {
    var parts := Split(p.name, '/');
    forall i | 0 <= i < |parts| ensures '\\' !in parts[i] {
      SplitOmits(p.name, '/', '\\', i);
    }
    WalkNormal([], parts);
    WalkNormal(p.dir, parts);
  }

  /** The pieces of a string without `c` are without `c`. */
  lemma {:induction false} SplitOmits(s: string, sep: char, c: char, i: nat)
    requires c !in s && i < |Split(s, sep)|
    ensures c !in Split(s, sep)[i]
    decreases |s|
  {
    if s != [] {
      var rest := Split(s[1..], sep);
      if s[0] == sep {
        if i > 0 {
          SplitOmits(s[1..], sep, c, i - 1);
        }
      } else if i == 0 {
        SplitOmits(s[1..], sep, c, 0);
      } else {
        SplitOmits(s[1..], sep, c, i);
      }
    }
  }

  /** Every probe made from a backslash-free reference in a normal directory has a normal target. */
  lemma {:induction false} GraphicsTargetsNormal(current: seq<string>, root: seq<string>, ref: string)
    requires IsWithin(current, root) && IsNormalPath(current) && '\\' !in ref
    ensures forall p :: p in GraphicsProbes(current, root, ref) ==> IsNormalPath(p.dir) && '\\' !in p.name
    decreases |current| - |root|
  {
    assert IsNormalPath(current + [GRAPHICS_DIR_NAME]);
    if current != root {
      ParentWithin(current, root);
      GraphicsTargetsNormal(Parent(current), root, ref);
    }
  }

  /** A resolved asset is a normal path below the root. */
  lemma ResolvedNormal(files: set<seq<string>>, root: seq<string>, sourceDir: seq<string>, reference: string)
    requires IsWithin(sourceDir, root) && IsNormalPath(sourceDir)
    requires Resolve(files, root, sourceDir, reference).Some?
    ensures IsNormalPath(Resolve(files, root, sourceDir, reference).value)
  {
    var n := ReplaceChar(reference, '\\', "/");
    var ps := Probes(sourceDir, root, n);
    GraphicsTargetsNormal(sourceDir, root, n);
    var i :| 0 <= i < |ps| && Resolve(files, root, sourceDir, reference).value == Target(ps[i]);
    assert ps[i] in ps;
    TargetNormal(ps[i]);
  }

  /**
   * The `src` a resolved reference normalises to leads from the page's
   * directory to the asset: walking it from `relativeDir` arrives at the
   * asset's path below the vault root.
   */
  lemma NormalisedSrcReachesAsset(files: set<seq<string>>, root: seq<string>, sourceDir: seq<string>, relativeDir: seq<string>, rawReference: string)
    requires IsWithin(sourceDir, root) && IsNormalPath(sourceDir) && IsNormalPath(relativeDir)
    requires Strip(rawReference) != "" && Resolve(files, root, sourceDir, Strip(rawReference)).Some?
    ensures var asset := Resolve(files, root, sourceDir, Strip(rawReference)).value;
      && IsWithin(asset, root)
      && Walk(relativeDir, Split(NormaliseImageSrc(files, root, sourceDir, relativeDir, rawReference), '/')) == asset[|root|..]
  {
    var asset := Resolve(files, root, sourceDir, Strip(rawReference)).value;
    ResolvedNormal(files, root, sourceDir, Strip(rawReference));
    var below := asset[|root|..];
    assert IsNormalPath(below) by {
      forall i | 0 <= i < |below| ensures IsNormalSegment(below[i]) {
        assert below[i] == asset[|root| + i];
      }
    }
    RelpathRoundTrip(below, relativeDir);
  }
}
