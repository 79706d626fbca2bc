# Vault builder, modelled in Dafny

This project models the Python builder of a static site. The builder turns an
Obsidian-style Markdown vault into HTML fragments and a manifest tree.
Four parts are modelled, each in a module of its own:

- `Utils` (`utils.dfy`) models `builder/utils.py`. It covers `slugify`,
  `derive_title`, `escape_html`, `posix_path`, `posix_relpath` and
  `is_within`, all as functions.
- `Markdown` (`markdown.dfy`) models `render_markdown`. It is a method with
  the source's loop over lines and its inner loop over image matches. The
  method is proved equal to `Emitted`, a function that gives each line's
  output, and the per-line rules are lemmas about that function.
- `Manifest` (`manifest.dfy`) models `build_directory` over an abstract
  directory tree (`Entry`). The recursive method `BuildDirectory` is proved
  equal to the function `BuildDir`. Its loop over the sorted children is the
  method `BuildChildren`, which calls `BuildDirectory` for each
  sub-directory. The manifest's rules are lemmas about `BuildDir`: README
  gating, the `graphics` exclusion, name order, slug paths and breadcrumbs.
  The module also models `build_breadcrumbs` and `find_readme`.
- `Assets` (`assets.dfy`) models `resolve_asset_reference` and
  `normalise_image_src`. The file system is a set of existing file paths,
  each a sequence of segments. The resolver is a method with the source's
  early returns and its `while True` loop. It is proved equal to `Resolve`,
  which is the first match in a fixed list of probes.

`strings.dfy` models the Python `str` operations these need, over ASCII.
`wrappers.dfy` holds `Option`.

Some as-written behaviour is kept on purpose, and lemmas state it:

- Paragraph text is not escaped (`Markdown.ParagraphNotEscaped`).
- For `![alt](url)` the `src` is built from the empty first group, so the url
  is dropped (`Markdown.MarkdownImageLine`).
- `render_markdown` imports `normalise_image_src` but never calls it, so
  image `src` values are not resolved.
- Rule 2 of the resolver repeats the lookup of rule 1, so it never decides
  the result (`Assets.SameDirectoryRepeatsDirect`).
- The filter `m != ''` over the `findall` tuples keeps every match.

Paths are modelled as lexically normalised segment sequences. `Path.resolve()`
becomes `Walk`: an empty segment and `.` are skipped, and `..` goes to the
parent. A reference that starts with `/` restarts at the root of the file
system, as `pathlib` does when it joins an absolute path. `build.py` resolves
`source_root` before building (build.py:48), so the vault root is normalised
too.

Three things are parameters instead of I/O:

- the directory tree that `iterdir` lists;
- the set of existing files that `exists()` and `is_file()` consult;
- the vault root.

## Model

| member | source | states |
|---|---|---|
| Utils.Slugify | builder/utils.py:16-32 | The result is a slug: nonempty, only `[a-z0-9-]`, no `--` and no `-` at either end. When the lower-cased input has alphanumerics, the result keeps exactly those, in order. Otherwise the result is `"section"`. |
| Utils.Collapse | builder/utils.py:30 | After `re.sub(r"[^a-z0-9]+", "-", ...)` the text has only `[a-z0-9-]` and no `--`, with the same alphanumerics in the same order. Where the hyphens go is stated by `CollapseSeparator`. |
| Utils.CollapseConcat | builder/utils.py:30 | Text that ends in `[a-z0-9]` is substituted on its own: `Collapse(a + b) == Collapse(a) + Collapse(b)`. |
| Utils.CollapseRun | builder/utils.py:30 | A leading run of characters outside `[a-z0-9]`, before an alphanumeric or the end, becomes one `-`. |
| Utils.CollapseSeparator | builder/utils.py:30 | A run of characters outside `[a-z0-9]` between alphanumerics, or at either end, becomes exactly one `-` in its place: `Collapse(a + w + b) == Collapse(a) + "-" + Collapse(b)`. |
| Utils.StripHyphensKeeps | builder/utils.py:31 | `strip("-")` keeps the character class, keeps `--` out and keeps the alphanumerics, and leaves no `-` at either end. |
| Utils.CollapseFixesSlug | builder/utils.py:30 | Text that is already `[a-z0-9-]` without `--` is unchanged by the substitution. |
| Utils.SlugifyFixesSlugs | builder/utils.py:30-32 | A slug is its own slug. |
| Utils.SlugifyIdempotent | builder/utils.py:30-32 | `slugify(slugify(s)) == slugify(s)` for every `s`. |
| Utils.SlugifySeparator | builder/utils.py:16-32 | Two slugs `x` and `y` around a nonempty run of non-alphanumerics with no capital letter give `x-y`. For example `"a b"` gives `"a-b"`. |
| Utils.DeriveTitle | builder/utils.py:35-51 | With no words, the result is the input unchanged. Otherwise the result's words are the input's words capitalised, joined by single spaces, with no `-` or `_`. Every word of the result starts with no lower-case letter and has no upper-case letter after its first. |
| Utils.DeriveTitleOfWord | builder/utils.py:48-51 | A single word that is already capitalised is its own title. |
| Utils.CapitalizeWord | builder/utils.py:51 | `str.capitalize` of a word gives a capitalised word, and applying it again changes nothing. |
| Utils.WordsOfJoin | builder/utils.py:48-51 | Splitting words joined by single spaces gives the same words back. |
| Utils.DeriveTitleIdempotent | builder/utils.py:35-51 | `derive_title(derive_title(s)) == derive_title(s)`. |
| Utils.EscapeHtml | builder/utils.py:54-68 | The five `str.replace` calls, `&` first. The function has no contract of its own. What it guarantees is stated by `EscapeHtmlPerCharacter`, `EscapeHtmlSafe` and `UnescapeEscapeHtml`. |
| Utils.EscapeHtmlKeepsPlain | builder/utils.py:64-68 | Text with none of `& < > " '` is returned unchanged. |
| Utils.EscapeHtmlConcat | builder/utils.py:64-68 | Escaping two texts one after the other equals escaping their concatenation. |
| Utils.EscapeHtmlChar | builder/utils.py:64-68 | One character escapes to its entity, or to itself when it is not special. |
| Utils.EscapeHtmlPerCharacter | builder/utils.py:64-68 | Because `&` is replaced first, the chain of replacements equals escaping each character on its own, so no entity is escaped twice. |
| Utils.EscapeHtmlSafe | builder/utils.py:54-68 | Escaped text contains no `<`, `>`, `"` or `'`. |
| Utils.UnescapeEscapeHtml | builder/utils.py:54-68 | Decoding the five entities in escaped text gives the original text back. |
| Utils.PosixPath | builder/utils.py:71-85 | The `/`-join of the segments. The function has no contract of its own. `PosixPathRoundTrip` states that it can be split back. |
| Utils.PosixPathRoundTrip | builder/utils.py:71-85 | Splitting `posix_path` at `/` gives the path's segments back. |
| Utils.PosixRelpath | builder/utils.py:88-105 | One `..` for each segment of `start` past the common prefix, then the rest of `target`, `/`-joined, or `.` when nothing is left. The function has no contract of its own. `RelpathRoundTrip` and `RelpathFromRoot` state what it guarantees. |
| Utils.RelSegmentsPieces | builder/utils.py:100-104 | No piece of a relative path holds `/` or `\`. |
| Utils.RelpathFromRoot | builder/utils.py:100-105 | With the empty start, which is `.`, the relative path of a path is its own POSIX string. |
| Utils.RelpathRoundTrip | builder/utils.py:88-105 | Following the relative path from `start` arrives at `target`. |
| Utils.WalkRel | builder/utils.py:104 | Walking the `..` pieces and then the target's remaining segments from `start` arrives at `target`. |
| Utils.Walk | builder/assets.py:77-110 | Lexical `Path.resolve()`: an empty segment and `.` are skipped, `..` goes to the parent, and anything else goes down. The function has no contract of its own. `WalkDown`, `WalkUp` and `Assets.WalkNormal` state what it does. |
| Utils.WalkDown | builder/assets.py:80 | Walking normal segments appends them. |
| Utils.WalkUp | builder/utils.py:104 | Walking `n` `..` pieces drops the last `n` segments. |
| Utils.RelativeTo | builder/utils.py:123 | `relative_to` succeeds exactly when the ancestor's segments begin the path's segments, and the remainder completes them. |
| Utils.IsWithin | builder/utils.py:108-126 | `is_within(p, a)` holds if and only if a's segments are a prefix of p's segments. |
| Utils.IsWithinReflexive | builder/utils.py:108-126 | Every path is within itself. |
| Utils.IsWithinTransitive | builder/utils.py:108-126 | Containment is transitive. |
| Markdown.RenderMarkdown | builder/markdown.py:22-72 | The output is the `\n`-join of what each line contributes, in input order. |
| Markdown.AppendImgTags | builder/markdown.py:64-66 | The inner loop appends one `<img>` per match, in the order of the matches. |
| Markdown.BlankLineEmitsNothing | builder/markdown.py:43-45 | A line contributes nothing if and only if it is empty or whitespace. |
| Markdown.BlankLineIgnored | builder/markdown.py:41-45 | Inserting a whitespace-only line between two texts does not change the output. |
| Markdown.LinesInOrder | builder/markdown.py:41-72 | Two texts joined by a line break render as the first text's lines, then the second's. |
| Markdown.EmittedConcat | builder/markdown.py:42-72 | The output of consecutive runs of lines is their outputs concatenated. |
| Markdown.HeadingMatch | builder/markdown.py:52 | A match splits the line into 1 to 5 `#`, a nonempty run of whitespace and a remainder that does not start with whitespace. The level is the number of `#` and group 2 is that remainder. |
| Markdown.HeadingMatchComplete | builder/markdown.py:52 | Every line of that shape matches, with exactly that level and remainder. |
| Markdown.SixHashesNoHeading | builder/markdown.py:52 | A line that starts with six `#` never matches. |
| Markdown.HeadingLine | builder/markdown.py:52-57 | A heading line becomes exactly one `<hN>` element. N is the number of `#` and the content is the escaped remainder. |
| Markdown.HeadingEscaped | builder/markdown.py:55-57 | A heading line gives one element, never image tags or a paragraph, and its content holds no raw `<` or `>`. |
| Markdown.MatchAt | builder/markdown.py:60 | A match of the image pattern is nonempty and begins at a `!`. It has one of two shapes. The first is `![[` + target + `]]`, with empty alt and url, where no `]]` starts inside the target after its first character. The second is `![` + alt + `](` + url + `)`, with an empty target, where the alt holds no `](`, the url is nonempty with no `)` after its first character, and the first alternative finds no `]]`. |
| Markdown.WikiMatchAt | builder/markdown.py:60 | The converse of the first shape: `![[x]]` followed by anything matches with first group `x` and length `|x| + 5`, for every target `x` the lazy group can take. |
| Markdown.MarkdownMatchAt | builder/markdown.py:60 | The converse of the second shape: `![a](u)` followed by anything matches with groups empty, `a` and `u`. This holds when `a` holds no `](` and does not start with `[`, and `u` is nonempty with no `)` after its first character. |
| Markdown.FindImages | builder/markdown.py:60-62 | `findall`: it scans left to right and resumes after each match, or one character on where none starts. The function has no contract of its own. `NoBangNoImages`, `PlainPrefixImages`, `WikiImageMatch` and `MarkdownImageMatch` state what it finds. |
| Markdown.NoBangNoImages | builder/markdown.py:60-61 | A line without `!` has no image match. |
| Markdown.PlainPrefixImages | builder/markdown.py:60-61 | Text without `!` in front of a line does not change the matches found. |
| Markdown.WikiImageMatch | builder/markdown.py:60-61 | `![[x]]` is one match whose first group is `x`, and the search resumes right after it. This holds for a nonempty `x` in which no `]]` starts after the first character, counting the closing `]`. For `x = "a]]b"` the match is `a`, and the lemma does not apply. |
| Markdown.MarkdownImageMatch | builder/markdown.py:60-61 | `![a](u)` is one match whose groups are empty, `a` and `u`, and the search resumes right after it. This holds when `a` holds no `](` and does not start with `[`, and `u` is nonempty with no `)` after its first character. |
| Markdown.RenderLine | builder/markdown.py:43-70 | What one line contributes: nothing when blank, else one heading, else one `<img>` per match, else one paragraph. The function has no contract of its own. `BlankLineEmitsNothing`, `HeadingLine`, `ImageLine` and `ParagraphLine` state each case. |
| Markdown.ImageLine | builder/markdown.py:59-67 | A line with image matches gives exactly one `<img>` per match, in left-to-right order, and no `<p>`. |
| Markdown.WikiImageLine | builder/markdown.py:59-67 | `![[x]]` on its own line renders as `<img src="graphics/x" alt=""/>`, for a target `x` as in `WikiImageMatch`. |
| Markdown.MarkdownImageLine | builder/markdown.py:59-67 | `![a](u)` on its own line, with `a` and `u` as in `MarkdownImageMatch`, renders as `<img src="graphics/" alt="a"/>`, so the url is dropped. |
| Markdown.ParagraphLine | builder/markdown.py:68-70 | A non-blank line that is not a heading and has no image match becomes exactly one `<p>` holding the stripped line. |
| Markdown.PlainTextParagraph | builder/markdown.py:68-70 | In particular, a non-blank line with no `!` that does not start with `#` is such a paragraph. |
| Markdown.BangParagraph | builder/markdown.py:59-70 | A `!` that starts no image, as in `Hi!`, leaves the line a paragraph. |
| Markdown.ParagraphNotEscaped | builder/markdown.py:70 | Paragraph content is not escaped: `a<b` becomes `<p>a<b</p>`. |
| Manifest.FindReadme | builder/file_system.py:18-34 | The result is a file child that is a README, without regard to case. `None` means no file child is one. |
| Manifest.Suffix | builder/manifest.py:85 | `Path.suffix`: from the last `.`, unless that `.` begins or ends the name. The function has no contract of its own. `StemSuffix` and `SuffixOf` state its properties. |
| Manifest.Stem | builder/manifest.py:88-93 | `Path.stem`: the name before the suffix. The function has no contract of its own. `StemSuffix` and `SuffixOf` state its properties. |
| Manifest.StemSuffix | builder/manifest.py:85-88 | `stem + suffix` is the name. A suffix is empty, or a `.` and at least one more character with no `.`, after a nonempty stem. |
| Manifest.SuffixOf | builder/manifest.py:85-88 | Where the last `.` is after the first character and before the last, the suffix is that `.` and what follows it. |
| Manifest.ConvertMarkdownFile | builder/manifest.py:119-134 | The path `convert_markdown_file` returns: the relative directory and `<stem>.html`, `/`-joined. The function has no contract of its own. `ConvertedPath` states its segments. |
| Manifest.ConvertedPath | builder/manifest.py:119-134 | The HTML of `<dir>/<stem>.md` is at `<dir>/<stem>.html`, for every stem without `/`, dots included, so `notes.v2.md` gives `notes.v2.html`. |
| Manifest.SortByName | builder/manifest.py:70 | The children are sorted into a permutation of themselves, ascending by lower-cased name. |
| Manifest.BuildBreadcrumbs | builder/manifest.py:137-147 | The result has only crumbs whose slug path is present, holds every such crumb of the chain, and is no longer than the chain. |
| Manifest.BreadcrumbsConcat | builder/manifest.py:147 | Filtering keeps order: it distributes over concatenation. |
| Manifest.BreadcrumbsKeepPresent | builder/manifest.py:147 | A chain whose crumbs all have a slug path is kept whole. |
| Manifest.BreadcrumbsIdempotent | builder/manifest.py:147 | `build_breadcrumbs` is idempotent. |
| Manifest.BuildDir | builder/manifest.py:39-51 | A directory gives a node exactly when its lower-cased name is not `graphics` and it holds a README. The node carries the directory's name. |
| Manifest.BuildDirectory | builder/manifest.py:21-116 | The gating, the node's own fields and the loop over the children, with its recursive calls, return exactly `BuildDir`. |
| Manifest.BuildChildren | builder/manifest.py:69-101 | The loop over the sorted children collects exactly the present sub-directory nodes and the file nodes of `BuildDir`. |
| Manifest.Ineligible | builder/manifest.py:43-51 | A `graphics` directory, in any case, gives no node. Neither does a directory without a README. |
| Manifest.NotesTitle | builder/manifest.py:60 | The root's title `derive_title("Notes")` is `"Notes"`. |
| Manifest.BuildWellFormed | builder/manifest.py:21-116 | Every node keeps these rules, for every descendant: no `graphics` node; the slug path is the `/`-join of the slug segments; the root has slug `""`, slug path `""` and title "Notes"; the README page is the HTML path of a README of the directory; a directory's breadcrumbs are its ancestors' and a file's add the enclosing directory's crumb; directories and files are in lower-cased name order; a child extends the segments by `slugify(name)`, or `slugify(stem)` for a file. |
| Manifest.BuildFieldsWellFormed | builder/manifest.py:43-67 | A node's own fields keep their rules. These are the `graphics` exclusion, the slug path, the root's slug and title, the README source and page, and the breadcrumbs. |
| Manifest.BuildChildrenWellFormed | builder/manifest.py:69-116 | A node's children are in name order. Each file node is well formed, and each directory node keeps every rule, for the extended segments and crumbs. |
| Manifest.NodeChildren | builder/manifest.py:69-101 | `files` holds exactly the Markdown files that are not the README, and nothing else. `directories` holds exactly the nodes of the sub-directories that are not `graphics` and hold a README, and nothing else. |
| Manifest.ChildFilesExactly | builder/manifest.py:81-98 | A file node is made for every Markdown child that is not a README, and every file node comes from one. |
| Manifest.ChildFilesSorted | builder/manifest.py:70-98 | File nodes made from name-sorted children are in name order. |
| Manifest.PresentSorted | builder/manifest.py:70-80 | Directory nodes kept from name-sorted children are in name order. |
| Assets.FirstMatch | builder/assets.py:79-116 | The result is the target of the first probe that finds an existing file within the root; `None` means no probe does. |
| Assets.FirstMatchConcat | builder/assets.py:79-116 | Trying two lists of probes in turn is trying the first, and then the second only when the first finds nothing. |
| Assets.Target | builder/assets.py:80 | `(dir / name).resolve()`: the name is split at `/` and walked from the directory, or from the file-system root when it starts with `/`. The function has no contract of its own. `TargetNormal` states its property. |
| Assets.GraphicsProbes | builder/assets.py:99-116 | The probes of the upward loop, level by level from `source_dir` up to the root. The function has no contract of its own. `GraphicsLevels`, `GraphicsProbeNames` and `NearestWins` state its properties. |
| Assets.Probes | builder/assets.py:79-116 | All probes, in the resolver's order. The function has no contract of its own. `SlashDirectOnly`, `SameDirectoryRepeatsDirect` and `ProbeNames` state its properties. |
| Assets.Resolve | builder/assets.py:57-118 | A result is an existing file within the vault root. An existing direct candidate within the root is always the result. |
| Assets.ResolveAssetReference | builder/assets.py:57-118 | The early returns and the upward loop return exactly `Resolve`. A result is an existing file within the vault root. |
| Assets.BackslashesAsSlashes | builder/assets.py:76 | Backslashes count as `/` before any lookup. |
| Assets.SlashDirectOnly | builder/assets.py:79-86 | A reference with `/` is tried only as a direct path. If that fails, the result is `None`. |
| Assets.SameDirectoryRepeatsDirect | builder/assets.py:88-91 | The same-directory lookup repeats the direct lookup, so dropping it changes nothing. |
| Assets.ProbeNames | builder/assets.py:93-111 | Every lookup uses the reference itself, or its `.excalidraw` variant when the reference has no `.`. |
| Assets.GraphicsProbeNames | builder/assets.py:103-110 | The upward loop looks up only the reference, or its `.excalidraw` variant when the reference has no `.`. |
| Assets.GraphicsLevels | builder/assets.py:99-116 | The upward search looks only in `graphics/` of `source_dir` and of its ancestors down to the vault root, never above it. |
| Assets.NearestWins | builder/assets.py:99-116 | When nothing is found at the nearer levels and a level's `graphics/ref` is a file, the search returns that file: the nearest match wins. |
| Assets.ParentWithin | builder/assets.py:113-116 | Below the root, the parent is still within the root and one level shorter, which is the loop's decreasing measure. |
| Assets.OutsideRootNeverStops | builder/assets.py:113-116 | Outside the root the stop test never holds, and the parent stays outside. |
| Assets.NormaliseImageSrc | builder/assets.py:17-54 | An empty or whitespace-only reference gives `""`. A reference that resolves to nothing gives the stripped reference. |
| Assets.WalkNormal | builder/assets.py:77-110 | Walking separator-free parts from a normal path gives a normal path. |
| Assets.TargetNormal | builder/assets.py:80-110 | A candidate from a normal directory and a name without `\` is a normal path. |
| Assets.GraphicsTargetsNormal | builder/assets.py:99-110 | Every probe of the upward loop is in a normal directory, with a name without `\`. |
| Assets.ResolvedNormal | builder/assets.py:77-110 | A resolved asset is a normalised path. |
| Assets.NormalisedSrcReachesAsset | builder/assets.py:43-54 | For a resolved reference, walking the returned `src` from the page's directory arrives at the asset's path below the vault root. |

## Left out

- Letters and whitespace are ASCII only. `str.lower`, `str.upper`, `str.capitalize`, `str.isspace` and regex `\s` are modelled on ASCII, so non-ASCII case mappings such as `"K".lower()` are not modelled. Strings are sequences of code points with no normalisation.
- `splitlines` is modelled as a split at `\n`. Python also splits at `\r`, `\v`, `\f`, `\x1c`-`\x1e`, `\x85`, U+2028 and U+2029. The extra empty last piece of a split is harmless, because blank lines emit nothing.
- Python's `re` engine is not modelled. Only the two patterns the renderer uses are written out by hand (`HeadingMatch`, `MatchAt`, `FindImages`).
- All file I/O is left out: `mkdir`, `copy_file`, `copy_graphics_directory`, `read_text` and `write_text` in `build_directory` and `convert_markdown_file`. `convert_markdown_file` is modelled only as the path it returns.
- `iterdir` order is the order of an `Entry`'s children.
- `Path.resolve()` follows symbolic links in the source. Here it is lexical normalisation, and the source directory is assumed normalised.
- `Assets.NormaliseImageSrc`: the Windows different-drive `ValueError` fallback at builder/assets.py:49-52 is not modelled, because paths here have no drive.
- `Assets.NormaliseImageSrc`: a `None` raw reference, which `(raw_reference or "")` turns into `""`, is not modelled.
- `Manifest.SortByName`: the contract states a sorted permutation but not the stability of Python's `sorted`, although the insertion sort is stable.
- `Manifest.BuildWellFormed`: requires every ancestor crumb to have a slug path. `build_directory` only ever builds such crumbs, but a caller could pass others.
- The unused parameters are dropped: `ctx` and `source_file` of `render_markdown`, and `ctx` of `build_directory`, whose vault root becomes the relative directory argument. The unused imports of `markdown.py` are dropped too.
- `build.py` (argument handling, deleting the output directory, timestamps and JSON writing) is not part of this model.
- `docs/Interviewing/runtime.py`, a floating-point plot, is not part of this model.
- The client-side router and viewers are not part of this model; their source is not among the files modelled.
