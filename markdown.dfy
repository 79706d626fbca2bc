/**
 * builder/markdown.py: the line-oriented Markdown renderer.
 *
 * Each line is classified in turn: blank lines are skipped, a line of one
 * to five `#` and whitespace becomes a heading, a line with image
 * references becomes one `<img>` per reference, and anything else becomes
 * a paragraph. Lines are the pieces between `\n` characters.
 */
module Markdown {

  import opened Wrappers
  import opened Strings
  import opened Utils

  // ---------------------------------------------------------------- headings

  /** The number of `#` characters at the start of `s`. */
  function LeadingHashes(s: string): (n: nat)
    ensures n <= |s|
    ensures forall i :: 0 <= i < n ==> s[i] == '#'
    ensures n < |s| ==> s[n] != '#'
    decreases |s|
  {
    if s != [] && s[0] == '#' then 1 + LeadingHashes(s[1..]) else 0
  }

  function Hashes(n: nat): (r: string)
    ensures |r| == n && forall i :: 0 <= i < n ==> r[i] == '#'
  {
    seq(n, _ => '#')
  }

  predicate AllSpace(w: string) {
    forall i :: 0 <= i < |w| ==> IsSpace(w[i])
  }

  /**
   * `line` is `n` hashes (one to five), a nonempty run of whitespace, then
   * `rest`, which does not start with whitespace: the way
   * `^(#{1,5})\s+(.*)$` splits a line it matches.
   */
  predicate HeadingShape(line: string, n: nat, w: string, rest: string) {
    && 1 <= n <= 5
    && w != [] && AllSpace(w)
    && (rest == [] || !IsSpace(rest[0]))
    && line == Hashes(n) + w + rest
  }

  /** `re.match(r"^(#{1,5})\s+(.*)$", line)`: the heading level and group 2. */
  function HeadingMatch(line: string): (r: Option<(nat, string)>)
    ensures r.Some? ==>
      var (n, rest) := r.value;
      n + |rest| < |line| && HeadingShape(line, n, line[n..|line| - |rest|], rest)
  {
    var n := LeadingHashes(line);
    if 1 <= n <= 5 && n < |line| && IsSpace(line[n]) then
      var rest := TrimStart(line[n..], IsSpace);
      HeadingSplit(line, n);
      Some((n, rest))
    else None
  }

  /** After `n` leading hashes and a whitespace character, the line splits as a heading. */
  lemma HeadingSplit(line: string, n: nat)
    requires 1 <= n <= 5 && n < |line| && IsSpace(line[n])
    requires forall i :: 0 <= i < n ==> line[i] == '#'
    ensures var rest := TrimStart(line[n..], IsSpace);
      n + |rest| < |line| && HeadingShape(line, n, line[n..|line| - |rest|], rest)
  {
    var tail := line[n..];
    var rest := TrimStart(tail, IsSpace);
    assert n + |rest| < |line| by {
      assert tail[0] == line[n];
    }
    var w := line[n..|line| - |rest|];
    assert w != [] && AllSpace(w) by {
      assert w == tail[..|tail| - |rest|];
      forall i | 0 <= i < |w| ensures IsSpace(w[i]) {
        assert w[i] == tail[i];
      }
    }
    assert line == Hashes(n) + w + rest by {
      var h := line[..n];
      assert h == Hashes(n);
      assert tail == w + rest;
      assert line == h + tail;
      assert h + tail == h + w + rest;
    }
  }

  /** A line of that shape is matched, with exactly that level and remainder. */
  lemma HeadingMatchComplete(line: string, n: nat, w: string, rest: string)
    requires HeadingShape(line, n, w, rest)
    ensures HeadingMatch(line) == Some((n, rest))
  {
    assert line[n] == w[0];
    assert forall i :: 0 <= i < n ==> line[i] == Hashes(n)[i];
    assert LeadingHashes(line) == n;
    assert line[n..] == w + rest;
    TrimStartSkips(w, rest, IsSpace);
  }

  /** A line that starts with six `#` is never a heading. */
  lemma SixHashesNoHeading(line: string)
    requires |line| >= 6 && line[..6] == "######"
    ensures HeadingMatch(line) == None
  {
    assert forall i :: 0 <= i < 6 ==> line[i] == line[..6][i];
  }

  /** The digit of a heading level. */
  function LevelDigit(n: nat): (c: char)
    requires n <= 9
    ensures IsDigit(c)
  {
    ('0' as int + n) as char
  }

  /** `<hN>content</hN>` */
  function HeadingTag(n: nat, content: string): string
    requires n <= 9
  {
    "<h" + [LevelDigit(n)] + ">" + content + "</h" + [LevelDigit(n)] + ">"
  }

  // ------------------------------------------------------------------ images

  /**
   * One tuple of `findall` over `!\[\[(.+?)\]\]|!\[(.*?)\]\((.+?)\)`:
   * the three groups, empty where a group did not take part.
   */
  datatype ImageMatch = ImageMatch(target: string, alt: string, url: string)

  /**
   * `x` is what the lazy target group `(.+?)` takes before `]]`: it is
   * nonempty, and no `]]` starts after its first character, counting the
   * first `]` of the closing `]]`.
   */
  predicate WikiTarget(x: string) {
    x != [] && forall k :: 1 <= k < |x| ==> !OccursAt(x + "]", "]]", k)
  }

  /** `a` is what the lazy alt group `(.*?)` takes before `](`: no `](` in it. */
  predicate MarkdownAlt(a: string) {
    forall k :: 0 <= k < |a| ==> !OccursAt(a, "](", k)
  }

  /** `u` is what the lazy url group `(.+?)` takes before `)`: nonempty, with no `)` after its first character. */
  predicate MarkdownUrl(u: string) {
    u != [] && ')' !in u[1..]
  }

  /** `s` starts with `![[`, a target and `]]`, the match `m` of length `len`. */
  predicate IsWikiMatch(s: string, m: ImageMatch, len: nat) {
    && m.alt == "" && m.url == "" && WikiTarget(m.target)
    && len == |m.target| + 5 && len <= |s| && s[..len] == "![[" + m.target + "]]"
  }

  /**
   * `s` starts with `![`, an alt text, `](`, a url and `)`, the match `m` of
   * length `len`, and the first alternative does not match.
   */
  predicate IsMarkdownMatch(s: string, m: ImageMatch, len: nat) {
    && m.target == "" && MarkdownAlt(m.alt) && MarkdownUrl(m.url)
    && len == |m.alt| + |m.url| + 5 && len <= |s| && s[..len] == "![" + m.alt + "](" + m.url + ")"
    && (OccursAt(s, "![[", 0) ==> forall k :: 4 <= k < |s| ==> !OccursAt(s, "]]", k))
  }

  /**
   * A match of the image pattern at the start of `s`, with its length.
   * The first alternative is `![[`, the shortest nonempty target and `]]`;
   * the second is `![`, the shortest alt text, `](`, the shortest nonempty
   * url and `)`. A line holds no `\n`, so `.` accepts every character.
   */
  function MatchAt(s: string): (r: Option<(ImageMatch, nat)>)
    ensures r.Some? ==> 0 < r.value.1 <= |s|
    ensures r.Some? ==> s[0] == '!'
    ensures r.Some? ==> IsWikiMatch(s, r.value.0, r.value.1) || IsMarkdownMatch(s, r.value.0, r.value.1)
  {
    var wiki := if OccursAt(s, "![[", 0) then FindFrom(s, "]]", 4) else None;
    if wiki.Some? then
      var e := wiki.value;
      WikiShape(s, e);
      Some((ImageMatch(s[3..e], "", ""), e + 2))
    else if OccursAt(s, "![", 0) then
      match FindFrom(s, "](", 2)
      case None => None
      case Some(j) =>
        match FindFrom(s, ")", j + 3)
        case None => None
        case Some(k) =>
          MarkdownShape(s, j, k);
          Some((ImageMatch("", s[2..j], s[j + 2..k]), k + 1))
    else None
  }

  /** The first `]]` after `![[` closes a wiki match. */
  lemma WikiShape(s: string, e: nat)
    requires OccursAt(s, "![[", 0) && FindFrom(s, "]]", 4) == Some(e)
    ensures IsWikiMatch(s, ImageMatch(s[3..e], "", ""), e + 2)
  {
    var x := s[3..e];
    assert x + "]" == s[3..e + 1] by {
      assert s[e..e + 2][0] == s[e];
    }
    forall k | 1 <= k < |x| ensures !OccursAt(x + "]", "]]", k) {
      OccursInSlice(s, "]]", 3, e + 1, k);
    }
    assert s[..e + 2] == s[..3] + x + s[e..e + 2];
  }

  /** The first `](` after `![` and the first `)` after the url's first character close a markdown match. */
  lemma MarkdownShape(s: string, j: nat, k: nat)
    requires !OccursAt(s, "![[", 0) || FindFrom(s, "]]", 4).None?
    requires OccursAt(s, "![", 0) && FindFrom(s, "](", 2) == Some(j) && FindFrom(s, ")", j + 3) == Some(k)
    ensures IsMarkdownMatch(s, ImageMatch("", s[2..j], s[j + 2..k]), k + 1)
  {
    var a, u := s[2..j], s[j + 2..k];
    assert MarkdownAlt(a) by {
      forall i | 0 <= i < |a| ensures !OccursAt(a, "](", i) {
        if i + 2 <= |a| {
          OccursInSlice(s, "](", 2, j, i);
        }
      }
    }
    assert MarkdownUrl(u) by {
      var v := u[1..];
      assert v == s[j + 3..k];
      forall i | 0 <= i < |v| ensures v[i] != ')' {
        assert !OccursAt(s, ")", j + 3 + i);
        assert s[j + 3 + i..j + 4 + i] == [v[i]];
      }
    }
    assert s[..k + 1] == "![" + a + "](" + u + ")" by {
      assert s[0..2] == "![" && s[j..j + 2] == "](" && s[k..k + 1] == ")";
      SliceSplit(s, 0, 2, j);
      SliceSplit(s, 0, j, j + 2);
      SliceSplit(s, 0, j + 2, k);
      SliceSplit(s, 0, k, k + 1);
    }
  }

  /** `findall`: left to right, resuming after each match, or one character on where none starts. */
  function FindImages(s: string): seq<ImageMatch>
    decreases |s|
  {
    if s == [] then []
    else
      match MatchAt(s)
      case Some((m, len)) => [m] + FindImages(s[len..])
      case None => FindImages(s[1..])
  }

  /** A line without `!` holds no image reference. */
  lemma {:induction false} NoBangNoImages(s: string)
    requires '!' !in s
    ensures FindImages(s) == []
    decreases |s|
  {
    if s != [] {
      NoBangNoImages(s[1..]);
    }
  }

  /** Text without `!` in front of a line does not change what is found. */
  lemma {:induction false} PlainPrefixImages(a: string, b: string)
    requires '!' !in a
    ensures FindImages(a + b) == FindImages(b)
    decreases |a|
  {
    if a != [] {
      assert (a + b)[0] == a[0];
      assert (a + b)[1..] == a[1..] + b;
      PlainPrefixImages(a[1..], b);
    } else {
      assert a + b == b;
    }
  }

  /** `![[x]]` at the start of a line is a match of the first alternative. */
  lemma WikiMatchAt(s: string, x: string, rest: string)
    requires WikiTarget(x)
    requires s == "![[" + x + "]]" + rest
    ensures MatchAt(s) == Some((ImageMatch(x, "", ""), |x| + 5))
  {
    var e := 3 + |x|;
    assert s[..3] == "![[" && s[3..e] == x && s[e..e + 2] == "]]";
    assert s[3..e + 1] == x + "]";
    forall k | 4 <= k < e ensures !OccursAt(s, "]]", k) {
      OccursInSlice(s, "]]", 3, e + 1, k - 3);
    }
    FirstAt(s, "]]", 4, e);
  }

  /** `![[x]]` is one match whose first group is `x`. */
  lemma WikiImageMatch(x: string, rest: string)
    requires WikiTarget(x)
    ensures FindImages("![[" + x + "]]" + rest) == [ImageMatch(x, "", "")] + FindImages(rest)
  {
    var s := "![[" + x + "]]" + rest;
    WikiMatchAt(s, x, rest);
    assert s[|x| + 5..] == rest;
  }

  /** `![a](u)` at the start of a line is a match of the second alternative. */
  lemma MarkdownMatchAt(s: string, a: string, u: string, rest: string)
    requires MarkdownAlt(a) && (a == [] || a[0] != '[')
    requires MarkdownUrl(u)
    requires s == "![" + a + "](" + u + ")" + rest
    ensures MatchAt(s) == Some((ImageMatch("", a, u), |a| + |u| + 5))
  {
    var j := 2 + |a|;
    var k := j + 2 + |u|;
    assert s[..2] == "![" && s[2..j] == a && s[j..j + 2] == "](" && s[j + 2..k] == u && s[k] == ')';
    assert s[2] == if a == [] then ']' else a[0];
    forall i | 2 <= i < j ensures !OccursAt(s, "](", i) {
      if i + 2 <= j {
        OccursInSlice(s, "](", 2, j, i - 2);
      } else {
        assert s[i + 1] == s[j];
      }
    }
    assert forall i :: j + 3 <= i < k ==> s[i] == u[1..][i - (j + 3)];
    MarkdownMatchAtIndices(s, j, k);
  }

  /** The second alternative, stated on the positions of `](` and `)`. */
  lemma MarkdownMatchAtIndices(s: string, j: nat, k: nat)
    requires 2 <= j && j + 3 <= k < |s|
    requires s[..2] == "![" && s[2] != '[' && s[j..j + 2] == "](" && s[k] == ')'
    requires forall i :: 2 <= i < j ==> !OccursAt(s, "](", i)
    requires forall i :: j + 3 <= i < k ==> s[i] != ')'
    ensures MatchAt(s) == Some((ImageMatch("", s[2..j], s[j + 2..k]), k + 1))
  {
    assert !OccursAt(s, "![[", 0) by {
      assert s[..3][2] == s[2];
    }
    assert OccursAt(s, "![", 0) by {
      assert s[0..2] == s[..2];
    }
    assert FindFrom(s, "](", 2) == Some(j) by {
      FirstAt(s, "](", 2, j);
    }
    assert FindFrom(s, ")", j + 3) == Some(k) by {
      assert s[k..k + 1] == ")";
      FirstOccurrence(s, ")", j + 3, k);
    }
  }

  /** `![a](u)` is one match whose groups are empty, `a` and `u`. */
  lemma MarkdownImageMatch(a: string, u: string, rest: string)
    requires MarkdownAlt(a) && (a == [] || a[0] != '[')
    requires MarkdownUrl(u)
    ensures FindImages("![" + a + "](" + u + ")" + rest) == [ImageMatch("", a, u)] + FindImages(rest)
  {
    var s := "![" + a + "](" + u + ")" + rest;
    MarkdownMatchAt(s, a, u, rest);
    assert s[|a| + |u| + 5..] == rest;
  }

  /** `<img src="graphics/{group 1}" alt="{group 2}"/>` */
  function ImgTag(m: ImageMatch): string {
    "<img src=\"graphics/" + m.target + "\" alt=\"" + m.alt + "\"/>"
  }

  function ImgTags(ms: seq<ImageMatch>): (r: seq<string>)
    ensures |r| == |ms|
  {
    seq(|ms|, i requires 0 <= i < |ms| => ImgTag(ms[i]))
  }

  lemma ImgTagsStep(ms: seq<ImageMatch>, j: nat)
    requires j < |ms|
    ensures ImgTags(ms[..j + 1]) == ImgTags(ms[..j]) + [ImgTag(ms[j])]
  {
  }

  // ------------------------------------------------------------------ lines

  /** The HTML lines one Markdown line contributes. */
  function RenderLine(raw: string): seq<string> {
    var line := Strip(raw);
    if line == [] then []
    else
      match HeadingMatch(line)
      case Some((n, rest)) => [HeadingTag(n, EscapeHtml(Strip(rest)))]
      case None =>
        var images := FindImages(line);
        if images != [] then ImgTags(images) else ["<p>" + line + "</p>"]
  }

  /** The HTML lines of a sequence of Markdown lines, each line rendered by `render`, in order. */
  function EmittedBy(render: string -> seq<string>, lines: seq<string>): seq<string>
    decreases |lines|
  {
    if lines == [] then [] else EmittedBy(render, lines[..|lines| - 1]) + render(lines[|lines| - 1])
  }

  /** The HTML lines of a sequence of Markdown lines. */
  function Emitted(lines: seq<string>): seq<string> {
    EmittedBy(RenderLine, lines)
  }

  /** `render_markdown`, without its build context and source file, which it never uses. */
  method RenderMarkdown(markdownText: string) returns (html: string)
    ensures html == Join(Emitted(Split(markdownText, '\n')), "\n")
  {
    var htmlLines: seq<string> := [];
    var lines := Split(markdownText, '\n');
    for i := 0 to |lines|
      invariant htmlLines == EmittedBy(RenderLine, lines[..i])
    {
      EmittedByStep(RenderLine, lines, i);
      ghost var done := htmlLines;
      var line := Strip(lines[i]);
      if line == [] {
        assert RenderLine(lines[i]) == [];
        assert htmlLines == done + [];
        continue;
      }
      var heading := HeadingMatch(line);
      if heading.Some? {
        var (level, rest) := heading.value;
        assert RenderLine(lines[i]) == [HeadingTag(level, EscapeHtml(Strip(rest)))];
        htmlLines := htmlLines + [HeadingTag(level, EscapeHtml(Strip(rest)))];
        continue;
      }
      var images := FindImages(line);
      if images != [] {
        assert RenderLine(lines[i]) == ImgTags(images);
        htmlLines := AppendImgTags(htmlLines, images);
        continue;
      }
      assert RenderLine(lines[i]) == ["<p>" + line + "</p>"];
      htmlLines := htmlLines + ["<p>" + line + "</p>"];
    }
    assert lines[..|lines|] == lines;
    html := Join(htmlLines, "\n");
  }

  /** The inner loop of `render_markdown`: one `<img>` line per match, in order of appearance. */
  method AppendImgTags(htmlLines: seq<string>, images: seq<ImageMatch>) returns (r: seq<string>)
    ensures r == htmlLines + ImgTags(images)
  {
    r := htmlLines;
    for j := 0 to |images|
      invariant r == htmlLines + ImgTags(images[..j])
    {
      ImgTagsStep(images, j);
      r := r + [ImgTag(images[j])];
    }
    assert images[..|images|] == images;
  }

  // -------------------------------------------------------------- properties

  /** A line contributes nothing exactly when it is empty or whitespace. */
  lemma BlankLineEmitsNothing(raw: string)
    ensures RenderLine(raw) == [] <==> Strip(raw) == []
  {
  }

  lemma EmittedByStep(render: string -> seq<string>, lines: seq<string>, i: nat)
    requires i < |lines|
    ensures EmittedBy(render, lines[..i + 1]) == EmittedBy(render, lines[..i]) + render(lines[i])
  {
    assert lines[..i + 1][..i] == lines[..i];
  }

  /** The output of consecutive lines is the output of each, in order. */
  lemma {:induction false} EmittedConcat(render: string -> seq<string>, a: seq<string>, b: seq<string>)
    ensures EmittedBy(render, a + b) == EmittedBy(render, a) + EmittedBy(render, b)
    decreases |b|
  {
    if b == [] {
      assert a + b == a;
    } else {
      var ab := a + b;
      assert ab[..|ab| - 1] == a + b[..|b| - 1];
      assert ab[|ab| - 1] == b[|b| - 1];
      EmittedConcat(render, a, b[..|b| - 1]);
    }
  }

  /** The lines of two texts joined by a line break render as the first's followed by the second's. */
  lemma LinesInOrder(a: string, b: string)
    ensures Emitted(Split(a + "\n" + b, '\n')) == Emitted(Split(a, '\n')) + Emitted(Split(b, '\n'))
  {
    SplitConcat(a, b, '\n');
    EmittedConcat(RenderLine, Split(a, '\n'), Split(b, '\n'));
  }

  /** Inserting a whitespace-only line between two texts changes nothing. */
  lemma BlankLineIgnored(a: string, w: string, b: string)
    requires '\n' !in w && Strip(w) == []
    ensures Emitted(Split(a + "\n" + w + "\n" + b, '\n')) == Emitted(Split(a + "\n" + b, '\n'))
  {
    BlankLineIgnoredBy(RenderLine, a, w, b);
  }

  lemma BlankLineIgnoredBy(render: string -> seq<string>, a: string, w: string, b: string)
    requires '\n' !in w && render(w) == []
    ensures EmittedBy(render, Split(a + "\n" + w + "\n" + b, '\n')) == EmittedBy(render, Split(a + "\n" + b, '\n'))
  {
    var sa, sb := Split(a, '\n'), Split(b, '\n');
    assert Split(a + "\n" + w + "\n" + b, '\n') == sa + ([w] + sb) by {
      assert a + "\n" + w + "\n" + b == a + "\n" + (w + "\n" + b);
      SplitConcat(a, w + "\n" + b, '\n');
      SplitConcat(w, b, '\n');
      SplitFree(w, '\n');
    }
    assert Split(a + "\n" + b, '\n') == sa + sb by {
      SplitConcat(a, b, '\n');
    }
    assert EmittedBy(render, [w] + sb) == EmittedBy(render, sb) by {
      assert EmittedBy(render, [w]) == EmittedBy(render, []) + render(w);
      EmittedConcat(render, [w], sb);
    }
    EmittedConcat(render, sa, [w] + sb);
    EmittedConcat(render, sa, sb);
  }

  /** A heading line becomes one `<hN>` element with `N` its number of `#` and the escaped remainder. */
  lemma HeadingLine(raw: string, n: nat, w: string, rest: string)
    requires HeadingShape(Strip(raw), n, w, rest)
    ensures RenderLine(raw) == [HeadingTag(n, EscapeHtml(rest))]
  {
    var line := Strip(raw);
    HeadingMatchComplete(line, n, w, rest);
    assert rest != [] && rest[|rest| - 1] == line[|line| - 1];
    StripKeepsStripped(rest);
  }

  /** Heading content never holds a raw `<`, `>`, `"` or `'`, whatever the line contains. */
  lemma HeadingEscaped(raw: string)
    requires HeadingMatch(Strip(raw)).Some?
    ensures |RenderLine(raw)| == 1
    ensures var (n, rest) := HeadingMatch(Strip(raw)).value;
      var content := EscapeHtml(Strip(rest));
      RenderLine(raw)[0] == HeadingTag(n, content) && '<' !in content && '>' !in content
  {
    var (n, rest) := HeadingMatch(Strip(raw)).value;
    EscapeHtmlSafe(Strip(rest));
  }

  /** A stripped line that starts with `!` renders as its image tags, or as a paragraph when it has none. */
  lemma BangLine(line: string)
    requires line != [] && line[0] == '!' && !IsSpace(line[|line| - 1])
    ensures var images := FindImages(line);
      RenderLine(line) == if images != [] then ImgTags(images) else ["<p>" + line + "</p>"]
  {
    StripKeepsStripped(line);
    assert LeadingHashes(line) == 0;
  }

  /** A line that is one image reference renders as that reference's tag. */
  lemma SingleImageLine(line: string, m: ImageMatch)
    requires line != [] && line[0] == '!' && !IsSpace(line[|line| - 1])
    requires FindImages(line) == [m]
    ensures RenderLine(line) == [ImgTag(m)]
  {
    var tags := ImgTags([m]);
    assert tags == [ImgTag(m)] by {
      assert tags[0] == ImgTag(m);
    }
    assert RenderLine(line) == tags by {
      BangLine(line);
    }
  }

  /** `![[x]]` is a stripped line whose one match has first group `x`. */
  lemma WikiImageFound(x: string)
    requires WikiTarget(x)
    ensures var line := "![[" + x + "]]";
      && line != [] && line[0] == '!' && !IsSpace(line[|line| - 1])
      && FindImages(line) == [ImageMatch(x, "", "")]
  {
    WikiImageMatch(x, "");
    assert "![[" + x + "]]" + "" == "![[" + x + "]]";
  }

  /** `![[x]]` on its own line gives `<img src="graphics/x" alt=""/>`. */
  lemma WikiImageLine(line: string, x: string)
    requires WikiTarget(x)
    requires line == "![[" + x + "]]"
    ensures RenderLine(line) == ["<img src=\"graphics/" + x + "\" alt=\"\"/>"]
  {
    var m := ImageMatch(x, "", "");
    assert RenderLine(line) == [ImgTag(m)] by {
      WikiImageFound(x);
      SingleImageLine(line, m);
    }
    WikiImgTag(m);
  }

  lemma WikiImgTag(m: ImageMatch)
    requires m.alt == ""
    ensures ImgTag(m) == "<img src=\"graphics/" + m.target + "\" alt=\"\"/>"
  {
    var p := "<img src=\"graphics/" + m.target;
    assert ImgTag(m) == p + "\" alt=\"" + "" + "\"/>";
    assert p + "\" alt=\"" + "" + "\"/>" == p + ("\" alt=\"" + "\"/>");
    assert "\" alt=\"" + "\"/>" == "\" alt=\"\"/>";
  }

  /** `![a](u)` is a stripped line whose one match has groups empty, `a` and `u`. */
  lemma MarkdownImageFound(a: string, u: string)
    requires MarkdownAlt(a) && (a == [] || a[0] != '[')
    requires MarkdownUrl(u)
    ensures var line := "![" + a + "](" + u + ")";
      && line != [] && line[0] == '!' && !IsSpace(line[|line| - 1])
      && FindImages(line) == [ImageMatch("", a, u)]
  {
    MarkdownImageMatch(a, u, "");
    assert "![" + a + "](" + u + ")" + "" == "![" + a + "](" + u + ")";
  }

  /** `![a](u)` on its own line gives `<img src="graphics/" alt="a"/>`: the url is dropped. */
  lemma MarkdownImageLine(line: string, a: string, u: string)
    requires MarkdownAlt(a) && (a == [] || a[0] != '[')
    requires MarkdownUrl(u)
    requires line == "![" + a + "](" + u + ")"
    ensures RenderLine(line) == ["<img src=\"graphics/\" alt=\"" + a + "\"/>"]
  {
    var m := ImageMatch("", a, u);
    assert RenderLine(line) == [ImgTag(m)] by {
      MarkdownImageFound(a, u);
      SingleImageLine(line, m);
    }
    MarkdownImgTag(m);
  }

  lemma MarkdownImgTag(m: ImageMatch)
    requires m.target == ""
    ensures ImgTag(m) == "<img src=\"graphics/\" alt=\"" + m.alt + "\"/>"
  {
    var p, q := "<img src=\"graphics/", "\" alt=\"";
    var pq := "<img src=\"graphics/\" alt=\"";
    assert ImgTag(m) == p + "" + q + m.alt + "\"/>";
    assert p + "" == p;
    assert |p + q| == |pq|;
    forall i | 0 <= i < |pq| ensures (p + q)[i] == pq[i] {
      if i < |p| { assert (p + q)[i] == p[i]; } else { assert (p + q)[i] == q[i - |p|]; }
    }
    assert p + q == pq;
  }

  /** Every image reference of a line, in order, gives one `<img>` and the line gives no `<p>`. */
  lemma ImageLine(raw: string)
    requires HeadingMatch(Strip(raw)).None? && FindImages(Strip(raw)) != []
    ensures var images := FindImages(Strip(raw));
      && |RenderLine(raw)| == |images|
      && forall i :: 0 <= i < |images| ==> RenderLine(raw)[i] == ImgTag(images[i])
  {
  }

  /** A nonempty line that is neither a heading nor holds an image is a paragraph of the stripped line. */
  lemma ParagraphLine(raw: string)
    requires Strip(raw) != [] && HeadingMatch(Strip(raw)).None? && FindImages(Strip(raw)) == []
    ensures RenderLine(raw) == ["<p>" + Strip(raw) + "</p>"]
  {
  }

  /** In particular, a line that does not start with `#` and has no `!` is a paragraph. */
  lemma PlainTextParagraph(raw: string)
    requires Strip(raw) != [] && Strip(raw)[0] != '#' && '!' !in Strip(raw)
    ensures RenderLine(raw) == ["<p>" + Strip(raw) + "</p>"]
  {
    NoBangNoImages(Strip(raw));
    ParagraphLine(raw);
  }

  /** `Hi!` has a `!` but no image, so it is a paragraph too. */
  lemma BangParagraph()
    ensures RenderLine("Hi!") == ["<p>Hi!</p>"]
  {
    StripKeepsStripped("Hi!");
    assert FindImages("Hi!") == [] by {
      assert "Hi!" == "Hi" + "!";
      PlainPrefixImages("Hi", "!");
      assert MatchAt("!").None?;
      assert "!"[1..] == [];
    }
    ParagraphLine("Hi!");
    assert "<p>" + "Hi!" + "</p>" == "<p>Hi!</p>";
  }

  /** Paragraph text is not escaped: `a<b` is emitted as `<p>a<b</p>`. */
  lemma ParagraphNotEscaped()
    ensures RenderLine("a<b") == ["<p>a<b</p>"]
  {
    StripKeepsStripped("a<b");
    PlainTextParagraph("a<b");
    assert "<p>" + "a<b" + "</p>" == "<p>a<b</p>";
  }
}
