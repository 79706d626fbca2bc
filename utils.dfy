/**
 * builder/utils.py: slugs, titles, HTML escaping and the path helpers.
 *
 * A path is the sequence of its segments (`Path.parts` without the
 * anchor); an absolute path is the sequence of segments below `/`.
 */
module Utils {

  import opened Wrappers
  import opened Strings

  // ---------------------------------------------------------------- slugify

  /** The characters `[a-z0-9]` that `slugify` keeps. */
  predicate IsSlugChar(c: char) { IsLower(c) || IsDigit(c) }

  predicate IsNotSlugChar(c: char) { !IsSlugChar(c) }

  predicate IsHyphen(c: char) { c == '-' }

  /** Every character is in `[a-z0-9-]`. */
  predicate OnlySlugChars(s: string) {
    forall i :: 0 <= i < |s| ==> IsSlugChar(s[i]) || s[i] == '-'
  }

  predicate NoDoubleHyphen(s: string) {
    forall i :: 0 <= i < |s| - 1 ==> !(s[i] == '-' && s[i + 1] == '-')
  }

  /** What `slugify` promises of its result. */
  predicate IsSlug(s: string) {
    && s != []
    && OnlySlugChars(s)
    && NoDoubleHyphen(s)
    && s[0] != '-'
    && s[|s| - 1] != '-'
  }

  /** The `[a-z0-9]` characters of `s`, in order. */
  function Alnums(s: string): string
    decreases |s|
  {
    if s == [] then [] else (if IsSlugChar(s[0]) then [s[0]] else []) + Alnums(s[1..])
  }

  lemma {:induction false} AlnumsConcat(a: string, b: string)
    ensures Alnums(a + b) == Alnums(a) + Alnums(b)
    decreases |a|
  {
    if a == [] {
      assert a + b == b;
    } else {
      var h := if IsSlugChar(a[0]) then [a[0]] else [];
      assert (a + b)[0] == a[0];
      assert (a + b)[1..] == a[1..] + b;
      assert Alnums(a + b) == h + Alnums(a[1..] + b);
      AlnumsConcat(a[1..], b);
      assert Alnums(a) == h + Alnums(a[1..]);
      assert h + (Alnums(a[1..]) + Alnums(b)) == (h + Alnums(a[1..])) + Alnums(b);
    }
  }

  lemma {:induction false} AlnumsNone(s: string)
    requires forall i :: 0 <= i < |s| ==> !IsSlugChar(s[i])
    ensures Alnums(s) == []
    decreases |s|
  {
    if s != [] {
      AlnumsNone(s[1..]);
    }
  }

  /** If `t` is `s` with some leading characters outside `[a-z0-9]` removed, both keep the same `[a-z0-9]` characters. */
  lemma AlnumsDropped(s: string, t: string)
    requires |t| <= |s| && t == s[|s| - |t|..]
    requires forall i :: 0 <= i < |s| - |t| ==> !IsSlugChar(s[i])
    ensures Alnums(t) == Alnums(s)
  {
    var k := |s| - |t|;
    assert s == s[..k] + t;
    AlnumsConcat(s[..k], t);
    AlnumsNone(s[..k]);
  }

  /** `re.sub(r"[^a-z0-9]+", "-", s)`: each run of other characters becomes one hyphen. */
  function Collapse(s: string): (r: string)
    ensures OnlySlugChars(r) && NoDoubleHyphen(r)
    ensures Alnums(r) == Alnums(s)
    ensures s != [] && IsSlugChar(s[0]) ==> r != [] && r[0] == s[0]
    decreases |s|
  {
    if s == [] then []
    else if IsSlugChar(s[0]) then
      var rest := Collapse(s[1..]);
      assert Alnums([s[0]] + rest) == [s[0]] + Alnums(rest) by {
        AlnumsConcat([s[0]], rest);
      }
      [s[0]] + rest
    else
      var t := TrimStart(s, IsNotSlugChar);
      var rest := Collapse(t);
      AlnumsDropped(s, t);
      AlnumsConcat("-", rest);
      "-" + rest
  }

  /** Removing leading characters stops inside `a` when `a` holds a character that is kept. */
  lemma {:induction false} TrimStartWithin(a: string, b: string, drop: char -> bool)
    requires a != [] && !drop(a[|a| - 1])
    ensures TrimStart(a + b, drop) == TrimStart(a, drop) + b
    decreases |a|
  {
    if drop(a[0]) {
      assert (a + b)[1..] == a[1..] + b;
      TrimStartWithin(a[1..], b, drop);
    }
  }

  /** Text that ends in `[a-z0-9]` collapses on its own: what follows it does not change it. */
  lemma {:induction false} CollapseConcat(a: string, b: string)
    requires a == [] || IsSlugChar(a[|a| - 1])
    ensures Collapse(a + b) == Collapse(a) + Collapse(b)
    decreases |a|
  {
    if a == [] {
      assert a + b == b;
    } else if IsSlugChar(a[0]) {
      assert (a + b)[1..] == a[1..] + b;
      CollapseConcat(a[1..], b);
    } else {
      var t := TrimStart(a, IsNotSlugChar);
      TrimStartWithin(a, b, IsNotSlugChar);
      CollapseConcat(t, b);
    }
  }

  /**
   * Each maximal run of characters outside `[a-z0-9]` becomes exactly one
   * hyphen, in its place.
   */
  lemma CollapseSeparator(a: string, w: string, b: string)
    requires a == [] || IsSlugChar(a[|a| - 1])
    requires w != [] && forall i :: 0 <= i < |w| ==> !IsSlugChar(w[i])
    requires b == [] || IsSlugChar(b[0])
    ensures Collapse(a + w + b) == Collapse(a) + "-" + Collapse(b)
  {
    var t := w + b;
    CollapseConcat(a, t);
    CollapseRun(w, b);
    Associative(a, w, b);
    Associative(Collapse(a), "-", Collapse(b));
  }

  /** A leading run of characters outside `[a-z0-9]` becomes one hyphen. */
  lemma CollapseRun(w: string, b: string)
    requires w != [] && forall i :: 0 <= i < |w| ==> !IsSlugChar(w[i])
    requires b == [] || IsSlugChar(b[0])
    ensures Collapse(w + b) == "-" + Collapse(b)
  {
    var t := w + b;
    assert TrimStart(t, IsNotSlugChar) == b by {
      assert forall i :: 0 <= i < |w| ==> IsNotSlugChar(w[i]);
      TrimStartSkips(w, b, IsNotSlugChar);
    }
    assert t[0] == w[0];
  }

  /** `s.strip("-")` */
  function StripHyphens(s: string): string {
    TrimEnd(TrimStart(s, IsHyphen), IsHyphen)
  }

  /** A slice of a string of `[a-z0-9-]` without `--` is again one. */
  lemma SliceKeepsSlugChars(s: string, i: nat, j: nat)
    requires i <= j <= |s|
    requires OnlySlugChars(s) && NoDoubleHyphen(s)
    ensures OnlySlugChars(s[i..j]) && NoDoubleHyphen(s[i..j])
  {
    var r := s[i..j];
    forall k | 0 <= k < |r| ensures IsSlugChar(r[k]) || r[k] == '-' {
      assert r[k] == s[i + k];
    }
    forall k | 0 <= k < |r| - 1 ensures !(r[k] == '-' && r[k + 1] == '-') {
      assert r[k] == s[i + k] && r[k + 1] == s[i + k + 1];
    }
  }

  /** Dropping trailing characters outside `[a-z0-9]` keeps the `[a-z0-9]` characters. */
  lemma AlnumsDroppedEnd(s: string, t: string)
    requires |t| <= |s| && t == s[..|t|]
    requires forall i :: |t| <= i < |s| ==> !IsSlugChar(s[i])
    ensures Alnums(t) == Alnums(s)
  {
    assert s == t + s[|t|..];
    AlnumsConcat(t, s[|t|..]);
    AlnumsNone(s[|t|..]);
  }

  lemma StripHyphensKeeps(s: string)
    requires OnlySlugChars(s) && NoDoubleHyphen(s)
    ensures var r := StripHyphens(s);
      && OnlySlugChars(r) && NoDoubleHyphen(r)
      && Alnums(r) == Alnums(s)
      && (r == [] || (r[0] != '-' && r[|r| - 1] != '-'))
  {
    var t := TrimStart(s, IsHyphen);
    var r := TrimEnd(t, IsHyphen);
    StripHyphensSlice(s);
    AlnumsDropped(s, t);
    AlnumsDroppedEnd(t, r);
  }

  lemma StripHyphensSlice(s: string)
    requires OnlySlugChars(s) && NoDoubleHyphen(s)
    ensures OnlySlugChars(StripHyphens(s)) && NoDoubleHyphen(StripHyphens(s))
  {
    var t := TrimStart(s, IsHyphen);
    SliceKeepsSlugChars(s, |s| - |t|, |s|);
    var r := TrimEnd(t, IsHyphen);
    SliceKeepsSlugChars(t, 0, |r|);
  }

  /** A nonempty string of `[a-z0-9-]` with no hyphen at its start has an alphanumeric character. */
  lemma SlugHasAlnum(r: string)
    requires r != [] && OnlySlugChars(r) && r[0] != '-'
    ensures Alnums(r) != []
  {
    assert r == [r[0]] + r[1..];
    AlnumsConcat([r[0]], r[1..]);
  }

  /**
   * `slugify`: lower-case, hyphens for runs of other characters, no hyphens
   * at the ends, and "section" when nothing alphanumeric is left.
   */
  function Slugify(value: string): (r: string)
    ensures IsSlug(r)
    ensures Alnums(Lower(value)) != [] ==> Alnums(r) == Alnums(Lower(value))
    ensures Alnums(Lower(value)) == [] ==> r == "section"
  {
    var collapsed := Collapse(Lower(value));
    var slug := StripHyphens(collapsed);
    StripHyphensKeeps(collapsed);
    if slug == [] then
      SectionIsSlug();
      "section"
    else
      SlugHasAlnum(slug);
      slug
  }

  lemma SectionIsSlug()
    ensures IsSlug("section")
  {
  }

  /** A string that already is a slug is its own slug. */
  lemma {:induction false} CollapseFixesSlug(s: string)
    requires OnlySlugChars(s) && NoDoubleHyphen(s)
    ensures Collapse(s) == s
    decreases |s|
  {
    if s != [] {
      if IsSlugChar(s[0]) {
        CollapseFixesSlug(s[1..]);
        assert s == [s[0]] + s[1..];
      } else {
        assert s[1..] == [] || IsSlugChar(s[1]);
        TrimStartSkips([s[0]], s[1..], IsNotSlugChar);
        assert [s[0]] + s[1..] == s;
        CollapseFixesSlug(s[1..]);
        assert s == "-" + s[1..];
      }
    }
  }

  lemma SlugifyFixesSlugs(s: string)
    requires IsSlug(s)
    ensures Slugify(s) == s
  {
    LowerKeeps(s);
    CollapseFixesSlug(s);
    StripHyphensFixesSlug(s);
  }

  lemma StripHyphensFixesSlug(s: string)
    requires IsSlug(s)
    ensures StripHyphens(s) == s
  {
    assert TrimStart(s, IsHyphen) == s;
    TrimEndKeeps(s, IsHyphen);
  }

  /** `slugify(slugify(s)) == slugify(s)` */
  lemma SlugifyIdempotent(s: string)
    ensures Slugify(Slugify(s)) == Slugify(s)
  {
    SlugifyFixesSlugs(Slugify(s));
  }

  /** Two slugs joined by one hyphen make a slug. */
  lemma HyphenSlug(x: string, y: string)
    requires IsSlug(x) && IsSlug(y)
    ensures IsSlug(x + "-" + y)
  {
    var r := x + "-" + y;
    forall i | 0 <= i < |r| ensures IsSlugChar(r[i]) || r[i] == '-' {
      if i < |x| { assert r[i] == x[i]; }
      else if i > |x| { assert r[i] == y[i - |x| - 1]; }
    }
    forall i | 0 <= i < |r| - 1 ensures !(r[i] == '-' && r[i + 1] == '-') {
      if i + 1 < |x| { assert r[i] == x[i] && r[i + 1] == x[i + 1]; }
      else if i + 1 == |x| { assert r[i] == x[|x| - 1]; }
      else if i == |x| { assert r[i + 1] == y[0]; }
      else { assert r[i] == y[i - |x| - 1] && r[i + 1] == y[i - |x|]; }
    }
  }

  /** Slugs around a separator without upper-case letters have nothing to lower. */
  lemma LowerSeparated(x: string, w: string, y: string)
    requires IsSlug(x) && IsSlug(y)
    requires forall i :: 0 <= i < |w| ==> !IsUpper(w[i])
    ensures Lower(x + w + y) == x + w + y
  {
    var v := x + w + y;
    forall i | 0 <= i < |v| ensures !IsUpper(v[i]) {
      if i < |x| { assert v[i] == x[i]; }
      else if i < |x| + |w| { assert v[i] == w[i - |x|]; }
      else { assert v[i] == y[i - |x| - |w|]; }
    }
    LowerKeeps(v);
  }

  /** Two slugs around a run of separators with no capital letter slugify to the slugs joined by one hyphen. */
  lemma SlugifySeparator(x: string, w: string, y: string)
    requires IsSlug(x) && IsSlug(y)
    requires w != [] && forall i :: 0 <= i < |w| ==> !IsSlugChar(w[i]) && !IsUpper(w[i])
    ensures Slugify(x + w + y) == x + "-" + y
  {
    var v := x + w + y;
    var r := x + "-" + y;
    LowerSeparated(x, w, y);
    assert Collapse(v) == r by {
      CollapseSeparator(x, w, y);
      CollapseFixesSlug(x);
      CollapseFixesSlug(y);
    }
    HyphenSlug(x, y);
    StripHyphensFixesSlug(r);
  }

  // ----------------------------------------------------------- derive_title

  /** The separators of `re.split(r"[-_\s]+", ...)`. */
  predicate IsWordSep(c: char) { c == '-' || c == '_' || IsSpace(c) }

  predicate IsWordChar(c: char) { !IsWordSep(c) }

  predicate NoWordSep(w: string) {
    forall i :: 0 <= i < |w| ==> IsWordChar(w[i])
  }

  /**
   * The nonempty pieces of `re.split(r"[-_\s]+", s.strip())`: the maximal
   * runs of characters that are not separators.
   */
  function Words(s: string): (ws: seq<string>)
    ensures forall i :: 0 <= i < |ws| ==> ws[i] != [] && NoWordSep(ws[i])
    decreases |s|
  {
    if s == [] then []
    else if IsWordSep(s[0]) then Words(s[1..])
    else
      var rest := TrimStart(s, IsWordChar);
      [s[..|s| - |rest|]] + Words(rest)
  }

  /** `str.capitalize` */
  function Capitalize(w: string): string {
    if w == [] then [] else [UpperChar(w[0])] + Lower(w[1..])
  }

  function CapitalizeAll(ws: seq<string>): (r: seq<string>)
    ensures |r| == |ws|
  {
    seq(|ws|, i requires 0 <= i < |ws| => Capitalize(ws[i]))
  }

  /** A word that starts with no lower-case letter and has no upper-case letter after that. */
  predicate IsCapitalised(w: string) {
    w != [] && !IsLower(w[0]) && forall i :: 1 <= i < |w| ==> !IsUpper(w[i])
  }

  /**
   * `derive_title`: the input when it has no words, otherwise its words
   * capitalised and joined by single spaces.
   */
  function DeriveTitle(value: string): (r: string)
    ensures Words(value) == [] ==> r == value
    ensures Words(value) != [] ==> Words(r) == CapitalizeAll(Words(value))
    ensures Words(value) != [] ==> r == Join(Words(r), " ")
    ensures Words(value) != [] ==> '-' !in r && '_' !in r
    ensures forall i :: 0 <= i < |Words(r)| ==> IsCapitalised(Words(r)[i])
  {
    var words := Words(value);
    if words == [] then value
    else
      var caps := CapitalizeAll(words);
      CapitalizeAllWords(words);
      WordsOfJoin(caps);
      JoinNoWordSep(caps);
      Join(caps, " ")
  }

  /** The title of one word that is already capitalised is that word. */
  lemma DeriveTitleOfWord(w: string)
    requires NoWordSep(w) && IsCapitalised(w)
    ensures DeriveTitle(w) == w
  {
    WordOfWord(w, []);
    assert w + [] == w;
    LowerKeeps(w[1..]);
    assert Capitalize(w) == [w[0]] + w[1..] == w;
    assert CapitalizeAll([w]) == [w];
  }

  lemma CapitalizeWord(w: string)
    requires w != [] && NoWordSep(w)
    ensures Capitalize(w) != [] && NoWordSep(Capitalize(w)) && IsCapitalised(Capitalize(w))
    ensures Capitalize(Capitalize(w)) == Capitalize(w)
  {
    var tail := Lower(w[1..]);
    var c := [UpperChar(w[0])] + tail;
    assert Capitalize(w) == c;
    forall i | 0 <= i < |c| ensures IsWordChar(c[i]) && (i >= 1 ==> !IsUpper(c[i])) {
      if i >= 1 {
        assert c[i] == tail[i - 1] == LowerChar(w[i]);
      }
    }
    assert c[1..] == tail;
    LowerKeeps(tail);
  }

  lemma CapitalizeAllWords(ws: seq<string>)
    requires forall i :: 0 <= i < |ws| ==> ws[i] != [] && NoWordSep(ws[i])
    ensures var caps := CapitalizeAll(ws);
      forall i :: 0 <= i < |caps| ==> caps[i] != [] && NoWordSep(caps[i]) && IsCapitalised(caps[i])
  {
    forall i | 0 <= i < |ws| { CapitalizeWord(ws[i]); }
  }

  /** Splitting single-space-joined words into words gives the words back. */
  lemma {:induction false} WordsOfJoin(ws: seq<string>)
    requires forall i :: 0 <= i < |ws| ==> ws[i] != [] && NoWordSep(ws[i])
    ensures Words(Join(ws, " ")) == ws
    decreases |ws|
  {
    if ws == [] {
    } else if |ws| == 1 {
      WordOfWord(ws[0], []);
      assert ws[0] + [] == ws[0];
    } else {
      WordsOfJoin(ws[1..]);
      WordsOfJoinStep(ws);
    }
  }

  /** The first word and the words of the rest, once the rest is known to split back. */
  lemma WordsOfJoinStep(ws: seq<string>)
    requires |ws| >= 2 && ws[0] != [] && NoWordSep(ws[0])
    requires Words(Join(ws[1..], " ")) == ws[1..]
    ensures Words(Join(ws, " ")) == ws
  {
    var tail := Join(ws[1..], " ");
    var spaced := " " + tail;
    assert Words(Join(ws, " ")) == [ws[0]] + Words(spaced) by {
      assert Join(ws, " ") == ws[0] + spaced by {
        Associative(ws[0], " ", tail);
      }
      WordOfWord(ws[0], spaced);
    }
    assert Words(spaced) == Words(tail) by {
      assert spaced[0] == ' ' && spaced[1..] == tail;
    }
    assert ws == [ws[0]] + ws[1..];
  }

  lemma WordOfWord(w: string, rest: string)
    requires w != [] && NoWordSep(w)
    requires rest == [] || IsWordSep(rest[0])
    ensures Words(w + rest) == [w] + Words(rest)
  {
    var s := w + rest;
    TrimStartSkips(w, rest, IsWordChar);
    assert s[..|s| - |rest|] == w;
  }

  lemma {:induction false} JoinNoWordSep(ws: seq<string>)
    requires forall i :: 0 <= i < |ws| ==> NoWordSep(ws[i])
    ensures '-' !in Join(ws, " ") && '_' !in Join(ws, " ")
    decreases |ws|
  {
    if |ws| > 1 {
      JoinNoWordSep(ws[1..]);
    }
  }

  /** `derive_title(derive_title(s)) == derive_title(s)` */
  lemma DeriveTitleIdempotent(value: string)
    ensures DeriveTitle(DeriveTitle(value)) == DeriveTitle(value)
  {
    var words := Words(value);
    if words != [] {
      var caps := CapitalizeAll(words);
      assert Words(DeriveTitle(value)) == caps;
      forall i | 0 <= i < |caps| ensures Capitalize(caps[i]) == caps[i] {
        CapitalizeWord(words[i]);
      }
      assert CapitalizeAll(caps) == caps;
    }
  }

  // ------------------------------------------------------------ escape_html

  predicate IsHtmlSpecial(c: char) {
    c == '&' || c == '<' || c == '>' || c == '"' || c == '\''
  }

  /**
   * `escape_html`: replaces `&` first, then `<`, `>`, `"` and `'`, each
   * by its entity.
   */
  function EscapeHtml(value: string): string {
    var amp := ReplaceChar(value, '&', "&amp;");
    var lt := ReplaceChar(amp, '<', "&lt;");
    var gt := ReplaceChar(lt, '>', "&gt;");
    var quot := ReplaceChar(gt, '"', "&quot;");
    ReplaceChar(quot, '\'', "&#39;")
  }

  /** Text with none of the five characters is returned unchanged. */
  lemma EscapeHtmlKeepsPlain(value: string)
    requires forall i :: 0 <= i < |value| ==> !IsHtmlSpecial(value[i])
    ensures EscapeHtml(value) == value
  {
    assert '&' !in value && '<' !in value && '>' !in value && '"' !in value && '\'' !in value;
  }

  /** The entity each character becomes. */
  function EscapeChar(c: char): string {
    match c
    case '&' => "&amp;"
    case '<' => "&lt;"
    case '>' => "&gt;"
    case '"' => "&quot;"
    case '\'' => "&#39;"
    case _ => [c]
  }

  /** Escaping character by character, a reference for the chain of replacements. */
  function EscapeEach(s: string): string
    decreases |s|
  {
    if s == [] then [] else EscapeChar(s[0]) + EscapeEach(s[1..])
  }

  lemma EscapeHtmlConcat(a: string, b: string)
    ensures EscapeHtml(a + b) == EscapeHtml(a) + EscapeHtml(b)
  {
    var a1, b1 := ReplaceChar(a, '&', "&amp;"), ReplaceChar(b, '&', "&amp;");
    ReplaceCharConcat(a, b, '&', "&amp;");
    var a2, b2 := ReplaceChar(a1, '<', "&lt;"), ReplaceChar(b1, '<', "&lt;");
    ReplaceCharConcat(a1, b1, '<', "&lt;");
    var a3, b3 := ReplaceChar(a2, '>', "&gt;"), ReplaceChar(b2, '>', "&gt;");
    ReplaceCharConcat(a2, b2, '>', "&gt;");
    var a4, b4 := ReplaceChar(a3, '"', "&quot;"), ReplaceChar(b3, '"', "&quot;");
    ReplaceCharConcat(a3, b3, '"', "&quot;");
    ReplaceCharConcat(a4, b4, '\'', "&#39;");
  }

  lemma EscapeHtmlChar(c: char)
    ensures EscapeHtml([c]) == EscapeChar(c)
  {
    if c == '&' {
      ReplaceCharSingle(c, '&', "&amp;");
      assert '<' !in "&amp;" && '>' !in "&amp;" && '"' !in "&amp;" && '\'' !in "&amp;";
    } else if c == '<' {
      ReplaceCharSingle(c, '<', "&lt;");
      assert '>' !in "&lt;" && '"' !in "&lt;" && '\'' !in "&lt;";
    } else if c == '>' {
      ReplaceCharSingle(c, '>', "&gt;");
      assert '"' !in "&gt;" && '\'' !in "&gt;";
    } else if c == '"' {
      ReplaceCharSingle(c, '"', "&quot;");
      assert '\'' !in "&quot;";
    } else if c == '\'' {
      ReplaceCharSingle(c, '\'', "&#39;");
    }
  }

  /** Because `&` is replaced first, no entity produced by a later step is escaped again. */
  lemma {:induction false} EscapeHtmlPerCharacter(s: string)
    ensures EscapeHtml(s) == EscapeEach(s)
    decreases |s|
  {
    if s != [] {
      assert s == [s[0]] + s[1..];
      EscapeHtmlConcat([s[0]], s[1..]);
      EscapeHtmlPerCharacter(s[1..]);
      EscapeHtmlChar(s[0]);
    }
  }

  /** No `<`, `>`, `"` or `'` is left in escaped text: it cannot open a tag or close an attribute. */
  lemma EscapeHtmlSafe(value: string)
    ensures var r := EscapeHtml(value);
      '<' !in r && '>' !in r && '"' !in r && '\'' !in r
  {
    EscapeHtmlPerCharacter(value);
    EscapeEachSafe(value);
  }

  lemma {:induction false} EscapeEachSafe(s: string)
    ensures var r := EscapeEach(s);
      '<' !in r && '>' !in r && '"' !in r && '\'' !in r
    decreases |s|
  {
    if s != [] {
      EscapeEachSafe(s[1..]);
      EscapeCharSafe(s[0]);
    }
  }

  lemma EscapeCharSafe(c: char)
    ensures var e := EscapeChar(c);
      '<' !in e && '>' !in e && '"' !in e && '\'' !in e
  {
    if IsHtmlSpecial(c) {
      var e := EscapeChar(c);
      assert e[0] == '&' && forall i :: 1 <= i < |e| ==> e[i] in "amplgtquo;#39";
    }
  }

  /** Decodes the five entities that `escape_html` produces. */
  function Unescape(t: string): string
    decreases |t|
  {
    if t == [] then []
    else if |t| >= 5 && t[..5] == "&amp;" then "&" + Unescape(t[5..])
    else if |t| >= 4 && t[..4] == "&lt;" then "<" + Unescape(t[4..])
    else if |t| >= 4 && t[..4] == "&gt;" then ">" + Unescape(t[4..])
    else if |t| >= 6 && t[..6] == "&quot;" then "\"" + Unescape(t[6..])
    else if |t| >= 5 && t[..5] == "&#39;" then "'" + Unescape(t[5..])
    else [t[0]] + Unescape(t[1..])
  }

  lemma UnescapeChar(c: char, rest: string)
    ensures Unescape(EscapeChar(c) + rest) == [c] + Unescape(rest)
  {
    var e := EscapeChar(c);
    var t := e + rest;
    assert t[|e|..] == rest;
    assert t[..|e|] == e;
    if !IsHtmlSpecial(c) {
      assert t[0] == c && t[1..] == rest;
      assert |t| >= 4 ==> t[..4][0] == c;
      assert |t| >= 5 ==> t[..5][0] == c;
      assert |t| >= 6 ==> t[..6][0] == c;
    } else if c == '<' {
      assert |t| >= 5 ==> t[..5][1] == 'l';
    } else if c == '>' {
      assert |t| >= 5 ==> t[..5][1] == 'g';
      assert t[..4] != "&lt;" by { assert t[..4][1] == 'g'; }
    } else if c == '"' {
      assert t[..5] != "&amp;" by { assert t[..5][1] == 'q'; }
      assert t[..4] != "&lt;" && t[..4] != "&gt;" by { assert t[..4][1] == 'q'; }
    } else if c == '\'' {
      assert t[..5] != "&amp;" by { assert t[..5][1] == '#'; }
      assert t[..4] != "&lt;" && t[..4] != "&gt;" by { assert t[..4][1] == '#'; }
      assert |t| >= 6 ==> t[..6][1] == '#';
    }
  }

  /** Unescaping what `escape_html` produced gives the original text back. */
  lemma {:induction false} UnescapeEscapeHtml(s: string)
    ensures Unescape(EscapeHtml(s)) == s
    decreases |s|
  {
    EscapeHtmlPerCharacter(s);
    EscapeEachRoundTrip(s);
  }

  lemma {:induction false} EscapeEachRoundTrip(s: string)
    ensures Unescape(EscapeEach(s)) == s
    decreases |s|
  {
    if s != [] {
      UnescapeChar(s[0], EscapeEach(s[1..]));
      EscapeEachRoundTrip(s[1..]);
      assert s == [s[0]] + s[1..];
    }
  }

  // -------------------------------------------------------------- the paths

  /** A segment as `Path.resolve()` leaves it: not empty, not `.`, not `..`, no separator. */
  predicate IsNormalSegment(s: string) {
    s != "" && s != "." && s != ".." && '/' !in s && '\\' !in s
  }

  predicate IsNormalPath(p: seq<string>) {
    forall i :: 0 <= i < |p| ==> IsNormalSegment(p[i])
  }

  /** `posix_path`: the segments joined by `/`. */
  function PosixPath(parts: seq<string>): string {
    Join(parts, "/")
  }

  /** Splitting a POSIX path string at `/` gives its segments back. */
  lemma PosixPathRoundTrip(parts: seq<string>)
    requires parts != []
    requires forall i :: 0 <= i < |parts| ==> '/' !in parts[i]
    ensures Split(PosixPath(parts), '/') == parts
  {
    SplitJoin(parts, '/');
  }

  /** `Path.parent`; the parent of `/` is `/`. */
  function Parent(p: seq<string>): (r: seq<string>)
    ensures p != [] ==> r == p[..|p| - 1]
  {
    if p == [] then [] else p[..|p| - 1]
  }

  /**
   * Lexical `Path.resolve()` of `cur` joined with `parts`: empty and `.`
   * parts are skipped, `..` goes to the parent, anything else goes down.
   */
  function Walk(cur: seq<string>, parts: seq<string>): seq<string>
    decreases |parts|
  {
    if parts == [] then cur
    else
      var p := parts[0];
      Walk(if p == "" || p == "." then cur else if p == ".." then Parent(cur) else cur + [p], parts[1..])
  }

  lemma {:induction false} WalkDown(cur: seq<string>, parts: seq<string>)
    requires IsNormalPath(parts)
    ensures Walk(cur, parts) == cur + parts
    decreases |parts|
  {
    if parts != [] {
      WalkDown(cur + [parts[0]], parts[1..]);
      assert cur + [parts[0]] + parts[1..] == cur + parts;
    }
  }

  function Ups(n: nat): (r: seq<string>)
    ensures |r| == n && forall i :: 0 <= i < n ==> r[i] == ".."
  {
    seq(n, _ => "..")
  }

  lemma {:induction false} WalkUp(cur: seq<string>, n: nat, rest: seq<string>)
    requires n <= |cur|
    ensures Walk(cur, Ups(n) + rest) == Walk(cur[..|cur| - n], rest)
    decreases n
  {
    if n == 0 {
      assert Ups(0) + rest == rest;
      assert cur[..|cur|] == cur;
    } else {
      var parts := Ups(n) + rest;
      assert parts[0] == "..";
      assert parts[1..] == Ups(n - 1) + rest;
      WalkUp(cur[..|cur| - 1], n - 1, rest);
      assert cur[..|cur| - 1][..|cur| - 1 - (n - 1)] == cur[..|cur| - n];
    }
  }

  function CommonPrefixLength(a: seq<string>, b: seq<string>): (k: nat)
    ensures k <= |a| && k <= |b| && a[..k] == b[..k]
    ensures k < |a| && k < |b| ==> a[k] != b[k]
    decreases |a|
  {
    if a != [] && b != [] && a[0] == b[0] then
      var k := 1 + CommonPrefixLength(a[1..], b[1..]);
      assert a[..k] == [a[0]] + a[1..][..k - 1];
      assert b[..k] == [b[0]] + b[1..][..k - 1];
      k
    else 0
  }

  /** The segments of `posixpath.relpath(target, start)`. */
  function RelSegments(target: seq<string>, start: seq<string>): seq<string> {
    var k := CommonPrefixLength(target, start);
    Ups(|start| - k) + target[k..]
  }

  /**
   * `posix_relpath`. The empty path stands for `.`, so an empty `start`
   * and a `start` of `.` are the same start here.
   */
  function PosixRelpath(target: seq<string>, start: seq<string>): string {
    var rel := RelSegments(target, start);
    ReplaceChar(if rel == [] then "." else Join(rel, "/"), '\\', "/")
  }

  lemma {:induction false} JoinOmits(parts: seq<string>, sep: string, c: char)
    requires c !in sep
    requires forall i :: 0 <= i < |parts| ==> c !in parts[i]
    ensures c !in Join(parts, sep)
    decreases |parts|
  {
    if |parts| > 1 {
      JoinOmits(parts[1..], sep, c);
    }
  }

  /** Relative to the vault root (`.`), a path is its own POSIX string. */
  lemma RelpathFromRoot(target: seq<string>)
    requires target != [] && IsNormalPath(target)
    ensures PosixRelpath(target, []) == PosixPath(target)
  {
    assert RelSegments(target, []) == target;
    JoinOmits(target, "/", '\\');
  }

  /** Following the relative path from `start` arrives at `target`. */
  lemma RelpathRoundTrip(target: seq<string>, start: seq<string>)
    requires IsNormalPath(target) && IsNormalPath(start)
    ensures Walk(start, Split(PosixRelpath(target, start), '/')) == target
  {
    var k := CommonPrefixLength(target, start);
    var rel := RelSegments(target, start);
    if rel == [] {
      assert target == target[..k] == start[..k] == start;
      SplitFree(".", '/');
    } else {
      RelSegmentsPieces(target, start);
      JoinOmits(rel, "/", '\\');
      assert PosixRelpath(target, start) == Join(rel, "/");
      SplitJoin(rel, '/');
      WalkRel(target, start);
    }
  }

  /** The pieces of a relative path are `..` or segments of the target: none holds a separator. */
  lemma RelSegmentsPieces(target: seq<string>, start: seq<string>)
    requires IsNormalPath(target)
    ensures var rel := RelSegments(target, start);
      forall i :: 0 <= i < |rel| ==> '/' !in rel[i] && '\\' !in rel[i]
  {
    var k := CommonPrefixLength(target, start);
    var u := |start| - k;
    var rel := RelSegments(target, start);
    forall i | 0 <= i < |rel| ensures '/' !in rel[i] && '\\' !in rel[i] {
      if i < u {
        assert rel[i] == "..";
      } else {
        assert rel[i] == target[k + i - u];
      }
    }
  }

  /** Walking the relative segments from `start` arrives at `target`. */
  lemma WalkRel(target: seq<string>, start: seq<string>)
    requires IsNormalPath(target)
    ensures Walk(start, RelSegments(target, start)) == target
  {
    var k := CommonPrefixLength(target, start);
    WalkUp(start, |start| - k, target[k..]);
    assert IsNormalPath(target[k..]) by {
      forall i | 0 <= i < |target| - k ensures IsNormalSegment(target[k..][i]) {
        assert target[k..][i] == target[k + i];
      }
    }
    WalkDown(start[..k], target[k..]);
    assert start[..k] + target[k..] == target;
  }

  // -------------------------------------------------------------- is_within

  /** `path.relative_to(ancestor)`, `None` where Python raises `ValueError`. */
  function RelativeTo(path: seq<string>, ancestor: seq<string>): (r: Option<seq<string>>)
    ensures r.Some? ==> ancestor + r.value == path
    ensures r.None? ==> forall rest :: ancestor + rest != path
  {
    if |ancestor| <= |path| && path[..|ancestor|] == ancestor then
      assert ancestor + path[|ancestor|..] == path;
      Some(path[|ancestor|..])
    else
      assert forall rest :: (ancestor + rest)[..|ancestor|] == ancestor;
      None
  }

  /** `is_within`: `relative_to` succeeds, that is the ancestor's segments begin the path's. */
  function IsWithin(path: seq<string>, ancestor: seq<string>): (r: bool)
    ensures r <==> ancestor <= path
  {
    RelativeTo(path, ancestor).Some?
  }

  lemma IsWithinReflexive(p: seq<string>)
    ensures IsWithin(p, p)
  {
  }

  lemma IsWithinTransitive(p: seq<string>, q: seq<string>, a: seq<string>)
    requires IsWithin(p, q) && IsWithin(q, a)
    ensures IsWithin(p, a)
  {
  }
}
