/**
 * Block slugs. At registration a slug comes from a template file name
 * (`removeBladeExtension` applied to the lower-cased name with every
 * `acf-` removed); at render time it comes from the block name that ACF
 * hands back (every `acf/`, then every `acf-` removed).
 */
module BlockSlug {
  import opened Wrappers
  import opened PhpStrings

  const BladeSuffix: string := ".blade.php"

  /**
   * The text `preg_match('/(.*)\.blade\.php$/')` can capture before the
   * suffix: `$` matches at the very end or just before one final newline.
   */
  function BladeBody(filename: string): (r: Option<string>)
    ensures r.Some? <==> EndsWith(filename, BladeSuffix) || EndsWith(filename, BladeSuffix + "\n")
    ensures r.Some? && EndsWith(filename, BladeSuffix) ==> filename == r.value + BladeSuffix
  {
    if EndsWith(filename, BladeSuffix) then Some(filename[..|filename| - |BladeSuffix|])
    else if EndsWith(filename, BladeSuffix + "\n") then Some(filename[..|filename| - |BladeSuffix| - 1])
    else None
  }

  /**
   * The leftmost match of `(.*)` ending at the suffix: `.` does not match a
   * newline, so the capture starts after the last newline of the body.
   */
  function AfterLastNewline(s: string): (r: string)
    ensures '\n' !in r
    ensures EndsWith(s, r)
    ensures '\n' !in s ==> r == s
  {
    if |s| == 0 then ""
    else if s[|s| - 1] == '\n' then ""
    else
      var init := s[..|s| - 1];
      assert s == init + [s[|s| - 1]];
      assert '\n' !in s ==> '\n' !in init by {
        assert forall x :: x in init ==> x in s;
      }
      AfterLastNewline(init) + [s[|s| - 1]]
  }

  /**
   * `removeBladeExtension`: None (PHP `false`) unless the name ends in
   * `.blade.php`; otherwise the captured stem with every `-` removed.
   */
  function RemoveBladeExtension(filename: string): (r: Option<string>)
    ensures r.None? <==> !EndsWith(filename, BladeSuffix) && !EndsWith(filename, BladeSuffix + "\n")
    ensures r.Some? ==> '-' !in r.value && '\n' !in r.value
  {
    match BladeBody(filename)
    case None => None
    case Some(body) =>
      var stem := AfterLastNewline(body);
      ReplaceAllRemovesChar(stem, '-');
      ReplaceAllKeepsAbsentChar(stem, "-", "", '\n');
      Some(ReplaceAll(stem, "-", ""))
  }

  /** The slug of a template file, as `createBlocks` derives it. */
  function FileSlug(filename: string): (r: Option<string>)
    ensures r.Some? ==> '-' !in r.value
  {
    RemoveBladeExtension(ReplaceAll(ToLower(filename), "acf-", ""))
  }

  /** `!$slug`: no slug, or a slug PHP reads as false ("" or "0"). */
  predicate SkipsSlug(slug: Option<string>) {
    slug.None? || Falsy(slug.value)
  }

  /** The slug `renderBlock` derives from a block name. */
  function RenderSlug(name: string): (r: string)
    ensures '/' !in name && '-' !in name ==> r == name
  {
    var withoutPrefix := ReplaceAll(name, "acf/", "");
    ReplaceAllWithoutPatternChar(name, "acf/", "", '/');
    ReplaceAllWithoutPatternChar(withoutPrefix, "acf-", "", '-');
    ReplaceAll(withoutPrefix, "acf-", "")
  }

  /**
   * For a name without newlines, `removeBladeExtension` is "strip the final
   * `.blade.php`, then drop every hyphen".
   */
  lemma RemoveBladeExtensionPlain(filename: string)
    requires '\n' !in filename
    ensures RemoveBladeExtension(filename).None? <==> !EndsWith(filename, BladeSuffix)
    ensures EndsWith(filename, BladeSuffix) ==>
      RemoveBladeExtension(filename) == Some(ReplaceAll(filename[..|filename| - |BladeSuffix|], "-", ""))
  {
    if |filename| > 0 {
      assert filename[|filename| - 1] in filename;
    }
    if EndsWith(filename, BladeSuffix) {
      var body := filename[..|filename| - |BladeSuffix|];
      assert '\n' !in body by {
        assert forall x :: x in body ==> x in filename;
      }
    }
  }

  /** Round trip: a hyphen-free, newline-free stem is recovered from its template name. */
  lemma {:induction false} RemoveBladeExtensionOfStem(stem: string)
    requires '-' !in stem && '\n' !in stem
    ensures RemoveBladeExtension(stem + BladeSuffix) == Some(stem)
  {
    var name := stem + BladeSuffix;
    assert name[|name| - |BladeSuffix|..] == BladeSuffix;
    assert name[..|name| - |BladeSuffix|] == stem;
    ReplaceAllWithoutPatternChar(stem, "-", "", '-');
  }

  /** The name registered for a file (`str_replace('acf-', '', $slug)`) is the slug itself. */
  lemma RegisteredNameIsSlug(slug: string)
    requires '-' !in slug
    ensures ReplaceAll(slug, "acf-", "") == slug
  {
    ReplaceAllWithoutPatternChar(slug, "acf-", "", '-');
  }

  /** A file name without `/` yields a slug without `/`. */
  lemma {:induction false} FileSlugHasNoSlash(filename: string)
    requires '/' !in filename
    ensures FileSlug(filename).Some? ==> '/' !in FileSlug(filename).value
  {
    if FileSlug(filename).None? {
      return;
    }
    var lowered := ToLower(filename);
    ToLowerKeepsAbsentChar(filename, '/');
    var stripped := ReplaceAll(lowered, "acf-", "");
    ReplaceAllKeepsAbsentChar(lowered, "acf-", "", '/');
    var body := BladeBody(stripped).value;
    assert '/' !in body by {
      assert forall x :: x in body ==> x in stripped;
    }
    var stem := AfterLastNewline(body);
    assert '/' !in stem by {
      assert forall x :: x in stem ==> x in body;
    }
    ReplaceAllKeepsAbsentChar(stem, "-", "", '/');
  }

  /**
   * Registration and rendering agree: if the block name handed to the
   * renderer is `acf/` followed by the registered name, `renderBlock`
   * strips it back to the file slug.
   */
  lemma RenderSlugRecoversFileSlug(filename: string)
    requires '/' !in filename
    ensures FileSlug(filename).Some? ==> RenderSlug("acf/" + FileSlug(filename).value) == FileSlug(filename).value
  {
    if FileSlug(filename).None? {
      return;
    }
    var slug := FileSlug(filename).value;
    FileSlugHasNoSlash(filename);
    ReplaceAllLeading("acf/", slug, "");
    ReplaceAllWithoutPatternChar(slug, "acf/", "", '/');
    assert ReplaceAll("acf/" + slug, "acf/", "") == slug;
    ReplaceAllWithoutPatternChar(slug, "acf-", "", '-');
  }

  /** A string without ASCII upper-case letters. */
  predicate LowerCase(s: string) {
    forall i :: 0 <= i < |s| ==> !('A' <= s[i] <= 'Z')
  }

  lemma LowerCaseAppend(a: string, b: string)
    requires LowerCase(a) && LowerCase(b)
    ensures LowerCase(a + b)
  {
    forall i | 0 <= i < |a + b| ensures !('A' <= (a + b)[i] <= 'Z') {
      if i >= |a| {
        assert (a + b)[i] == b[i - |a|];
      }
    }
  }

  /** Without upper-case letters `strtolower` changes nothing. */
  lemma ToLowerOfLower(s: string)
    requires LowerCase(s)
    ensures ToLower(s) == s
  {
  }

  /** Round trip: a lower-case, hyphen-free stem is the slug of its template file. */
  lemma FileSlugOfStem(stem: string)
    requires LowerCase(stem)
    requires '-' !in stem && '\n' !in stem
    ensures FileSlug(stem + BladeSuffix) == Some(stem)
  {
    var name := stem + BladeSuffix;
    ToLowerOfLower(name);
    assert '-' !in name;
    ReplaceAllWithoutPatternChar(name, "acf-", "", '-');
    RemoveBladeExtensionOfStem(stem);
  }

  /** A stem the slug rules leave alone: lower case, no hyphen, no newline. */
  predicate PlainStem(s: string) {
    '-' !in s && '\n' !in s && LowerCase(s)
  }

  lemma StripAcfAroundStem(x: string, tail: string)
    requires 'a' !in x
    ensures ReplaceAll("acf-" + (x + ("-" + ("acf-" + tail))), "acf-", "")
         == x + ("-" + ReplaceAll("acf-" + tail, "acf-", ""))
  {
    var after := "-" + ("acf-" + tail);
    ReplaceAllLeading("acf-", x + after, "");
    ReplaceAllCopiesPrefix(x, after, "acf-", "");
    ReplaceAllSkip(after, "acf-", "");
    assert after[1..] == "acf-" + tail;
  }

  lemma StripAcfBeforeTemplate(y: string)
    requires '-' !in y
    ensures ReplaceAll("acf-" + (y + BladeSuffix), "acf-", "") == y + BladeSuffix
  {
    var tail := y + BladeSuffix;
    ReplaceAllLeading("acf-", tail, "");
    assert '-' !in tail;
    ReplaceAllWithoutPatternChar(tail, "acf-", "", '-');
  }

  lemma DropHyphenBetween(x: string, y: string)
    requires '-' !in x && '-' !in y
    ensures ReplaceAll(x + "-" + y, "-", "") == x + y
  {
    var rest := "-" + y;
    assert x + "-" + y == x + rest;
    ReplaceAllCopiesPrefix(x, rest, "-", "");
    ReplaceAllLeading("-", y, "");
    ReplaceAllWithoutPatternChar(y, "-", "", '-');
    assert ReplaceAll(rest, "-", "") == y;
  }

  lemma RemoveBladeExtensionOfPair(x: string, y: string)
    requires PlainStem(x) && PlainStem(y)
    ensures RemoveBladeExtension(x + "-" + y + BladeSuffix) == Some(x + y)
  {
    var stripped := x + "-" + y + BladeSuffix;
    assert '\n' !in stripped;
    RemoveBladeExtensionPlain(stripped);
    assert stripped[..|stripped| - |BladeSuffix|] == x + "-" + y;
    DropHyphenBetween(x, y);
  }

  /**
   * `str_replace` removes every `acf-`, not only a leading one, and the
   * hyphen between the parts goes too: `acf-x-acf-y.blade.php` has slug `xy`.
   */
  lemma FileSlugRemovesEveryAcf(x: string, y: string)
    requires PlainStem(x) && PlainStem(y) && 'a' !in x
    ensures FileSlug("acf-" + x + "-acf-" + y + BladeSuffix) == Some(x + y)
  {
    var tail := y + BladeSuffix;
    var rest := "-" + ("acf-" + tail);
    var name := "acf-" + (x + rest);
    NestAcfName(x, y);
    assert LowerCase(name) by {
      LowerCaseAppend(y, BladeSuffix);
      LowerCaseAppend("acf-", tail);
      LowerCaseAppend("-", "acf-" + tail);
      LowerCaseAppend(x, rest);
      LowerCaseAppend("acf-", x + rest);
    }
    ToLowerOfLower(name);
    StripAcfAroundStem(x, tail);
    StripAcfBeforeTemplate(y);
    assert ReplaceAll(name, "acf-", "") == x + ("-" + tail);
    assert x + ("-" + tail) == x + "-" + y + BladeSuffix;
    RemoveBladeExtensionOfPair(x, y);
  }

  /** The template name of `FileSlugRemovesEveryAcf`, grouped from the right. */
  lemma NestAcfName(x: string, y: string)
    ensures "acf-" + x + "-acf-" + y + BladeSuffix == "acf-" + (x + ("-" + ("acf-" + (y + BladeSuffix))))
  {
  }

  /** Lower-casing twice is lower-casing once. */
  lemma ToLowerIdempotent(s: string)
    ensures ToLower(ToLower(s)) == ToLower(s)
  {
  }

  /**
   * The whole name is lower-cased before anything else, so names that differ
   * only in the case of ASCII letters have the same slug.
   */
  lemma FileSlugIgnoresCase(name: string)
    ensures FileSlug(ToLower(name)) == FileSlug(name)
  {
    ToLowerIdempotent(name);
  }

  /** An upper-case `.BLADE.PHP` is accepted: `X.BLADE.PHP` has slug `x`. */
  lemma UpperCaseTemplateName(name: string)
    requires name == "X.BLADE.PHP"
    ensures FileSlug(name) == Some("x")
  {
    var lowered := ToLower(name);
    assert |lowered| == |"x" + BladeSuffix|;
    forall i | 0 <= i < |lowered| ensures lowered[i] == ("x" + BladeSuffix)[i] {
      assert lowered[i] == LowerChar(name[i]);
    }
    assert lowered == "x" + BladeSuffix;
    FileSlugIgnoresCase(name);
    FileSlugOfStem("x");
  }

  /** A stem PHP reads as false ("" or "0") makes a slug that is skipped. */
  lemma FalsyStemIsSkipped(stem: string)
    requires Falsy(stem)
    ensures SkipsSlug(FileSlug(stem + BladeSuffix))
  {
    FileSlugOfStem(stem);
  }
}
