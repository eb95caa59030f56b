/** `Skip_Links_Check`: the theme-check rule that reports block-theme templates
    without a `<main` landmark, either in the template itself or in the patterns it embeds. */
module SkipLinks {
  import opened Text
  import opened Wrappers
  import opened PatternRefs
  import opened SlugHeader

  /** One file matched by the `templates` glob for `*.html`, by its basename, with its contents. */
  datatype Template = Template(name: string, contents: string)

  /** One entry of the `*.php` glob of a pattern directory; `isFile` is false when the entry is not a regular file. */
  datatype PatternFile = PatternFile(isFile: bool, contents: string)

  /** What the rule reads from the theme's stylesheet directory. The template and
      pattern sequences are in the order `glob` returns them; a pattern directory
      is `None` when it does not exist. */
  datatype ThemeDir = ThemeDir(
    hasThemeJson: bool,
    hasTemplatesIndex: bool,
    hasBlockTemplatesIndex: bool,
    templates: seq<Template>,
    patterns: Option<seq<PatternFile>>,
    blockPatterns: Option<seq<PatternFile>>)

  /** `strpos($contents, '<main') !== false`. */
  predicate HasMainTag(contents: string)
  {
    Contains(contents, "<main")
  }

  /** `theme.json` exists, or both `templates/index.html` and `block-templates/index.html` do. */
  predicate IsBlockThemeLayout(d: ThemeDir)
  {
    d.hasThemeJson || (d.hasTemplatesIndex && d.hasBlockTemplatesIndex)
  }

  /** The pattern directory `pattern_has_tag` searches: `patterns`, else `block-patterns`. */
  function PatternDir(d: ThemeDir): Option<seq<PatternFile>>
  {
    if d.patterns.Some? then d.patterns else d.blockPatterns
  }

  /** A regular file whose contents declare `slug` in a `* Slug:` header. */
  predicate DeclaringFile(f: PatternFile, slug: string)
  {
    f.isFile && MatchesHeader(f.contents, slug)
  }

  /** `k` is the last file in scan order that declares `slug`. */
  predicate IsLastDeclaring(files: seq<PatternFile>, slug: string, k: nat)
  {
    k < |files| && DeclaringFile(files[k], slug) &&
    forall j :: k < j < |files| ==> !DeclaringFile(files[j], slug)
  }

  /** The index of the last file declaring `slug`, if any file does. */
  function LastDeclaring(files: seq<PatternFile>, slug: string): (r: Option<nat>)
    ensures r.Some? ==> r.value < |files|
  {
    if files == [] then None
    else if DeclaringFile(files[|files| - 1], slug) then Some(|files| - 1)
    else LastDeclaring(files[..|files| - 1], slug)
  }

  /** The index found is the last declaring file, and nothing is found only when no file declares. */
  lemma {:induction false} LastDeclaringSpec(files: seq<PatternFile>, slug: string)
    ensures LastDeclaring(files, slug).Some? ==> IsLastDeclaring(files, slug, LastDeclaring(files, slug).value)
    ensures LastDeclaring(files, slug).None? ==> forall j :: 0 <= j < |files| ==> !DeclaringFile(files[j], slug)
    decreases |files|
  {
    if files != [] && !DeclaringFile(files[|files| - 1], slug) {
      var init := files[..|files| - 1];
      LastDeclaringSpec(init, slug);
      assert forall j :: 0 <= j < |init| ==> init[j] == files[j];
    }
  }

  /** `$has_tag` after the loop of `pattern_has_tag` over `files`: every declaring file
      overwrites it, so the last one decides. */
  predicate LastDeclaringHasMain(files: seq<PatternFile>, slug: string)
  {
    match LastDeclaring(files, slug)
    case None => false
    case Some(k) => HasMainTag(files[k].contents)
  }

  /** What `pattern_has_tag($slug)` returns for the theme `d`. */
  predicate PatternHasMain(d: ThemeDir, slug: string)
  {
    match PatternDir(d)
    case None => false
    case Some(files) => LastDeclaringHasMain(files, slug)
  }

  /** The lookup answers true exactly when the chosen directory exists, some regular file
      in it declares the slug, and the last such file contains `<main`. */
  lemma PatternHasMainIff(d: ThemeDir, slug: string)
    ensures PatternHasMain(d, slug) <==>
      PatternDir(d).Some? &&
      exists k: nat :: IsLastDeclaring(PatternDir(d).value, slug, k) && HasMainTag(PatternDir(d).value[k].contents)
  {
    if PatternDir(d).Some? {
      var files := PatternDir(d).value;
      LastDeclaringSpec(files, slug);
      if last :| LastDeclaring(files, slug) == Some(last) {
        assert IsLastDeclaring(files, slug, last);
      }
    }
  }

  /** A `patterns` directory is always preferred: `block-patterns` is consulted only
      when `patterns` does not exist. */
  lemma PatternsPreferred(d: ThemeDir, slug: string)
    ensures d.patterns.Some? ==> PatternHasMain(d, slug) == LastDeclaringHasMain(d.patterns.value, slug)
    ensures d.patterns.None? && d.blockPatterns.Some? ==>
      PatternHasMain(d, slug) == LastDeclaringHasMain(d.blockPatterns.value, slug)
    ensures d.patterns.None? && d.blockPatterns.None? ==> !PatternHasMain(d, slug)
  {
  }

  /** The entries the loop over one template's slugs appends: `name` once per slug whose
      pattern lacks `<main`, repeats included. */
  function FailingEntries(name: string, slugs: seq<string>, d: ThemeDir): seq<string>
  {
    if slugs == [] then []
    else
      FailingEntries(name, slugs[..|slugs| - 1], d) +
      (if PatternHasMain(d, slugs[|slugs| - 1]) then [] else [name])
  }

  /** How many of `slugs` name a pattern without `<main`, counted from the front. */
  function CountFailing(slugs: seq<string>, d: ThemeDir): nat
  {
    if slugs == [] then 0
    else (if PatternHasMain(d, slugs[0]) then 0 else 1) + CountFailing(slugs[1..], d)
  }

  lemma {:induction false} CountFailingSnoc(slugs: seq<string>, x: string, d: ThemeDir)
    ensures CountFailing(slugs + [x], d) == CountFailing(slugs, d) + (if PatternHasMain(d, x) then 0 else 1)
    decreases |slugs|
  {
    if slugs == [] {
      assert [] + [x] == [x];
    } else {
      assert (slugs + [x])[1..] == slugs[1..] + [x];
      CountFailingSnoc(slugs[1..], x, d);
    }
  }

  /** One entry per failing slug, every entry the template's name, and none exactly
      when every referenced pattern has `<main`. */
  lemma {:induction false} FailingEntriesShape(name: string, slugs: seq<string>, d: ThemeDir)
    ensures |FailingEntries(name, slugs, d)| == CountFailing(slugs, d)
    ensures forall k :: 0 <= k < |FailingEntries(name, slugs, d)| ==> FailingEntries(name, slugs, d)[k] == name
    ensures FailingEntries(name, slugs, d) == [] <==> forall k :: 0 <= k < |slugs| ==> PatternHasMain(d, slugs[k])
    decreases |slugs|
  {
    if slugs != [] {
      var init, x := slugs[..|slugs| - 1], slugs[|slugs| - 1];
      FailingEntriesShape(name, init, d);
      assert init + [x] == slugs;
      CountFailingSnoc(init, x, d);
      if FailingEntries(name, slugs, d) == [] {
        forall k | 0 <= k < |slugs| ensures PatternHasMain(d, slugs[k]) {
          if k < |init| { assert slugs[k] == init[k]; }
        }
      }
    }
  }

  /** The entries `check` records for one template. */
  function TemplateEntries(t: Template, d: ThemeDir): seq<string>
  {
    if HasMainTag(t.contents) then []
    else
      match TemplateHasPatterns(t.contents)
      case None => [t.name]
      case Some(slugs) => FailingEntries(t.name, slugs, d)
  }

  /** The template lacks a usable `<main`: not in itself, and it either embeds no pattern
      or embeds one whose pattern lacks `<main`. */
  predicate Violates(t: Template, d: ThemeDir)
  {
    !HasMainTag(t.contents) &&
    match TemplateHasPatterns(t.contents)
    case None => true
    case Some(slugs) => exists k :: 0 <= k < |slugs| && !PatternHasMain(d, slugs[k])
  }

  /** A template containing `<main` is never reported, whatever it embeds. */
  lemma MainTagNeverReported(t: Template, d: ThemeDir)
    requires HasMainTag(t.contents)
    ensures TemplateEntries(t, d) == []
  {
  }

  /** A template without `<main` that embeds no pattern is reported once, by name. */
  lemma UnreferencedReportedOnce(t: Template, d: ThemeDir)
    requires !HasMainTag(t.contents) && !HasReference(t.contents)
    ensures TemplateEntries(t, d) == [t.name]
  {
    TemplateHasPatternsNoneIff(t.contents);
  }

  /** A template without `<main` that embeds patterns is reported once per embedded
      slug whose pattern lacks `<main`. */
  lemma ReferencedReportedPerFailingSlug(t: Template, d: ThemeDir)
    requires !HasMainTag(t.contents) && HasReference(t.contents)
    ensures TemplateHasPatterns(t.contents).Some?
    ensures TemplateHasPatterns(t.contents).value == AllRefs(t.contents)
    ensures |TemplateEntries(t, d)| == CountFailing(TemplateHasPatterns(t.contents).value, d)
    ensures forall k :: 0 <= k < |TemplateEntries(t, d)| ==> TemplateEntries(t, d)[k] == t.name
  {
    TemplateHasPatternsNoneIff(t.contents);
    TemplateHasPatternsAll(t.contents);
    FailingEntriesShape(t.name, TemplateHasPatterns(t.contents).value, d);
  }

  /** A template is reported at all exactly when it violates the rule, and then only under its name. */
  lemma TemplateEntriesIff(t: Template, d: ThemeDir)
    ensures TemplateEntries(t, d) != [] <==> Violates(t, d)
    ensures forall k :: 0 <= k < |TemplateEntries(t, d)| ==> TemplateEntries(t, d)[k] == t.name
  {
    if !HasMainTag(t.contents) && TemplateHasPatterns(t.contents).Some? {
      FailingEntriesShape(t.name, TemplateHasPatterns(t.contents).value, d);
    }
  }

  /** Some reference in `contents` names a pattern that lacks `<main`. */
  ghost predicate EmbedsFailingPattern(contents: string, d: ThemeDir)
  {
    exists p: nat, slug :: ReferenceAt(contents, p, slug) && !PatternHasMain(d, slug)
  }

  /** The rule in terms of the template text alone: a template violates it exactly when it
      has no `<main` and either embeds no pattern or embeds one whose pattern lacks `<main`. */
  lemma ViolatesIff(t: Template, d: ThemeDir)
    ensures Violates(t, d) <==>
      !HasMainTag(t.contents) && (!HasReference(t.contents) || EmbedsFailingPattern(t.contents, d))
  {
    var c := t.contents;
    TemplateHasPatternsNoneIff(c);
    if TemplateHasPatterns(c).Some? {
      var slugs := TemplateHasPatterns(c).value;
      if k :| 0 <= k < |slugs| && !PatternHasMain(d, slugs[k]) {
        ScanSound(c);
        var p: nat :| ReferenceAt(c, p, slugs[k]);
      }
      if EmbedsFailingPattern(c, d) {
        var p: nat, slug :| ReferenceAt(c, p, slug) && !PatternHasMain(d, slug);
        ScanComplete(c, p, slug);
        var k :| 0 <= k < |slugs| && slugs[k] == slug;
      }
    }
  }

  /** A template without `<main` that embeds, anywhere in its markup, a pattern lacking
      `<main` is listed under its name. */
  lemma FailingReferenceListed(t: Template, d: ThemeDir, p: nat, slug: string)
    requires !HasMainTag(t.contents)
    requires ReferenceAt(t.contents, p, slug) && !PatternHasMain(d, slug)
    ensures t.name in TemplateEntries(t, d)
  {
    ViolatesIff(t, d);
    NameInTemplateEntries(t, d, t.name);
  }

  /** `$templates_without_main_tag` after the loop over `templates`. */
  function Violations(ts: seq<Template>, d: ThemeDir): seq<string>
  {
    if ts == [] then []
    else Violations(ts[..|ts| - 1], d) + TemplateEntries(ts[|ts| - 1], d)
  }

  /** Entries appear in template scan order. */
  lemma {:induction false} ViolationsAppend(a: seq<Template>, b: seq<Template>, d: ThemeDir)
    ensures Violations(a + b, d) == Violations(a, d) + Violations(b, d)
    decreases |b|
  {
    if b == [] {
      assert a + b == a;
    } else {
      var init := b[..|b| - 1];
      assert (a + b)[..|a + b| - 1] == a + init;
      ViolationsAppend(a, init, d);
    }
  }

  /** Some template of `ts` has the name `name` and violates the rule. */
  ghost predicate SomeViolatorNamed(ts: seq<Template>, d: ThemeDir, name: string)
  {
    exists k :: 0 <= k < |ts| && ts[k].name == name && Violates(ts[k], d)
  }

  lemma NameInTemplateEntries(t: Template, d: ThemeDir, name: string)
    ensures name in TemplateEntries(t, d) <==> t.name == name && Violates(t, d)
  {
    TemplateEntriesIff(t, d);
    if t.name == name && Violates(t, d) {
      assert TemplateEntries(t, d)[0] == name;
    }
  }

  /** Dropping the last template keeps the indexes of the others. */
  lemma InitIndex(ts: seq<Template>, k: nat)
    requires k < |ts| - 1
    ensures ts[..|ts| - 1][k] == ts[k]
  {
  }

  /** Some template named `name` violates the rule in `ts` exactly when one does among all
      but the last, or the last one is it. */
  lemma SomeViolatorNamedSnoc(ts: seq<Template>, d: ThemeDir, name: string)
    requires ts != []
    ensures SomeViolatorNamed(ts, d, name) <==>
      SomeViolatorNamed(ts[..|ts| - 1], d, name) || (ts[|ts| - 1].name == name && Violates(ts[|ts| - 1], d))
  {
    var init := ts[..|ts| - 1];
    if SomeViolatorNamed(ts, d, name) {
      var k :| 0 <= k < |ts| && ts[k].name == name && Violates(ts[k], d);
      if k < |init| {
        InitIndex(ts, k);
      }
    }
    if SomeViolatorNamed(init, d, name) {
      var k :| 0 <= k < |init| && init[k].name == name && Violates(init[k], d);
      InitIndex(ts, k);
    }
  }

  /** A name is listed exactly when some template of that name violates the rule. */
  lemma {:induction false} ViolationsMember(ts: seq<Template>, d: ThemeDir, name: string)
    ensures name in Violations(ts, d) <==> SomeViolatorNamed(ts, d, name)
    decreases |ts|
  {
    if ts != [] {
      var init, t := ts[..|ts| - 1], ts[|ts| - 1];
      ViolationsMember(init, d, name);
      NameInTemplateEntries(t, d, name);
      SomeViolatorNamedSnoc(ts, d, name);
      assert Violations(ts, d) == Violations(init, d) + TemplateEntries(t, d);
    }
  }

  /** No template of `ts` violates the rule. */
  predicate NoViolator(ts: seq<Template>, d: ThemeDir)
  {
    forall k :: 0 <= k < |ts| ==> !Violates(ts[k], d)
  }

  lemma NoViolatorSnoc(ts: seq<Template>, d: ThemeDir)
    requires ts != []
    ensures NoViolator(ts, d) <==> NoViolator(ts[..|ts| - 1], d) && !Violates(ts[|ts| - 1], d)
  {
    forall k | 0 <= k < |ts| - 1 ensures ts[..|ts| - 1][k] == ts[k] {
      InitIndex(ts, k);
    }
  }

  /** No entry at all exactly when no template violates the rule. */
  lemma {:induction false} ViolationsEmptyIff(ts: seq<Template>, d: ThemeDir)
    ensures Violations(ts, d) == [] <==> forall k :: 0 <= k < |ts| ==> !Violates(ts[k], d)
    decreases |ts|
  {
    if ts != [] {
      var init, t := ts[..|ts| - 1], ts[|ts| - 1];
      ViolationsEmptyIff(init, d);
      TemplateEntriesIff(t, d);
      NoViolatorSnoc(ts, d);
      assert Violations(ts, d) == Violations(init, d) + TemplateEntries(t, d);
    }
    assert NoViolator(ts, d) <==> forall k :: 0 <= k < |ts| ==> !Violates(ts[k], d);
  }

  /** The leading text of the message `check` records. */
  const MessageLead: string :=
    "<span class=\"tc-lead tc-required\">REQUIRED</span> Skip links are missing from the following templates: "
  /** The trailing text of that message. */
  const MessageTail: string := " Please make sure the templates have a <main> tag "

  /** The message embedding the joined template names. */
  function Message(info: string): string
  {
    MessageLead + info + MessageTail
  }

  /** Reads the joined names back out of a message. */
  function MessageNames(m: string): Option<string>
  {
    if |m| >= |MessageLead| + |MessageTail| && m[..|MessageLead|] == MessageLead && m[|m| - |MessageTail|..] == MessageTail
    then Some(m[|MessageLead|..|m| - |MessageTail|])
    else None
  }

  /** The message carries the names verbatim, and they can be read back from it. */
  lemma MessageRoundTrip(info: string)
    ensures MessageNames(Message(info)) == Some(info)
    ensures Contains(Message(info), info)
  {
    var m := Message(info);
    assert m[..|MessageLead|] == MessageLead;
    assert m[|m| - |MessageTail|..] == MessageTail;
    assert m[|MessageLead|..|m| - |MessageTail|] == info;
    assert OccursAt(m, info, |MessageLead|);
    ContainsAt(m, info, |MessageLead|);
  }

  /** What `check` appends to `$this->error` for the names it collected. */
  function Report(names: seq<string>): seq<string>
  {
    var info := Join(names, ", ");
    if info != "" then [Message(info)] else []
  }

  /** For every list of names: at most one message, one exactly when the joined names are
      not empty, and the message carries the joined names. */
  lemma ReportShape(names: seq<string>)
    ensures |Report(names)| <= 1
    ensures Report(names) != [] <==> names != [] && names != [""]
    ensures Report(names) != [] ==> MessageNames(Report(names)[0]) == Some(Join(names, ", "))
  {
    JoinEmptyIff(names, ", ");
    MessageRoundTrip(Join(names, ", "));
  }

  /** At most one message; one exactly when some template is listed; and the listed names,
      in order, can be read back from it. */
  lemma ReportIff(names: seq<string>)
    requires forall k :: 0 <= k < |names| ==> names[k] != "" && NoSeparator(names[k])
    ensures |Report(names)| <= 1
    ensures Report(names) != [] <==> names != []
    ensures Report(names) != [] ==>
      MessageNames(Report(names)[0]).Some? && SplitNames(MessageNames(Report(names)[0]).value) == names
  {
    JoinEmptyIff(names, ", ");
    if names != [] {
      MessageRoundTrip(Join(names, ", "));
      SplitJoin(names);
    }
  }

  /** For a theme whose template names are non-empty and hold no ", ": `check` records one
      message exactly when some template violates the rule, and the message lists exactly the
      collected names, in scan order. */
  lemma ReportForTheme(theme: ThemeDir)
    requires forall k :: 0 <= k < |theme.templates| ==>
      theme.templates[k].name != "" && NoSeparator(theme.templates[k].name)
    ensures |Report(Violations(theme.templates, theme))| <= 1
    ensures Report(Violations(theme.templates, theme)) != [] <==>
      exists k :: 0 <= k < |theme.templates| && Violates(theme.templates[k], theme)
    ensures Report(Violations(theme.templates, theme)) != [] ==>
      MessageNames(Report(Violations(theme.templates, theme))[0]).Some? &&
      SplitNames(MessageNames(Report(Violations(theme.templates, theme))[0]).value) == Violations(theme.templates, theme)
  {
    var ts := theme.templates;
    var names := Violations(ts, theme);
    forall i | 0 <= i < |names| ensures names[i] != "" && NoSeparator(names[i]) {
      ViolationsMember(ts, theme, names[i]);
      var k :| 0 <= k < |ts| && ts[k].name == names[i] && Violates(ts[k], theme);
    }
    ReportIff(names);
    ViolationsEmptyIff(ts, theme);
  }

  /** The state of one `Skip_Links_Check` instance. */
  class SkipLinksCheck {
    /** `$this->error`: the messages recorded so far. */
    var error: seq<string>
    /** `$this->is_block_theme`. */
    var isBlockTheme: bool
    /** `$this->wp_theme`: `None` until a context supplies a theme. */
    var wpTheme: Option<ThemeDir>

    constructor ()
      ensures error == [] && !isBlockTheme && wpTheme == None
    {
      error := [];
      isBlockTheme := false;
      wpTheme := None;
    }

    /** `set_context($data)`, where `data` is `$data['theme']` when that key is set. */
    method SetContext(data: Option<ThemeDir>)
      modifies this`wpTheme, this`isBlockTheme
      ensures data.None? ==> wpTheme == old(wpTheme) && isBlockTheme == old(isBlockTheme)
      ensures data.Some? ==> wpTheme == data
      ensures data.Some? ==> isBlockTheme == (old(isBlockTheme) || IsBlockThemeLayout(data.value))
    {
      if data.Some? {
        wpTheme := data;
        var d := data.value;
        if d.hasThemeJson || (d.hasTemplatesIndex && d.hasBlockTemplatesIndex) {
          isBlockTheme := true;
        }
      }
    }

    /** `pattern_has_tag($slug)`. */
    method PatternHasTag(slug: string) returns (hasTag: bool)
      requires wpTheme.Some?
      ensures hasTag == PatternHasMain(wpTheme.value, slug)
    {
      var theme := wpTheme.value;
      var dir := theme.patterns;
      if dir.None? {
        dir := theme.blockPatterns;
      }
      if dir.None? {
        return false;
      }
      var files := dir.value;
      hasTag := false;
      var i := 0;
      while i < |files|
        invariant 0 <= i <= |files|
        invariant hasTag == LastDeclaringHasMain(files[..i], slug)
      {
        var file := files[i];
        if file.isFile {
          var contents := file.contents;
          if MatchesHeader(contents, slug) {
            hasTag := HasMainTag(contents);
          }
        }
        assert files[..i + 1][..i] == files[..i];
        i := i + 1;
      }
      assert files[..i] == files;
    }

    /** One pass of the loop of `check` over the templates: what the template `file`
        adds to the list of templates without `<main`. */
    method TemplateEntriesOf(file: Template) returns (entries: seq<string>)
      requires wpTheme.Some?
      ensures entries == TemplateEntries(file, wpTheme.value)
    {
      entries := [];
      var contents := file.contents;
      if !HasMainTag(contents) {
        var patternSlugs := TemplateHasPatterns(contents);
        if patternSlugs.Some? {
          var slugs := patternSlugs.value;
          var j := 0;
          while j < |slugs|
            invariant 0 <= j <= |slugs|
            invariant entries == FailingEntries(file.name, slugs[..j], wpTheme.value)
          {
            var hasMainTag := PatternHasTag(slugs[j]);
            if !hasMainTag {
              entries := entries + [file.name];
            }
            assert slugs[..j + 1][..j] == slugs[..j];
            j := j + 1;
          }
          assert slugs[..j] == slugs;
        } else {
          entries := [file.name];
        }
      }
    }

    /** `check(...)`: collects the templates without `<main`, appends one message when
        there are any, and always returns true. */
    method Check() returns (ok: bool)
      requires wpTheme.Some?
      modifies this`error
      ensures ok
      ensures error == old(error) + Report(Violations(wpTheme.value.templates, wpTheme.value))
    {
      var files := wpTheme.value.templates;
      var templatesWithoutMainTag: seq<string> := [];
      var i := 0;
      while i < |files|
        invariant 0 <= i <= |files|
        invariant wpTheme == old(wpTheme) && error == old(error)
        invariant templatesWithoutMainTag == Violations(files[..i], wpTheme.value)
      {
        var entries := TemplateEntriesOf(files[i]);
        templatesWithoutMainTag := templatesWithoutMainTag + entries;
        assert files[..i + 1][..i] == files[..i];
        i := i + 1;
      }
      assert files[..i] == files;
      var info := Join(templatesWithoutMainTag, ", ");
      if info != "" {
        error := error + [Message(info)];
      }
      return true;
    }

    /** `getError()`: the messages recorded so far. */
    method GetError() returns (errors: seq<string>)
      ensures errors == error
    {
      errors := error;
    }
  }

  /** A fresh instance, given a theme, checked once: the error list it reports is the
      report for that theme's templates, so empty exactly when no template is listed. */
  method RunOnce(theme: ThemeDir) returns (ok: bool, errors: seq<string>)
    ensures ok
    ensures errors == Report(Violations(theme.templates, theme))
    ensures |errors| <= 1
  {
    var c := new SkipLinksCheck();
    c.SetContext(Some(theme));
    ok := c.Check();
    errors := c.GetError();
    assert |Report(Violations(theme.templates, theme))| <= 1;
  }
}
