# Skip-links check, modelled in Dafny

This project models `Skip_Links_Check`, one rule of the WordPress theme-check
tool. The rule looks at every template of a block theme (`templates/*.html`).
A template passes when its text contains `<main`. Otherwise the rule looks for
the pattern blocks the template embeds (`<!-- wp:pattern {"slug":"…"} /-->`)
and resolves each slug against the theme's pattern files (`patterns/*.php`, or
`block-patterns/*.php` when there is no `patterns` directory). A template that
embeds nothing is listed once. A template that embeds patterns is listed once
per embedded slug whose pattern lacks `<main`. The listed names are joined
with `", "`. When the joined text is not empty, one REQUIRED message embedding
it is appended to the rule's error list. `check` always returns true.

The theme is input data (`SkipLinks.ThemeDir`):

- three existence flags: `theme.json`, `templates/index.html`, `block-templates/index.html`;
- the templates in the order `glob` returns them, each a basename and its contents;
- each pattern directory as `None` when it is not a directory, or as its `*.php` entries in
  `glob` order, each with an is-regular-file flag and its contents.

Files:

- `text.dfy` (module `Text`): `strpos(...) !== false` as `Contains`, and `implode` as `Join`.
  `SplitNames` reads a joined list back.
- `pattern_refs.dfy` (module `PatternRefs`): a hand-written scanner for the regular expression
  of `template_has_patterns`. The capture `[^"]+` cannot contain the closing quote, so at each
  start the only candidate slug ends at the first `"`. `preg_match_all` scans left to right.
  After a match it resumes at the match's end; otherwise it moves on by one character.
  Two references can never overlap, so resuming after a match loses nothing: the scan returns
  every match in the template, in order (`ScanAllRefs`).
- `slug_header.dfy` (module `SlugHeader`): the `* Slug: <slug>\b` test of `pattern_has_tag`.
  `\b` is written out with PCRE's non-UTF word characters `[A-Za-z0-9_]`. The header may
  appear anywhere in the file, not only at the start of a line.
- `skip_links.dfy` (module `SkipLinks`): the specification functions of the rule, and the class
  `SkipLinksCheck` with the fields `error`, `isBlockTheme` and `wpTheme`. Its methods
  `SetContext`, `PatternHasTag`, `Check` and `GetError` are proved against those functions.
- `wrappers.dfy` (module `Wrappers`): `Option`, for PHP's "value or `false`" returns.

Three behaviours of the code a reader may not expect:

- the slug header matches anywhere in a pattern file, not only on a header line;
- `set_context` never resets `is_block_theme` to false, and it changes nothing without a `theme` key;
- `check` never consults `is_block_theme`: it scans `templates/*.html` for any theme it is given.

## Model

| member | source | states |
|---|---|---|
| `SkipLinks.SkipLinksCheck.constructor` | checks/class-skip-links.php:17-31 | a new instance has no errors, is not a block theme and has no theme |
| `SkipLinks.SkipLinksCheck.SetContext` | checks/class-skip-links.php:33-48 | with a theme: stores it, and the block-theme flag becomes its old value or'ed with "theme.json exists, or both index templates exist"; without a theme nothing changes; the error list never changes |
| `SkipLinks.SkipLinksCheck.Check` | checks/class-skip-links.php:57-102 | returns true; the error list becomes the old list followed by one message for the joined violation list when that join is non-empty, else it is unchanged; the theme and the block-theme flag are unchanged |
| `SkipLinks.SkipLinksCheck.TemplateEntriesOf` | checks/class-skip-links.php:68-86 | one pass of the template loop appends exactly the entries the per-template rule assigns to that template |
| `SkipLinks.SkipLinksCheck.PatternHasTag` | checks/class-skip-links.php:114-140 | the loop over the pattern files returns exactly the lookup `PatternHasMain` (the directory choice, then the last declaring regular file) |
| `SkipLinks.SkipLinksCheck.GetError` | checks/class-skip-links.php:147-149 | returns the accumulated error list, which `Check` only ever extends |
| `SkipLinks.RunOnce` | checks/class-skip-links.php:33-149 | a fresh instance given a theme, checked once, reports true and an error list of at most one message, equal to the report for that theme's violation list |
| `SkipLinks.MainTagNeverReported` | checks/class-skip-links.php:70-73 | a template whose contents contain `<main` adds no entry, whatever patterns it embeds |
| `SkipLinks.UnreferencedReportedOnce` | checks/class-skip-links.php:73-84 | a template without `<main` and with no pattern reference adds exactly one entry, its name |
| `SkipLinks.ReferencedReportedPerFailingSlug` | checks/class-skip-links.php:74-81 | a template without `<main` that embeds patterns adds one entry per embedded slug whose pattern lacks `<main`, every entry its name, repeats kept; the slugs are every match in the template, in order |
| `SkipLinks.FailingEntriesShape` | checks/class-skip-links.php:76-80 | the slug loop adds as many entries as there are failing slugs, all equal to the template name, and none exactly when every embedded pattern has `<main` |
| `SkipLinks.ViolatesIff` | checks/class-skip-links.php:70-81 | in terms of the template text alone: a template violates the rule exactly when it has no `<main` and either holds no pattern reference or holds, anywhere, a reference to a pattern that lacks `<main` |
| `SkipLinks.FailingReferenceListed` | checks/class-skip-links.php:70-81 | a template without `<main` holding a reference, at any index and amid any markup, to a pattern without `<main` is listed under its name |
| `SkipLinks.TemplateEntriesIff` | checks/class-skip-links.php:68-86 | a template adds some entry exactly when it violates the rule (no `<main` itself, and either no embedded pattern or an embedded pattern without `<main`) |
| `SkipLinks.ViolationsAppend` | checks/class-skip-links.php:68-86 | the violation list is built in template scan order: the list for two runs of templates is the first list followed by the second |
| `SkipLinks.ViolationsMember` | checks/class-skip-links.php:68-86 | a name is in the violation list exactly when some template of that name violates the rule |
| `SkipLinks.ViolationsEmptyIff` | checks/class-skip-links.php:68-88 | the violation list is empty exactly when no template violates the rule |
| `SkipLinks.MessageRoundTrip` | checks/class-skip-links.php:91-98 | the message contains the joined names verbatim, and they can be read back out of it |
| `SkipLinks.ReportShape` | checks/class-skip-links.php:88-99 | for every list of names: at most one message, one exactly when the joined names are not empty (the list is neither empty nor a single empty name), and the message carries the joined names |
| `SkipLinks.ReportIff` | checks/class-skip-links.php:88-99 | for non-empty names without ", ": at most one message, one exactly when the list is non-empty, and splitting the names back out of it gives the list in order |
| `SkipLinks.ReportForTheme` | checks/class-skip-links.php:88-99 | for a theme whose template names are non-empty and hold no ", ": one message exactly when some template violates the rule, and it lists the violation list in scan order |
| `SkipLinks.PatternHasMainIff` | checks/class-skip-links.php:114-139 | the lookup is true exactly when the chosen directory exists, some regular file in it declares the slug, and the last such file in scan order contains `<main` |
| `SkipLinks.PatternsPreferred` | checks/class-skip-links.php:115-123 | `patterns` is used when it exists, `block-patterns` only when it does not, and the answer is false when neither exists |
| `SkipLinks.LastDeclaringSpec` | checks/class-skip-links.php:127-137 | the file that decides is the last regular file declaring the slug; none is found only when no regular file declares it |
| `SlugHeader.FindHeaderSpec` | checks/class-skip-links.php:132-133 | the header search returns the leftmost match of `* Slug: <slug>` followed by a word boundary, and nothing only when there is no match |
| `SlugHeader.MatchesHeaderIff` | checks/class-skip-links.php:132-133 | the header test succeeds exactly when the header occurs, followed by a word boundary, at some index of the contents |
| `SlugHeader.HeaderOfExtendedSlug` | checks/class-skip-links.php:132 | a header for a longer slug declares the shorter one exactly when the boundary holds there: `t/header` matches `* Slug: t/header-large` but not `* Slug: t/headers` |
| `PatternRefs.FirstQuote` | checks/class-skip-links.php:105 | the index of the first double quote, with no quote before it |
| `PatternRefs.MatchPrefixIff` | checks/class-skip-links.php:105 | the expression matches at the start of a text with capture `slug` exactly when the text starts with the reference for a non-empty, quote-free `slug` |
| `PatternRefs.NoMatchPrefixIff` | checks/class-skip-links.php:105 | there is no match at the start exactly when no well-formed reference starts there |
| `PatternRefs.ScanSound` | checks/class-skip-links.php:105-107 | every slug the scan returns is non-empty, holds no double quote, and is captured by a match in the text |
| `PatternRefs.ScanEmptyIff` | checks/class-skip-links.php:106 | the scan returns nothing exactly when the text holds no well-formed reference anywhere |
| `PatternRefs.NoOverlap` | checks/class-skip-links.php:105-106 | no match of the expression starts strictly inside another match |
| `PatternRefs.AllRefsMember` | checks/class-skip-links.php:105 | the list of all matches, one per start index in ascending order, holds a slug exactly when some match captures it |
| `PatternRefs.ScanAllRefs` | checks/class-skip-links.php:106-107 | the left-to-right scan that resumes after each match returns every match of the text, in order, repeats included |
| `PatternRefs.ScanComplete` | checks/class-skip-links.php:106-107 | every slug captured by a match anywhere in the text is returned by the scan |
| `PatternRefs.TemplateHasPatternsAll` | checks/class-skip-links.php:104-111 | `template_has_patterns` returns every match of the template, in order, repeats included, and false exactly when there is none |
| `PatternRefs.TemplateHasPatterns` | checks/class-skip-links.php:104-111 | a returned list of slugs is never empty; no match gives `None` (PHP's `false`) |
| `PatternRefs.TemplateHasPatternsSound` | checks/class-skip-links.php:104-108 | each returned slug is non-empty, quote-free, and its reference occurs in the template |
| `PatternRefs.TemplateHasPatternsNoneIff` | checks/class-skip-links.php:106-111 | the function returns false exactly when the template holds no reference |
| `PatternRefs.ScanSkipsText` | checks/class-skip-links.php:106 | text without `<` holds no match start, so the scan passes over it |
| `PatternRefs.ScanReference` | checks/class-skip-links.php:105-107 | a reference at the front is read as its slug, and the scan resumes right after it |
| `PatternRefs.ScanRender` | checks/class-skip-links.php:104-108 | round trip: for a template written as `<`-free text and references with well-formed slugs, the scan returns exactly the referenced slugs in order, repeats included |
| `Text.ContainsIff` | checks/class-skip-links.php:70 | the `strpos` search succeeds exactly when the needle occurs at some index |
| `Text.JoinEmptyIff` | checks/class-skip-links.php:88-90 | with a non-empty separator, the joined text is empty only for no names or a single empty name |
| `Text.JoinAppend` | checks/class-skip-links.php:88 | joining keeps the order of the names: joining two lists joins their joins with the separator |
| `Text.SplitJoin` | checks/class-skip-links.php:88 | splitting the joined text at ", " gives back the names, when no name contains ", " |

## Left out

- File system access (`glob`, `file_get_contents`, `is_dir`, `is_file`, `file_exists`) is not modelled: the theme arrives as `ThemeDir`, with the sequences in `glob` order. A failed `file_get_contents` is not modelled, and template entries are taken to be readable files.
- Turning a template path into its basename is not modelled: templates arrive named.
- Translation (`__()`) is not modelled: the message is the untranslated English text of the two `sprintf` calls.
- The `WP_Theme` object is not modelled: its stylesheet directory is the `ThemeDir` value.
- The global registration `$themechecks[] = new Skip_Links_Check()` and the `themecheck` interface are not modelled.
- The unused `$php_files`, `$css_files` and `$other_files` parameters of `check` are left out.
- SkipLinks.SkipLinksCheck.Check: requires a theme to have been set. In PHP, calling `check` before `set_context` supplied a theme calls a method on `false` and stops with a fatal error; that path is not modelled. `PatternHasTag` and `TemplateEntriesOf` carry the same requirement for the same reason.
- Strings are sequences of characters. PHP's byte strings, multibyte input and locale-dependent PCRE word characters are not modelled.
- PatternRefs.ScanRender: the round trip from a list of pieces is stated only for templates whose plain text holds no `<`, because markup next to a reference can complete a reference of its own. For arbitrary text, `ScanAllRefs` states instead that the scan returns every match, in order.
- SkipLinks.ReportIff: the read-back of the names is stated only for names that are non-empty and hold no ", ". Names with ", " cannot be told apart after `implode`.
- SkipLinks.ReportForTheme: stated only for template names that are non-empty and hold no ", ", for the same reason.
- Text.SplitJoin: stated only for names that hold no ", ", for the same reason.
