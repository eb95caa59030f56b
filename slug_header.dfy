/** The header test of `pattern_has_tag`: `preg_match('/\* Slug: ' . preg_quote($slug, '/') . '\b/', $contents)`.
    `preg_quote` makes the slug a literal, so the pattern is the fixed text `* Slug: ` and the slug,
    followed by a word boundary. */
module SlugHeader {
  import opened Text
  import opened Wrappers

  /** PCRE's word characters outside UTF mode: `[A-Za-z0-9_]`. */
  predicate IsWordChar(c: char)
  {
    ('A' <= c <= 'Z') || ('a' <= c <= 'z') || ('0' <= c <= '9') || c == '_'
  }

  /** The header a pattern file writes to declare `slug`. */
  function Header(slug: string): (h: string)
    ensures |h| > 0
  {
    "* Slug: " + slug
  }

  /** `\b` right after the header `h` ends at index `q` of `s`: the header's last character and
      the one at `q` (none past the end of `s`) differ in being word characters. */
  predicate BoundaryAfter(s: string, h: string, q: nat)
    requires |h| > 0
  {
    IsWordChar(h[|h| - 1]) != (q < |s| && IsWordChar(s[q]))
  }

  /** The header pattern matches at index `p` of `s`. */
  predicate HeaderAt(s: string, slug: string, p: nat)
  {
    OccursAt(s, Header(slug), p) && BoundaryAfter(s, Header(slug), p + |Header(slug)|)
  }

  /** The file contents declare `slug` somewhere (not only at the start of a line). */
  ghost predicate Declares(s: string, slug: string)
  {
    exists p: nat :: HeaderAt(s, slug, p)
  }

  /** The leftmost match at or after `from`, as `preg_match` searches. */
  function FindHeader(s: string, slug: string, from: nat): Option<nat>
    requires from <= |s|
    decreases |s| - from
  {
    if HeaderAt(s, slug, from) then Some(from)
    else if from == |s| then None
    else FindHeader(s, slug, from + 1)
  }

  /** The search returns the leftmost match at or after `from`, and nothing only when there is none. */
  lemma {:induction false} FindHeaderSpec(s: string, slug: string, from: nat)
    requires from <= |s|
    ensures FindHeader(s, slug, from).Some? ==>
      from <= FindHeader(s, slug, from).value && HeaderAt(s, slug, FindHeader(s, slug, from).value)
    ensures FindHeader(s, slug, from).Some? ==>
      forall q: nat :: from <= q < FindHeader(s, slug, from).value ==> !HeaderAt(s, slug, q)
    ensures FindHeader(s, slug, from).None? ==> forall q: nat :: from <= q ==> !HeaderAt(s, slug, q)
    decreases |s| - from
  {
    if !HeaderAt(s, slug, from) && from < |s| {
      FindHeaderSpec(s, slug, from + 1);
    }
  }

  /** `preg_match` of the header pattern on the whole contents. */
  predicate MatchesHeader(s: string, slug: string)
  {
    FindHeader(s, slug, 0).Some?
  }

  /** The match succeeds exactly when the contents declare the slug somewhere. */
  lemma MatchesHeaderIff(s: string, slug: string)
    ensures MatchesHeader(s, slug) <==> Declares(s, slug)
  {
    var r := FindHeader(s, slug, 0);
    FindHeaderSpec(s, slug, 0);
    if r.Some? {
      assert HeaderAt(s, slug, r.value);
    }
  }

  /** Whether a header for `slug + ext` also declares `slug` depends only on the slug's last
      character and the first of `ext`: `t/header` matches `* Slug: t/header-large` but not
      `* Slug: t/headers`, and a slug ending in a non-word character never matches at the end of a file. */
  lemma HeaderOfExtendedSlug(slug: string, ext: string)
    ensures HeaderAt(Header(slug + ext), slug, 0) <==>
      IsWordChar(Header(slug)[|Header(slug)| - 1]) != (ext != [] && IsWordChar(ext[0]))
  {
  }
}
