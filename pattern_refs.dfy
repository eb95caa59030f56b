/** The scan behind `template_has_patterns`: every non-overlapping match of
    `<!-- wp:pattern {"slug":"([^"]+)"} /-->` in a template, left to right. */
module PatternRefs {
  import opened Text
  import opened Wrappers

  /** The text before the slug in a pattern block reference. */
  const Open: string := "<!-- wp:pattern {\"slug\":\""
  /** The text after the slug. */
  const Close: string := "\"} /-->"

  /** What `[^"]+` accepts: a non-empty run of characters none of which is a double quote. */
  predicate WellFormedSlug(slug: string)
  {
    |slug| > 0 && '"' !in slug
  }

  /** The reference a template writes to embed the pattern `slug`. */
  function Reference(slug: string): string
  {
    Open + slug + Close
  }

  /** The regular expression matches at index `p` of `s` with `slug` as its capture. */
  predicate ReferenceAt(s: string, p: nat, slug: string)
  {
    WellFormedSlug(slug) && OccursAt(s, Reference(slug), p)
  }

  /** Some match of the regular expression in `s` captures `slug`. */
  ghost predicate Mentions(s: string, slug: string)
  {
    exists p: nat :: ReferenceAt(s, p, slug)
  }

  /** The regular expression matches somewhere in `s`. */
  ghost predicate HasReference(s: string)
  {
    exists p: nat, slug :: ReferenceAt(s, p, slug)
  }

  /** Index of the first double quote in `t`, or `|t|` when there is none. */
  function FirstQuote(t: string): (k: nat)
    ensures k <= |t|
    ensures k < |t| ==> t[k] == '"'
    ensures forall m :: 0 <= m < k ==> t[m] != '"'
    decreases |t|
  {
    if |t| == 0 || t[0] == '"' then 0 else 1 + FirstQuote(t[1..])
  }

  /** A match found at the start of the text: its capture and where the match ends. */
  datatype Match = Match(slug: string, end: nat)

  /** Tries the regular expression at index 0. `[^"]+` cannot run past a double quote,
      so the only candidate capture ends at the first quote after the opening text. */
  function MatchPrefix(s: string): (m: Option<Match>)
    ensures m.Some? ==> WellFormedSlug(m.value.slug)
    ensures m.Some? ==> m.value.end == |Reference(m.value.slug)| && OccursAt(s, Reference(m.value.slug), 0)
  {
    if !OccursAt(s, Open, 0) then None
    else
      var t := s[|Open|..];
      var k := FirstQuote(t);
      if k > 0 && OccursAt(t, Close, k) then
        assert '"' !in t[..k] by {
          forall m | 0 <= m < k ensures t[..k][m] != '"' { }
        }
        assert s[..|Reference(t[..k])|] == Open + t[..k] + Close;
        Some(Match(t[..k], |Open| + k + |Close|))
      else None
  }

  /** The match at index 0 is exactly a well-formed reference starting there. */
  lemma MatchPrefixIff(s: string, slug: string)
    ensures MatchPrefix(s) == Some(Match(slug, |Reference(slug)|)) <==> ReferenceAt(s, 0, slug)
  {
    if ReferenceAt(s, 0, slug) {
      var t := s[|Open|..];
      assert OccursAt(s, Open, 0) by {
        assert s[..|Open|] == Reference(slug)[..|Open|];
      }
      assert t[..|slug| + |Close|] == slug + Close by {
        assert s[..|Reference(slug)|] == Open + (slug + Close);
        assert t[..|slug| + |Close|] == s[..|Reference(slug)|][|Open|..];
      }
      assert FirstQuote(t) == |slug| by {
        assert t[|slug|] == '"';
        forall m | 0 <= m < |slug| ensures t[m] != '"' {
          assert t[m] == slug[m];
        }
      }
      assert OccursAt(t, Close, |slug|) by {
        assert t[|slug|..|slug| + |Close|] == (slug + Close)[|slug|..];
      }
      assert t[..|slug|] == slug;
    }
  }

  /** No match at index 0 exactly when no well-formed reference starts there. */
  lemma NoMatchPrefixIff(s: string)
    ensures MatchPrefix(s).None? <==> forall slug :: !ReferenceAt(s, 0, slug)
  {
    if MatchPrefix(s).Some? {
      MatchPrefixIff(s, MatchPrefix(s).value.slug);
    }
    forall slug | ReferenceAt(s, 0, slug) ensures MatchPrefix(s).Some? {
      MatchPrefixIff(s, slug);
    }
  }

  /** `preg_match_all`: after a match resume where it ended, otherwise one character further. */
  function Scan(s: string): seq<string>
    decreases |s|
  {
    if |s| == 0 then []
    else match MatchPrefix(s)
      case Some(m) => [m.slug] + Scan(s[m.end..])
      case None => Scan(s[1..])
  }

  /** Every slug the scan returns is what `[^"]+` accepts, and is captured by a match in `s`. */
  lemma {:induction false} ScanSound(s: string)
    ensures forall k :: 0 <= k < |Scan(s)| ==> WellFormedSlug(Scan(s)[k]) && Mentions(s, Scan(s)[k])
    decreases |s|
  {
    if |s| > 0 {
      match MatchPrefix(s)
      case Some(m) =>
        var rest := Scan(s[m.end..]);
        ScanSound(s[m.end..]);
        assert Scan(s) == [m.slug] + rest;
        forall k | 0 <= k < |Scan(s)| ensures WellFormedSlug(Scan(s)[k]) && Mentions(s, Scan(s)[k]) {
          if k == 0 {
            assert ReferenceAt(s, 0, m.slug);
          } else {
            assert Scan(s)[k] == rest[k - 1];
            var p: nat :| ReferenceAt(s[m.end..], p, rest[k - 1]);
            ShiftOccurs(s, m.end, p, Reference(rest[k - 1]));
            assert ReferenceAt(s, m.end + p, rest[k - 1]);
          }
        }
      case None =>
        var rest := Scan(s[1..]);
        ScanSound(s[1..]);
        forall k | 0 <= k < |rest| ensures WellFormedSlug(rest[k]) && Mentions(s, rest[k]) {
          var p: nat :| ReferenceAt(s[1..], p, rest[k]);
          ShiftOccurs(s, 1, p, Reference(rest[k]));
          assert ReferenceAt(s, 1 + p, rest[k]);
        }
    }
  }

  lemma ShiftOccurs(s: string, d: nat, p: nat, needle: string)
    requires d <= |s|
    ensures OccursAt(s[d..], needle, p) <==> OccursAt(s, needle, d + p)
  {
  }

  /** `template_has_patterns`: the captured slugs, or nothing (PHP's `false`) when there is no match. */
  function TemplateHasPatterns(contents: string): (r: Option<seq<string>>)
    ensures r.Some? ==> r.value != []
  {
    var slugs := Scan(contents);
    if slugs == [] then None else Some(slugs)
  }

  /** Each returned slug is non-empty, holds no double quote, and is embedded by the template. */
  lemma TemplateHasPatternsSound(contents: string)
    ensures TemplateHasPatterns(contents).Some? ==>
      forall k :: 0 <= k < |TemplateHasPatterns(contents).value| ==>
        WellFormedSlug(TemplateHasPatterns(contents).value[k]) &&
        Contains(contents, Reference(TemplateHasPatterns(contents).value[k]))
  {
    var slugs := Scan(contents);
    ScanSound(contents);
    forall k | 0 <= k < |slugs| ensures Contains(contents, Reference(slugs[k])) {
      assert Mentions(contents, slugs[k]);
      var p: nat :| ReferenceAt(contents, p, slugs[k]);
      ContainsAt(contents, Reference(slugs[k]), p);
    }
  }

  /** The scan finds nothing exactly when the text holds no well-formed reference anywhere. */
  lemma {:induction false} ScanEmptyIff(s: string)
    ensures Scan(s) == [] <==> !HasReference(s)
    decreases |s|
  {
    if |s| > 0 {
      NoMatchPrefixIff(s);
      if MatchPrefix(s).None? {
        ScanEmptyIff(s[1..]);
        if HasReference(s) {
          var p: nat, slug :| ReferenceAt(s, p, slug);
          assert p > 0;
          ShiftOccurs(s, 1, p - 1, Reference(slug));
          assert ReferenceAt(s[1..], p - 1, slug);
        }
        if HasReference(s[1..]) {
          var p: nat, slug :| ReferenceAt(s[1..], p, slug);
          ShiftOccurs(s, 1, p, Reference(slug));
          assert ReferenceAt(s, p + 1, slug);
        }
      } else {
        assert ReferenceAt(s, 0, MatchPrefix(s).value.slug);
      }
    }
  }

  /** `template_has_patterns` returns false exactly when the template holds no reference. */
  lemma TemplateHasPatternsNoneIff(contents: string)
    ensures TemplateHasPatterns(contents).None? <==> !HasReference(contents)
  {
    ScanEmptyIff(contents);
  }

  /** Text with no `<` holds no match start, so the scan passes over it. */
  lemma {:induction false} ScanSkipsText(t: string, u: string)
    requires '<' !in t
    ensures Scan(t + u) == Scan(u)
    decreases |t|
  {
    if |t| > 0 {
      var s := t + u;
      assert s[0] == t[0];
      assert !OccursAt(s, Open, 0) by {
        assert Open[0] == '<' && s[0] != '<';
      }
      assert s[1..] == t[1..] + u;
      ScanSkipsText(t[1..], u);
    } else {
      assert t + u == u;
    }
  }

  /** A reference at the front is read as its slug, and the scan resumes right after it. */
  lemma ScanReference(slug: string, u: string)
    requires WellFormedSlug(slug)
    ensures Scan(Reference(slug) + u) == [slug] + Scan(u)
  {
    var s := Reference(slug) + u;
    assert s[..|Reference(slug)|] == Reference(slug);
    MatchPrefixIff(s, slug);
    assert s[|Reference(slug)|..] == u;
  }

  /** The characters of `Open` and `Close` the overlap argument needs: `<` occurs only at the
      start of `Open`, the first quote of `Open` is at index 17 and is followed by `s`, and
      `Close` starts with a quote followed by `}` and holds no `<`. */
  lemma DelimiterShape()
    ensures |Open| == 25 && |Close| == 7
    ensures Open[0] == '<' && forall i :: 1 <= i < |Open| ==> Open[i] != '<'
    ensures (forall i :: 0 <= i < 17 ==> Open[i] != '"') && Open[17] == '"' && Open[18] == 's'
    ensures '<' !in Close && Close[0] == '"' && Close[1] == '}'
  {
  }

  /** The characters of a reference, by index. */
  lemma ReadRef(s: string, p: nat, slug: string, i: nat)
    requires ReferenceAt(s, p, slug)
    requires i < |Reference(slug)|
    ensures p + i < |s|
    ensures i < |Open| ==> s[p + i] == Open[i]
    ensures |Open| <= i < |Open| + |slug| ==> s[p + i] == slug[i - |Open|]
    ensures |Open| + |slug| <= i ==> s[p + i] == Close[i - |Open| - |slug|]
  {
    assert s[p + i] == s[p..p + |Reference(slug)|][i];
  }

  /** Two matches never overlap: inside a reference no other reference can start. The only
      `<` inside a reference past its first character lies in the slug, and a reference
      starting there would need its quote at offset 17 to be the slug's closing quote, whose
      successor is `}` where the second reference has `s`. */
  lemma NoOverlap(s: string, q: nat, r: string, p: nat, slug: string)
    requires ReferenceAt(s, q, r)
    requires q < p < q + |Reference(r)|
    ensures !ReferenceAt(s, p, slug)
  {
    if ReferenceAt(s, p, slug) {
      DelimiterShape();
      var e := |Open| + |r|;
      ReadRef(s, p, slug, 0);
      ReadRef(s, q, r, p - q);
      assert |Open| <= p - q < e;
      ReadRef(s, p, slug, 17);
      if p + 17 < q + e {
        ReadRef(s, q, r, p + 17 - q);
        assert false;
      } else if p + 17 > q + e {
        ReadRef(s, q, r, e);
        ReadRef(s, p, slug, q + e - p);
        assert false;
      } else {
        ReadRef(s, q, r, e + 1);
        ReadRef(s, p, slug, 18);
        assert false;
      }
    }
  }

  /** Every match of the regular expression, one per index at which one starts, in ascending
      order of index. This is the list a scan would give if matches could overlap. */
  function AllRefs(s: string): seq<string>
    decreases |s|
  {
    if |s| == 0 then []
    else
      (match MatchPrefix(s) case Some(m) => [m.slug] case None => []) + AllRefs(s[1..])
  }

  /** A slug is listed exactly when some match captures it. */
  lemma {:induction false} AllRefsMember(s: string, slug: string)
    ensures slug in AllRefs(s) <==> Mentions(s, slug)
    decreases |s|
  {
    if |s| > 0 {
      AllRefsMember(s[1..], slug);
      MatchPrefixIff(s, slug);
      if Mentions(s[1..], slug) {
        var p: nat :| ReferenceAt(s[1..], p, slug);
        ShiftOccurs(s, 1, p, Reference(slug));
        assert ReferenceAt(s, p + 1, slug);
      }
      if Mentions(s, slug) {
        var p: nat :| ReferenceAt(s, p, slug);
        if p > 0 {
          ShiftOccurs(s, 1, p - 1, Reference(slug));
          assert ReferenceAt(s[1..], p - 1, slug);
        }
      }
    }
  }

  /** Indexes `i` up to `j` where no match starts contribute nothing. */
  lemma {:induction false} AllRefsSkip(s: string, i: nat, j: nat)
    requires i <= j <= |s|
    requires forall p :: i <= p < j ==> MatchPrefix(s[p..]).None?
    ensures AllRefs(s[i..]) == AllRefs(s[j..])
    decreases j - i
  {
    if i < j {
      assert s[i..][1..] == s[i + 1..];
      AllRefsSkip(s, i + 1, j);
    }
  }

  /** `preg_match_all` loses nothing by resuming after each match: the scan returns every
      match of the text, left to right, repeats included. */
  lemma {:induction false} ScanAllRefs(s: string)
    ensures Scan(s) == AllRefs(s)
    decreases |s|
  {
    if |s| > 0 {
      match MatchPrefix(s)
      case None =>
        ScanAllRefs(s[1..]);
      case Some(m) =>
        ScanAllRefs(s[m.end..]);
        assert ReferenceAt(s, 0, m.slug);
        forall p | 1 <= p < m.end ensures MatchPrefix(s[p..]).None? {
          NoMatchPrefixIff(s[p..]);
          forall slug ensures !ReferenceAt(s[p..], 0, slug) {
            NoOverlap(s, 0, m.slug, p, slug);
            ShiftOccurs(s, p, 0, Reference(slug));
          }
        }
        AllRefsSkip(s, 1, m.end);
    }
  }

  /** Every match in the text is returned by the scan. */
  lemma ScanComplete(s: string, p: nat, slug: string)
    requires ReferenceAt(s, p, slug)
    ensures slug in Scan(s)
  {
    ScanAllRefs(s);
    AllRefsMember(s, slug);
  }

  /** `template_has_patterns` returns every match of the template, in order, repeats
      included, and false exactly when there is none. */
  lemma TemplateHasPatternsAll(contents: string)
    ensures TemplateHasPatterns(contents).None? <==> AllRefs(contents) == []
    ensures TemplateHasPatterns(contents).Some? ==> TemplateHasPatterns(contents).value == AllRefs(contents)
  {
    ScanAllRefs(contents);
  }

  /** A piece of template markup: plain text, or a pattern block reference. */
  datatype Piece = Plain(text: string) | PatternBlock(slug: string)

  function Render(doc: seq<Piece>): string
  {
    if doc == [] then ""
    else
      (match doc[0] case Plain(t) => t case PatternBlock(slug) => Reference(slug)) + Render(doc[1..])
  }

  /** The slugs of the pattern blocks of `doc`, in order. */
  function BlockSlugs(doc: seq<Piece>): seq<string>
  {
    if doc == [] then []
    else (match doc[0] case Plain(_) => [] case PatternBlock(slug) => [slug]) + BlockSlugs(doc[1..])
  }

  /** Text without `<` and blocks with well-formed slugs. */
  predicate PlainMarkup(doc: seq<Piece>)
  {
    forall k :: 0 <= k < |doc| ==>
      match doc[k]
      case Plain(t) => '<' !in t
      case PatternBlock(slug) => WellFormedSlug(slug)
  }

  /** Round trip: the scan reads back exactly the pattern blocks the template was written with. */
  lemma {:induction false} ScanRender(doc: seq<Piece>)
    requires PlainMarkup(doc)
    ensures Scan(Render(doc)) == BlockSlugs(doc)
    decreases |doc|
  {
    if doc != [] {
      assert PlainMarkup(doc[1..]) by {
        forall k | 0 <= k < |doc[1..]| ensures doc[1..][k] == doc[k + 1] { }
      }
      ScanRender(doc[1..]);
      assert PlainMarkup(doc) ==> match doc[0] case Plain(t) => '<' !in t case PatternBlock(slug) => WellFormedSlug(slug);
      match doc[0]
      case Plain(t) =>
        ScanSkipsText(t, Render(doc[1..]));
      case PatternBlock(slug) =>
        ScanReference(slug, Render(doc[1..]));
    } else {
      assert Scan("") == [];
    }
  }
}
