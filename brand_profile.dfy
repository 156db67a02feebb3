// The canonical brand record of brand_engine/brand_profile.py and its
// `ensure_palette` step.

module BrandProfiles {
  import opened Wrappers
  import opened Collections

  /** The generic families that close every font stack. */
  const GenericFamilies: string := ", system-ui, -apple-system, BlinkMacSystemFont, 'Segoe UI', sans-serif"
  /** The CSS font stack every profile starts with. */
  const DefaultFontStack: string := "Inter" + GenericFamilies
  const DefaultNeutral: string := "#111827"
  const DefaultBackground: string := "#F9FAFB"

  /** The six colours appended after the brand's own roles. */
  const Fallback: seq<string> := ["#2563EB", "#0EA5E9", "#22C55E", "#F97316", "#E11D48", "#A855F7"]

  /** Most entries `ensure_palette` keeps. */
  const PaletteLimit: int := 8

  /** The record's fields as a value. */
  datatype ProfileData = ProfileData(
    name: Option<string>,
    logoPath: Option<string>,
    primary: Option<string>,
    secondary: Option<string>,
    accent: Option<string>,
    neutral: string,
    background: string,
    fontHeading: string,
    fontBody: string,
    detectedColors: seq<string>,
    detectedFonts: seq<string>,
    hexColorsInText: seq<string>,
    chartPalette: seq<string>)

  /** A profile built with no arguments. */
  function DefaultData(): ProfileData {
    ProfileData(None, None, None, None, None, DefaultNeutral, DefaultBackground,
                DefaultFontStack, DefaultFontStack, [], [], [], [])
  }

  /** Python truthiness of an optional string: present and non-empty. */
  predicate Truthy(c: Option<string>) {
    c.Some? && c.value != ""
  }

  /** The truthy values among primary, secondary, accent and neutral, in
      that order. */
  function BaseColors(p: ProfileData): (r: seq<string>)
    ensures |r| <= 4
    ensures forall c :: c in r ==> c != ""
  {
    TruthyValues(Roles(p))
  }

  /** The role colours in palette order; `neutral_color` is a plain string. */
  function Roles(p: ProfileData): seq<Option<string>> {
    [p.primary, p.secondary, p.accent, Some(p.neutral)]
  }

  /** `[c for c in roles if c]`, keeping the values. */
  function TruthyValues(roles: seq<Option<string>>): (r: seq<string>)
    ensures |r| <= |roles|
    ensures forall c :: c in r <==> Some(c) in roles && c != ""
    decreases |roles|
  {
    if roles == [] then []
    else
      var init := TruthyValues(roles[..|roles| - 1]);
      var last := roles[|roles| - 1];
      assert roles == roles[..|roles| - 1] + [last];
      init + (if Truthy(last) then [last.value] else [])
  }

  /** The value of a role when it is truthy, as a list of zero or one. */
  function Present(c: Option<string>): seq<string> {
    if Truthy(c) then [c.value] else []
  }

  /** The filter works element by element: it keeps order and repeats. */
  lemma {:induction false} TruthyValuesAppend(a: seq<Option<string>>, b: seq<Option<string>>)
    ensures TruthyValues(a + b) == TruthyValues(a) + TruthyValues(b)
    decreases |b|
  {
    if b == [] {
      assert a + b == a;
    } else {
      var init, last := b[..|b| - 1], b[|b| - 1];
      var ab := a + b;
      assert ab[..|ab| - 1] == a + init && ab[|ab| - 1] == last;
      calc {
        TruthyValues(ab);
        TruthyValues(a + init) + Present(last);
        { TruthyValuesAppend(a, init); }
        (TruthyValues(a) + TruthyValues(init)) + Present(last);
        { SeqAppendAssoc(TruthyValues(a), TruthyValues(init), Present(last)); }
        TruthyValues(a) + (TruthyValues(init) + Present(last));
        TruthyValues(a) + TruthyValues(b);
      }
    }
  }

  lemma TruthyValuesOne(c: Option<string>)
    ensures TruthyValues([c]) == Present(c)
  {
    assert [c][..0] == [];
  }

  /** The base colours are primary, secondary, accent and neutral, in that
      order, each kept when truthy. */
  lemma BaseColorsInOrder(p: ProfileData)
    ensures BaseColors(p) == Present(p.primary) + Present(p.secondary) + Present(p.accent) +
                             Present(Some(p.neutral))
  {
    var a, b, c, d := p.primary, p.secondary, p.accent, Some(p.neutral);
    assert Roles(p) == [a, b] + [c, d];
    assert [a, b] == [a] + [b] && [c, d] == [c] + [d];
    TruthyValuesAppend([a, b], [c, d]);
    TruthyValuesAppend([a], [b]);
    TruthyValuesAppend([c], [d]);
    TruthyValuesOne(a);
    TruthyValuesOne(b);
    TruthyValuesOne(c);
    TruthyValuesOne(d);
  }

  /** The loop's `if c` test: empty strings are skipped. */
  function NonEmpty(xs: seq<string>): (r: seq<string>)
    ensures forall c :: c in r <==> c in xs && c != ""
    decreases |xs|
  {
    if xs == [] then []
    else
      var init := xs[..|xs| - 1];
      var last := xs[|xs| - 1];
      assert xs == init + [last];
      NonEmpty(init) + (if last == "" then [] else [last])
  }

  /** The palette `ensure_palette` builds for a profile whose palette is
      empty: first occurrences of the roles, then of the fallback colours,
      at most eight. */
  function CompletedPalette(p: ProfileData): seq<string> {
    Prefix(Dedup(NonEmpty(BaseColors(p) + Fallback)), PaletteLimit)
  }

  /** The profile after `ensure_palette`. */
  function EnsuredPalette(p: ProfileData): ProfileData {
    if p.chartPalette != [] then p else p.(chartPalette := CompletedPalette(p))
  }

  class BrandProfile {
    var name: Option<string>
    var logoPath: Option<string>
    var primary: Option<string>
    var secondary: Option<string>
    var accent: Option<string>
    var neutral: string
    var background: string
    var fontHeading: string
    var fontBody: string
    var detectedColors: seq<string>
    var detectedFonts: seq<string>
    var hexColorsInText: seq<string>
    var chartPalette: seq<string>

    function Value(): ProfileData
      reads this
    {
      ProfileData(name, logoPath, primary, secondary, accent, neutral, background,
                  fontHeading, fontBody, detectedColors, detectedFonts, hexColorsInText,
                  chartPalette)
    }

    /** `BrandProfile()`: every field at its default. */
    constructor ()
      ensures Value() == DefaultData()
    {
      name, logoPath, primary, secondary, accent := None, None, None, None, None;
      neutral, background := DefaultNeutral, DefaultBackground;
      fontHeading, fontBody := DefaultFontStack, DefaultFontStack;
      detectedColors, detectedFonts, hexColorsInText, chartPalette := [], [], [], [];
    }

    /** `from_dict`: a profile holding exactly the given fields. */
    constructor FromDict(d: ProfileData)
      ensures Value() == d
    {
      name, logoPath, primary, secondary, accent := d.name, d.logoPath, d.primary, d.secondary, d.accent;
      neutral, background := d.neutral, d.background;
      fontHeading, fontBody := d.fontHeading, d.fontBody;
      detectedColors, detectedFonts := d.detectedColors, d.detectedFonts;
      hexColorsInText, chartPalette := d.hexColorsInText, d.chartPalette;
    }

    /** Records the detected fonts and the family used for headings and
        body text; assigns nothing else. */
    method RecordFonts(fonts: seq<string>, family: string)
      modifies this
      ensures Value() == old(Value()).(detectedFonts := fonts, fontHeading := family, fontBody := family)
    {
      detectedFonts, fontHeading, fontBody := fonts, family, family;
    }

    /** Fills an empty `chart_palette`; assigns nothing else. */
    method EnsurePalette()
      modifies this
      ensures Value() == EnsuredPalette(old(Value()))
    {
      if chartPalette != [] {
        return;
      }
      var p := Value();
      var candidates := BaseColors(p) + Fallback;
      var seen: set<string> := {};
      var deduped: seq<string> := [];
      for i := 0 to |candidates|
        invariant deduped == Dedup(NonEmpty(candidates[..i]))
        invariant seen == Elems(deduped)
        invariant Value() == p
      {
        var c := candidates[i];
        NonEmptyDedupStep(candidates, i, deduped, seen);
        if c != "" && c !in seen {
          seen := seen + {c};
          deduped := deduped + [c];
        }
      }
      assert candidates[..|candidates|] == candidates;
      assert Prefix(deduped, PaletteLimit) == CompletedPalette(p);
      chartPalette := Prefix(deduped, PaletteLimit);
    }
  }

  /** One turn of `ensure_palette`'s loop. */
  lemma NonEmptyDedupStep(xs: seq<string>, i: nat, deduped: seq<string>, seen: set<string>)
    requires i < |xs| && deduped == Dedup(NonEmpty(xs[..i])) && seen == Elems(deduped)
    ensures xs[i] != "" && xs[i] !in seen ==>
              Dedup(NonEmpty(xs[..i + 1])) == deduped + [xs[i]] &&
              Elems(deduped + [xs[i]]) == seen + {xs[i]}
    ensures !(xs[i] != "" && xs[i] !in seen) ==> Dedup(NonEmpty(xs[..i + 1])) == deduped
  {
    var init := xs[..i + 1][..i];
    assert init == xs[..i];
    if xs[i] != "" {
      assert NonEmpty(xs[..i + 1]) == NonEmpty(xs[..i]) + [xs[i]];
      DedupSnoc(NonEmpty(xs[..i]), xs[i]);
    } else {
      assert NonEmpty(xs[..i + 1]) == NonEmpty(xs[..i]);
    }
  }

  lemma {:induction false} NonEmptyOfNonEmpty(xs: seq<string>)
    requires forall c :: c in xs ==> c != ""
    ensures NonEmpty(xs) == xs
    decreases |xs|
  {
    if xs != [] {
      var init, last := xs[..|xs| - 1], xs[|xs| - 1];
      assert xs == init + [last];
      forall c | c in init ensures c != "" {
        var k :| 0 <= k < |init| && init[k] == c;
        assert xs[k] == c && xs[k] in xs;
      }
      NonEmptyOfNonEmpty(init);
      assert last in xs;
    }
  }

  lemma FallbackDistinct()
    ensures Distinct(Fallback) && |Fallback| == 6
    ensures forall c :: c in Fallback ==> c != ""
  {
  }

  /** The palette is the roles' first occurrences, then the fallback colours
      the roles lack, cut to eight. */
  lemma CompletedPaletteShape(p: ProfileData)
    ensures CompletedPalette(p) ==
            Prefix(Dedup(BaseColors(p)) + Without(Fallback, Elems(BaseColors(p))), PaletteLimit)
  {
    var base := BaseColors(p);
    FallbackDistinct();
    NonEmptyOfNonEmpty(base + Fallback);
    DedupAppend(base, Fallback);
    WithoutDistinct(Fallback, Elems(base));
    DedupOfDistinct(Without(Fallback, Elems(base)));
  }

  /** Between six and eight entries, none repeated, none empty, each a role
      colour or a fallback colour. */
  lemma CompletedPaletteBounds(p: ProfileData)
    ensures var r := CompletedPalette(p);
            6 <= |r| <= 8 && Distinct(r) &&
            forall c :: c in r ==> c != "" && (c in BaseColors(p) || c in Fallback)
  {
    var base := BaseColors(p);
    var xs := NonEmpty(base + Fallback);
    FallbackDistinct();
    NonEmptyOfNonEmpty(base + Fallback);
    DedupCovers(xs, Fallback);
    var d := Dedup(xs);
    var r := CompletedPalette(p);
    assert r == d[..|r|];
    forall i, j | 0 <= i < j < |r| ensures r[i] != r[j] {
      assert r[i] == d[i] && r[j] == d[j];
    }
    forall c | c in r ensures c in d {
      var k :| 0 <= k < |r| && r[k] == c;
      assert d[k] == c;
    }
  }

  /** The palette starts with the truthy roles, in role order, each at its
      first occurrence. */
  lemma CompletedPaletteStartsWithRoles(p: ProfileData)
    ensures var roles := Dedup(BaseColors(p));
            |roles| <= |CompletedPalette(p)| && CompletedPalette(p)[..|roles|] == roles
  {
    CompletedPaletteShape(p);
    CompletedPaletteBounds(p);
  }

  /** A truthy primary colour comes first. */
  lemma PrimaryLeadsPalette(p: ProfileData)
    requires Truthy(p.primary)
    ensures CompletedPalette(p)[0] == p.primary.value
  {
    CompletedPaletteStartsWithRoles(p);
    var base := BaseColors(p);
    assert base[0] == p.primary.value by {
      var roles := Roles(p);
      assert roles[..1] == [p.primary];
      assert TruthyValues(roles[..1]) == [p.primary.value];
      TruthyValuesPrefix(roles, 1);
    }
    assert Dedup(base)[0] == base[0] by {
      DedupHead(base);
    }
  }

  /** `TruthyValues` of a prefix is a prefix of `TruthyValues`. */
  lemma {:induction false} TruthyValuesPrefix(roles: seq<Option<string>>, n: nat)
    requires n <= |roles|
    ensures var t := TruthyValues(roles[..n]);
            |t| <= |TruthyValues(roles)| && TruthyValues(roles)[..|t|] == t
    decreases |roles|
  {
    if n < |roles| {
      var init := roles[..|roles| - 1];
      assert init[..n] == roles[..n];
      TruthyValuesPrefix(init, n);
    } else {
      assert roles[..n] == roles;
    }
  }

  lemma DedupHead(xs: seq<string>)
    requires xs != []
    ensures Dedup(xs) != [] && Dedup(xs)[0] == xs[0]
  {
    DedupPrefix(xs, 1);
    assert xs[..1] == [xs[0]];
    DedupSnoc([], xs[0]);
    assert [] + [xs[0]] == [xs[0]];
  }

  /** Deduplicating a prefix gives a prefix of the deduplicated list. */
  lemma {:induction false} DedupPrefix(xs: seq<string>, n: nat)
    requires n <= |xs|
    ensures var d := Dedup(xs[..n]);
            |d| <= |Dedup(xs)| && Dedup(xs)[..|d|] == d
    decreases |xs|
  {
    if n < |xs| {
      var init := xs[..|xs| - 1];
      assert init[..n] == xs[..n];
      DedupPrefix(init, n);
      assert xs == init + [xs[|xs| - 1]];
      DedupSnoc(init, xs[|xs| - 1]);
    } else {
      assert xs[..n] == xs;
    }
  }

  /** A profile built with no arguments gets the neutral colour and the six
      fallback colours. */
  lemma DefaultPalette()
    ensures CompletedPalette(DefaultData()) ==
            ["#111827", "#2563EB", "#0EA5E9", "#22C55E", "#F97316", "#E11D48", "#A855F7"]
  {
    var p := DefaultData();
    var roles := Roles(p);
    assert TruthyValues(roles[..1]) == [];
    assert roles[..2][..1] == roles[..1];
    assert TruthyValues(roles[..2]) == [];
    assert roles[..3][..2] == roles[..2];
    assert TruthyValues(roles[..3]) == [];
    assert roles[..3] == roles[..|roles| - 1];
    assert BaseColors(p) == [DefaultNeutral];
    var all := [DefaultNeutral] + Fallback;
    assert Distinct(all);
    NonEmptyOfNonEmpty(all);
    DedupOfDistinct(all);
  }

  /** `ensure_palette` leaves a non-empty palette, and every other field,
      alone. */
  lemma EnsuredPaletteKeeps(p: ProfileData)
    ensures p.chartPalette != [] ==> EnsuredPalette(p) == p
    ensures EnsuredPalette(p).(chartPalette := p.chartPalette) == p
    ensures EnsuredPalette(p).chartPalette != []
  {
    CompletedPaletteBounds(p);
  }

  /** Running `ensure_palette` twice is running it once. */
  lemma EnsurePaletteIdempotent(p: ProfileData)
    ensures EnsuredPalette(EnsuredPalette(p)) == EnsuredPalette(p)
  {
    EnsuredPaletteKeeps(p);
  }
}
