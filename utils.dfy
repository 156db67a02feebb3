/** The leaf helpers of the brand engine (brand_engine/utils.py): the hex
    colour scanner, `rgb_to_hex`, `safe_filename` and the ranking step of
    `image_dominant_colors`. */
module Utils {
  import opened Wrappers
  import opened Collections
  import opened Strings
  import opened Inputs

  // ---------------------------------------------------------------------
  // extract_hex_colors_from_text: findall of  #(?:[0-9a-fA-F]{3}){1,2}\b
  // ---------------------------------------------------------------------

  predicate IsHexDigit(c: char) {
    '0' <= c <= '9' || 'a' <= c <= 'f' || 'A' <= c <= 'F'
  }

  predicate IsUpperHexDigit(c: char) {
    '0' <= c <= '9' || 'A' <= c <= 'F'
  }

  /** The regex class `\w`, on ASCII. */
  predicate IsWordChar(c: char) {
    '0' <= c <= '9' || 'a' <= c <= 'z' || 'A' <= c <= 'Z' || c == '_'
  }

  /** `s[i..i+n]` exists and is all hex digits. */
  predicate HexDigitsAt(s: string, i: nat, n: nat) {
    i + n <= |s| && forall k :: i <= k < i + n ==> IsHexDigit(s[k])
  }

  /** `\b` at position `j`, just after a word character: the text ends there
      or a non-word character follows. */
  predicate BoundaryAt(s: string, j: nat)
    requires j <= |s|
  {
    j == |s| || !IsWordChar(s[j])
  }

  /** How many hex digits the pattern matches when tried at position `i`,
      0 when it does not match there. The `{1,2}` repetition is greedy, so
      six digits are tried first and three only when six fail. */
  function MatchLength(s: string, i: nat): (n: nat)
    ensures n > 0 ==> (n == 3 || n == 6) && i < |s| && s[i] == '#'
                      && HexDigitsAt(s, i + 1, n) && BoundaryAt(s, i + 1 + n)
  {
    if i < |s| && s[i] == '#' then
      if HexDigitsAt(s, i + 1, 6) && BoundaryAt(s, i + 7) then 6
      else if HexDigitsAt(s, i + 1, 3) && BoundaryAt(s, i + 4) then 3
      else 0
    else 0
  }

  /** A matched token as the regex returns it: `#` and 3 or 6 hex digits. */
  predicate IsRawToken(m: string) {
    (|m| == 4 || |m| == 7) && m[0] == '#' && forall k :: 1 <= k < |m| ==> IsHexDigit(m[k])
  }

  /** A token after `.upper()`: `#` and 3 or 6 upper-case hex digits. */
  predicate IsColorToken(t: string) {
    (|t| == 4 || |t| == 7) && t[0] == '#' && forall k :: 1 <= k < |t| ==> IsUpperHexDigit(t[k])
  }

  /** `re.findall` from position `i` on: a match is recorded and the scan
      resumes after it; where nothing matches the scan moves on by one. */
  function FindAll(s: string, i: nat): (ms: seq<string>)
    ensures forall m :: m in ms ==> IsRawToken(m)
    decreases |s| - i
  {
    if i >= |s| then []
    else
      var n := MatchLength(s, i);
      if n > 0 then [s[i..i + 1 + n]] + FindAll(s, i + 1 + n)
      else FindAll(s, i + 1)
  }

  lemma UpperOfRawTokens()
    ensures forall m :: IsRawToken(m) ==> IsColorToken(Upper(m))
  {
  }

  /** `text or ""` */
  function TextOrEmpty(text: Option<string>): string {
    match text
    case None => ""
    case Some(t) => t
  }

  /** `extract_hex_colors_from_text(text)`: the distinct matched tokens,
      upper-cased, in ascending order. */
  function ExtractHexColors(text: Option<string>): (r: seq<string>)
    ensures StrictlySorted(r)
    ensures forall t :: t in r ==> IsColorToken(t)
    ensures text == None || text == Some("") ==> r == []
  {
    var ms := FindAll(TextOrEmpty(text), 0);
    UpperOfRawTokens();
    SortedSet(UpperAll(ms))
  }

  /** `{m.upper() for m in ms}` */
  function UpperAll(ms: seq<string>): set<string> {
    set m | m in ms :: Upper(m)
  }

  /** Upper-casing leaves colour tokens as they are. */
  lemma UpperAllTokens(ts: seq<string>)
    requires forall t :: t in ts ==> IsColorToken(t)
    ensures UpperAll(ts) == Elems(ts)
  {
    forall m | m in ts ensures Upper(m) == m {
      assert IsColorToken(m);
    }
  }

  /** The length of the run of hex digits starting at `j`. */
  function HexRun(s: string, j: nat): nat
    decreases |s| - j
  {
    if j < |s| && IsHexDigit(s[j]) then 1 + HexRun(s, j + 1) else 0
  }

  lemma {:induction false} HexRunFacts(s: string, j: nat)
    requires j <= |s|
    ensures j + HexRun(s, j) <= |s|
    ensures forall n: nat :: HexDigitsAt(s, j, n) <==> n <= HexRun(s, j)
    ensures j + HexRun(s, j) == |s| || !IsHexDigit(s[j + HexRun(s, j)])
    decreases |s| - j
  {
    if j < |s| && IsHexDigit(s[j]) {
      HexRunFacts(s, j + 1);
      forall n: nat ensures HexDigitsAt(s, j, n) <==> n <= HexRun(s, j) {
        if n > 0 {
          assert HexDigitsAt(s, j, n) <==> HexDigitsAt(s, j + 1, n - 1);
        }
      }
    } else {
      forall n: nat ensures HexDigitsAt(s, j, n) <==> n <= 0 {
        if n > 0 && j < |s| {
          assert !IsHexDigit(s[j]);
        }
      }
    }
  }

  /** The pattern matches at a `#` exactly when the hex run after it has
      length 3 or 6 and is followed by a non-word character or the end of the
      text; a run of 4, 5, 7 or more digits, or one followed by a letter, a
      digit or `_`, gives no match there. */
  lemma MatchLengthIsHexRun(s: string, i: nat)
    requires i < |s|
    ensures i + 1 + HexRun(s, i + 1) <= |s|
    ensures MatchLength(s, i) ==
      if s[i] == '#' && (HexRun(s, i + 1) == 3 || HexRun(s, i + 1) == 6)
         && BoundaryAt(s, i + 1 + HexRun(s, i + 1))
      then HexRun(s, i + 1) else 0
  {
    HexRunFacts(s, i + 1);
    var k := HexRun(s, i + 1);
    if k > 6 {
      assert IsHexDigit(s[i + 7]) by { assert HexDigitsAt(s, i + 1, 7); }
    }
    if k > 3 {
      assert IsHexDigit(s[i + 4]) by { assert HexDigitsAt(s, i + 1, 4); }
    }
  }

  /** The scan does not skip a match: a token matched at any position from
      `i` on is among the results. */
  lemma {:induction false} FindAllFinds(s: string, i: nat, j: nat)
    requires i <= j < |s| && MatchLength(s, j) > 0
    ensures s[j..j + 1 + MatchLength(s, j)] in FindAll(s, i)
    decreases |s| - i
  {
    if i < j {
      var n := MatchLength(s, i);
      if n > 0 {
        assert j >= i + 1 + n by {
          assert s[j] == '#' && !IsHexDigit('#');
        }
        if j > i + 1 + n || i + 1 + n < |s| {
          FindAllFinds(s, i + 1 + n, j);
        }
      } else {
        FindAllFinds(s, i + 1, j);
      }
    }
  }

  /** Every result of the scan is a token matched at some position. */
  lemma {:induction false} FindAllSound(s: string, i: nat, m: string)
    requires m in FindAll(s, i)
    ensures exists j :: i <= j < |s| && MatchLength(s, j) > 0 && m == s[j..j + 1 + MatchLength(s, j)]
    decreases |s| - i
  {
    var n := MatchLength(s, i);
    if n > 0 && m != s[i..i + 1 + n] {
      FindAllSound(s, i + 1 + n, m);
    } else if n == 0 {
      FindAllSound(s, i + 1, m);
    }
  }

  /** The scanner's result holds exactly the upper-cased tokens the pattern
      matches at some position of the text. */
  lemma ExtractHexColorsMembers(s: string, t: string)
    ensures t in ExtractHexColors(Some(s)) <==>
      exists j :: 0 <= j < |s| && MatchLength(s, j) > 0 && t == Upper(s[j..j + 1 + MatchLength(s, j)])
  {
    var ms := FindAll(s, 0);
    if t in ExtractHexColors(Some(s)) {
      var m :| m in ms && t == Upper(m);
      FindAllSound(s, 0, m);
    }
    if exists j :: 0 <= j < |s| && MatchLength(s, j) > 0 && t == Upper(s[j..j + 1 + MatchLength(s, j)]) {
      var j :| 0 <= j < |s| && MatchLength(s, j) > 0 && t == Upper(s[j..j + 1 + MatchLength(s, j)]);
      FindAllFinds(s, 0, j);
    }
  }

  lemma HexDigitsShift(p: string, q: string, i: nat, n: nat)
    ensures HexDigitsAt(p + q, |p| + i, n) <==> HexDigitsAt(q, i, n)
  {
    if i + n <= |q| {
      assert forall k :: i <= k < i + n ==> (p + q)[|p| + k] == q[k];
    }
  }

  lemma MatchLengthShift(p: string, q: string, j: nat)
    requires j <= |q|
    ensures MatchLength(p + q, |p| + j) == MatchLength(q, j)
  {
    HexDigitsShift(p, q, j + 1, 3);
    HexDigitsShift(p, q, j + 1, 6);
  }

  /** Scanning behind a prefix is scanning the rest on its own. */
  lemma {:induction false} FindAllShift(p: string, q: string, j: nat)
    requires j <= |q|
    ensures FindAll(p + q, |p| + j) == FindAll(q, j)
    decreases |q| - j, 1
  {
    if j < |q| {
      MatchLengthShift(p, q, j);
      if MatchLength(q, j) > 0 {
        FindAllShiftMatch(p, q, j);
      } else {
        FindAllShiftSkip(p, q, j);
      }
    }
  }

  lemma {:induction false} FindAllShiftMatch(p: string, q: string, j: nat)
    requires j < |q| && MatchLength(q, j) > 0 && MatchLength(p + q, |p| + j) == MatchLength(q, j)
    ensures FindAll(p + q, |p| + j) == FindAll(q, j)
    decreases |q| - j, 0
  {
    var s, i, n := p + q, |p| + j, MatchLength(q, j);
    assert s[i..i + 1 + n] == q[j..j + 1 + n];
    FindAllShift(p, q, j + 1 + n);
  }

  lemma {:induction false} FindAllShiftSkip(p: string, q: string, j: nat)
    requires j < |q| && MatchLength(q, j) == 0 && MatchLength(p + q, |p| + j) == 0
    ensures FindAll(p + q, |p| + j) == FindAll(q, j)
    decreases |q| - j, 0
  {
    FindAllShift(p, q, j + 1);
  }

  /** A token followed by a non-word character or by the end of the text is
      matched whole. */
  lemma TokenMatches(t: string, rest: string)
    requires IsColorToken(t)
    requires rest == [] || !IsWordChar(rest[0])
    ensures MatchLength(t + rest, 0) == |t| - 1
  {
    var s := t + rest;
    assert s[..|t|] == t;
    if |t| == 4 && |s| >= 7 {
      assert !IsHexDigit(s[4]);
    }
  }

  /** The scan passes over text without a `#`. */
  lemma {:induction false} FindAllSkipPlain(p: string, q: string, i: nat)
    requires i <= |p| && forall k :: i <= k < |p| ==> p[k] != '#'
    ensures FindAll(p + q, i) == FindAll(q, 0)
    decreases |p| - i
  {
    if i == |p| {
      FindAllShift(p, q, 0);
    } else {
      assert (p + q)[i] == p[i];
      FindAllSkipPlain(p, q, i + 1);
    }
  }

  /** A token followed by a non-word character is found, and the scan goes on
      after it. */
  lemma FindAllToken(t: string, rest: string)
    requires IsColorToken(t)
    requires rest == [] || !IsWordChar(rest[0])
    ensures FindAll(t + rest, 0) == [t] + FindAll(rest, 0)
  {
    TokenMatches(t, rest);
    assert (t + rest)[0..|t|] == t;
    FindAllShift(t, rest, 0);
  }

  lemma {:induction false} FindAllJoined(ts: seq<string>)
    requires forall t :: t in ts ==> IsColorToken(t)
    ensures FindAll(Join(ts, " "), 0) == ts
    decreases |ts|
  {
    if |ts| == 1 {
      var t := ts[0];
      assert t + [] == t;
      TokenMatches(t, []);
      assert t[0..|t|] == t;
    } else if |ts| > 1 {
      var t, rest := ts[0], Join(ts[1..], " ");
      var s := t + " " + rest;
      assert s == t + (" " + rest);
      TokenMatches(t, " " + rest);
      assert s[0..|t|] == t;
      assert FindAll(s, |t|) == FindAll(s, |t| + 1) by {
        assert s[|t|] == ' ';
      }
      assert s == (t + " ") + rest;
      FindAllShift(t + " ", rest, 0);
      FindAllJoined(ts[1..]);
      assert ts == [t] + ts[1..];
    }
  }

  /** Scanning the scanner's own output, joined by spaces, gives the same
      result again. */
  lemma RescanJoined(text: Option<string>)
    ensures ExtractHexColors(Some(Join(ExtractHexColors(text), " "))) == ExtractHexColors(text)
  {
    var r := ExtractHexColors(text);
    FindAllJoined(r);
    UpperAllTokens(r);
    SortedSetOfSorted(r);
  }

  // ---------------------------------------------------------------------
  // rgb_to_hex: '#' and two upper-case hex digits per channel
  // ---------------------------------------------------------------------

  function HexDigit(d: int): (c: char)
    requires 0 <= d < 16
    ensures IsUpperHexDigit(c)
  {
    if d < 10 then ('0' as int + d) as char else ('A' as int + d - 10) as char
  }

  /** A byte as two upper-case hex digits, zero-padded. */
  function Hex2(v: byte): string {
    [HexDigit(v as int / 16), HexDigit(v as int % 16)]
  }

  function RgbToHex(c: RGB): (h: string)
    ensures |h| == 7 && IsColorToken(h)
  {
    "#" + Hex2(c.r) + Hex2(c.g) + Hex2(c.b)
  }

  function HexValue(c: char): (v: int)
    requires IsHexDigit(c)
    ensures 0 <= v < 16
  {
    if c <= '9' then c as int - '0' as int
    else if c <= 'F' then c as int - 'A' as int + 10
    else c as int - 'a' as int + 10
  }

  /** Reads `#RRGGBB` (either case) back into its three channels. */
  function ParseHexColor(h: string): Option<RGB> {
    if |h| == 7 && h[0] == '#' && forall k :: 1 <= k < 7 ==> IsHexDigit(h[k]) then
      Some(RGB((16 * HexValue(h[1]) + HexValue(h[2])) as byte,
               (16 * HexValue(h[3]) + HexValue(h[4])) as byte,
               (16 * HexValue(h[5]) + HexValue(h[6])) as byte))
    else None
  }

  lemma Hex2RoundTrip(v: byte)
    ensures 16 * HexValue(Hex2(v)[0]) + HexValue(Hex2(v)[1]) == v as int
  {
  }

  /** `rgb_to_hex` loses nothing: the channels can be read back. */
  lemma RgbToHexRoundTrip(c: RGB)
    ensures ParseHexColor(RgbToHex(c)) == Some(c)
  {
    Hex2RoundTrip(c.r);
    Hex2RoundTrip(c.g);
    Hex2RoundTrip(c.b);
  }

  lemma Hex2OfDigits(x: char, y: char)
    requires IsUpperHexDigit(x) && IsUpperHexDigit(y)
    ensures 0 <= 16 * HexValue(x) + HexValue(y) < 256
    ensures Hex2((16 * HexValue(x) + HexValue(y)) as byte) == [x, y]
  {
  }

  /** Every `#RRGGBB` token in upper case is the `rgb_to_hex` of a colour. */
  lemma ParseHexColorRoundTrip(h: string)
    requires IsColorToken(h) && |h| == 7
    ensures ParseHexColor(h).Some? && RgbToHex(ParseHexColor(h).value) == h
  {
    assert forall k :: 1 <= k < 7 ==> IsHexDigit(h[k]);
    var c := ParseHexColor(h).value;
    assert Hex2(c.r) == [h[1], h[2]] by {
      Hex2OfDigits(h[1], h[2]);
    }
    assert Hex2(c.g) == [h[3], h[4]] by {
      Hex2OfDigits(h[3], h[4]);
    }
    assert Hex2(c.b) == [h[5], h[6]] by {
      Hex2OfDigits(h[5], h[6]);
    }
    RgbToHexOfDigits(h, c);
  }

  lemma RgbToHexOfDigits(h: string, c: RGB)
    requires |h| == 7 && h[0] == '#'
    requires Hex2(c.r) == [h[1], h[2]] && Hex2(c.g) == [h[3], h[4]] && Hex2(c.b) == [h[5], h[6]]
    ensures RgbToHex(c) == h
  {
    assert h == "#" + [h[1], h[2]] + [h[3], h[4]] + [h[5], h[6]];
  }

  /** Distinct colours give distinct hex strings. */
  lemma RgbToHexInjective(a: RGB, b: RGB)
    requires RgbToHex(a) == RgbToHex(b)
    ensures a == b
  {
    RgbToHexRoundTrip(a);
    RgbToHexRoundTrip(b);
  }

  // ---------------------------------------------------------------------
  // safe_filename: re.sub(r"[^a-zA-Z0-9._-]+", "_", name.strip())
  // ---------------------------------------------------------------------

  predicate IsSafeChar(c: char) {
    'a' <= c <= 'z' || 'A' <= c <= 'Z' || '0' <= c <= '9' || c == '.' || c == '_' || c == '-'
  }

  predicate AllSafe(s: string) {
    forall k :: 0 <= k < |s| ==> IsSafeChar(s[k])
  }

  predicate AllUnsafe(s: string) {
    forall k :: 0 <= k < |s| ==> !IsSafeChar(s[k])
  }

  /** Drops the leading run of characters outside the class. */
  function DropUnsafe(s: string): (r: string)
    ensures |r| <= |s| && r == s[|s| - |r|..]
    ensures forall k :: 0 <= k < |s| - |r| ==> !IsSafeChar(s[k])
    ensures r == [] || IsSafeChar(r[0])
    decreases |s|
  {
    if s != [] && !IsSafeChar(s[0]) then DropUnsafe(s[1..]) else s
  }

  /** The substitution: each maximal run of characters outside
      `[a-zA-Z0-9._-]` becomes one `_`. */
  function Substitute(s: string): (r: string)
    ensures AllSafe(r)
    decreases |s|
  {
    if s == [] then []
    else if IsSafeChar(s[0]) then [s[0]] + Substitute(s[1..])
    else "_" + Substitute(DropUnsafe(s[1..]))
  }

  function SafeFilename(name: string): (r: string)
    ensures AllSafe(r)
  {
    Substitute(Strip(name))
  }

  /** Characters of the class are kept. */
  lemma {:induction false} SubstituteSafe(s: string)
    requires AllSafe(s)
    ensures Substitute(s) == s
    decreases |s|
  {
    if s != [] {
      SubstituteSafe(s[1..]);
      assert s == [s[0]] + s[1..];
    }
  }

  /** A run of characters outside the class becomes a single `_`. */
  lemma SubstituteUnsafeRun(s: string)
    requires s != [] && AllUnsafe(s)
    ensures Substitute(s) == "_"
  {
    assert DropUnsafe(s[1..]) == [];
  }

  /** Cutting the text anywhere but inside a run of characters outside the
      class commutes with the substitution; with the two lemmas above this
      determines `Substitute` on every string. */
  lemma SubstituteCons(c: char, t: string)
    ensures Substitute([c] + t) ==
      if IsSafeChar(c) then [c] + Substitute(t) else "_" + Substitute(DropUnsafe(t))
  {
    assert ([c] + t)[0] == c && ([c] + t)[1..] == t;
  }

  lemma AppendAssoc(x: string, y: string, z: string)
    ensures x + (y + z) == (x + y) + z
  {
  }

  lemma SplitSafeHead(c: char, t: string, b: string)
    requires IsSafeChar(c)
    requires Substitute(t + b) == Substitute(t) + Substitute(b)
    ensures Substitute(([c] + t) + b) == Substitute([c] + t) + Substitute(b)
  {
    AppendAssoc([c], t, b);
    SubstituteCons(c, t);
    SubstituteCons(c, t + b);
    AppendAssoc([c], Substitute(t), Substitute(b));
  }

  lemma SplitUnsafeRun(c: char, t: string, b: string)
    requires !IsSafeChar(c) && Substitute([c] + t) == "_"
    requires DropUnsafe(t + b) == b
    ensures Substitute(([c] + t) + b) == Substitute([c] + t) + Substitute(b)
  {
    AppendAssoc([c], t, b);
    SubstituteCons(c, t + b);
  }

  lemma SplitUnsafeHead(c: char, t: string, b: string)
    requires !IsSafeChar(c) && DropUnsafe(t) != []
    requires DropUnsafe(t + b) == DropUnsafe(t) + b
    requires Substitute(DropUnsafe(t) + b) == Substitute(DropUnsafe(t)) + Substitute(b)
    ensures Substitute(([c] + t) + b) == Substitute([c] + t) + Substitute(b)
  {
    AppendAssoc([c], t, b);
    SubstituteCons(c, t);
    SubstituteCons(c, t + b);
    AppendAssoc("_", Substitute(DropUnsafe(t)), Substitute(b));
  }

  lemma {:induction false} SubstituteSplit(a: string, b: string)
    requires a == [] || b == [] || IsSafeChar(a[|a| - 1]) || IsSafeChar(b[0])
    ensures Substitute(a + b) == Substitute(a) + Substitute(b)
    decreases |a|, 1
  {
    if a == [] {
      assert a + b == b;
    } else if IsSafeChar(a[0]) {
      SubstituteSplitSafe(a, b);
    } else if DropUnsafe(a[1..]) == [] {
      SubstituteSplitRun(a, b);
    } else {
      SubstituteSplitDrop(a, b);
    }
  }

  lemma {:induction false} SubstituteSplitSafe(a: string, b: string)
    requires a != [] && IsSafeChar(a[0])
    requires b == [] || IsSafeChar(a[|a| - 1]) || IsSafeChar(b[0])
    ensures Substitute(a + b) == Substitute(a) + Substitute(b)
    decreases |a|, 0
  {
    var c, t := a[0], a[1..];
    assert a == [c] + t;
    assert Substitute(t + b) == Substitute(t) + Substitute(b) by {
      if t == [] {
        assert t + b == b;
      } else {
        assert t[|t| - 1] == a[|a| - 1];
        SubstituteSplit(t, b);
      }
    }
    SplitSafeHead(c, t, b);
  }

  lemma {:induction false} SubstituteSplitRun(a: string, b: string)
    requires a != [] && !IsSafeChar(a[0]) && DropUnsafe(a[1..]) == []
    requires b == [] || IsSafeChar(a[|a| - 1]) || IsSafeChar(b[0])
    ensures Substitute(a + b) == Substitute(a) + Substitute(b)
  {
    var c, t := a[0], a[1..];
    RunThenSafe(a, b);
    SubstituteCons(c, t);
    assert a == [c] + t;
    SplitUnsafeRun(c, t, b);
  }

  /** What follows a text made only of characters outside the class, when
      it starts inside the class, survives `DropUnsafe` untouched. */
  lemma RunThenSafe(a: string, b: string)
    requires a != [] && !IsSafeChar(a[0]) && DropUnsafe(a[1..]) == []
    requires b == [] || IsSafeChar(a[|a| - 1]) || IsSafeChar(b[0])
    ensures DropUnsafe(a[1..] + b) == b
  {
    var t := a[1..];
    if t != [] {
      assert a[|a| - 1] == t[|t| - 1];
    }
    DropUnsafePrefix(t, b);
  }

  lemma {:induction false} SubstituteSplitDrop(a: string, b: string)
    requires a != [] && !IsSafeChar(a[0]) && DropUnsafe(a[1..]) != []
    requires b == [] || IsSafeChar(a[|a| - 1]) || IsSafeChar(b[0])
    ensures Substitute(a + b) == Substitute(a) + Substitute(b)
    decreases |a|, 0
  {
    var c, t := a[0], a[1..];
    assert a == [c] + t;
    var d := DropUnsafe(t);
    assert DropUnsafe(t + b) == d + b by {
      DropUnsafeKeeps(t, b);
    }
    assert Substitute(d + b) == Substitute(d) + Substitute(b) by {
      assert d[|d| - 1] == a[|a| - 1];
      SubstituteSplit(d, b);
    }
    SplitUnsafeHead(c, t, b);
  }

  lemma {:induction false} DropUnsafePrefix(u: string, b: string)
    requires AllUnsafe(u)
    requires b == [] || IsSafeChar(b[0])
    ensures DropUnsafe(u + b) == b
    decreases |u|
  {
    if u == [] {
      assert u + b == b;
    } else {
      assert (u + b)[1..] == u[1..] + b;
      DropUnsafePrefix(u[1..], b);
    }
  }

  lemma DropUnsafeKeeps(u: string, b: string)
    requires DropUnsafe(u) != []
    ensures DropUnsafe(u + b) == DropUnsafe(u) + b
  {
    var d := DropUnsafe(u);
    var n := DropUnsafeCut(u);
    AppendAssoc(u[..n], d, b);
    assert (d + b)[0] == d[0];
    DropUnsafePrefix(u[..n], d + b);
  }

  /** `DropUnsafe` splits its input into the dropped run and the rest. */
  lemma DropUnsafeCut(u: string) returns (n: nat)
    ensures n <= |u| && u == u[..n] + DropUnsafe(u) && AllUnsafe(u[..n])
  {
    n := |u| - |DropUnsafe(u)|;
    forall k | 0 <= k < n ensures !IsSafeChar(u[..n][k]) {
      assert u[..n][k] == u[k];
    }
  }

  /** `safe_filename` applied twice equals applied once. */
  lemma SafeFilenameIdempotent(name: string)
    ensures SafeFilename(SafeFilename(name)) == SafeFilename(name)
  {
    var r := SafeFilename(name);
    assert r == [] || (!IsSpace(r[0]) && !IsSpace(r[|r| - 1]));
    StripTrimmed(r);
    SubstituteSafe(r);
  }

  // ---------------------------------------------------------------------
  // image_dominant_colors(image_path, top_n)
  // ---------------------------------------------------------------------

  /** `[rgb_to_hex(c[1]) for c in top]` */
  function HexesOf(top: Histogram): (hs: seq<string>)
    ensures |hs| == |top| && forall k :: 0 <= k < |top| ==> hs[k] == RgbToHex(top[k].item)
  {
    seq(|top|, k requires 0 <= k < |top| => RgbToHex(top[k].item))
  }

  /** The ranking step: sort by count (highest first, ties in PIL's order),
      keep the first `top_n`, convert to hex, drop repeats. */
  function RankedColors(h: Histogram, topN: int): (r: seq<string>)
    ensures Distinct(r)
    ensures topN >= 0 ==> |r| <= topN
    ensures forall x :: x in r ==> exists e :: e in h && x == RgbToHex(e.item)
  {
    var sorted := SortByCount(h);
    var top := Prefix(sorted, topN);
    var hs := HexesOf(top);
    assert forall x :: x in hs ==> exists e :: e in h && x == RgbToHex(e.item) by {
      forall x | x in hs ensures exists e :: e in h && x == RgbToHex(e.item) {
        var k :| 0 <= k < |hs| && hs[k] == x;
        assert top[k] in multiset(sorted);
      }
    }
    Dedup(hs)
  }

  /** What `image_dominant_colors` returns or whether it raises: `[]` for a
      missing path; PIL raises on a file it cannot decode (nothing catches
      that); `[]` for an image without colours; otherwise the ranking. */
  function DominantColorsOf(fs: FileSystem, imagePath: string, topN: int): (r: Outcome<seq<string>>)
    ensures imagePath !in fs ==> r == Returned([])
    ensures r.Returned? ==> Distinct(r.value) && (topN >= 0 ==> |r.value| <= topN)
  {
    if imagePath !in fs then Returned([])
    else match fs[imagePath]
      case RasterFile(h) => Returned(if h == [] then [] else RankedColors(h, topN))
      case _ => Raised
  }

  method ImageDominantColors(fs: FileSystem, imagePath: string, topN: int) returns (r: Outcome<seq<string>>)
    ensures r == DominantColorsOf(fs, imagePath, topN)
  {
    if imagePath !in fs {
      return Returned([]);
    }
    if !fs[imagePath].RasterFile? {
      return Raised;
    }
    var colors := fs[imagePath].histogram;
    if colors == [] {
      return Returned([]);
    }
    colors := SortByCount(colors);
    var top := Prefix(colors, topN);
    var hexColors := HexesOf(top);
    var deduped := DropRepeats(hexColors);
    return Returned(deduped);
  }

  /** The `seen`/`deduped` loop of `image_dominant_colors`: keeps the first
      occurrence of each colour, in order. */
  method DropRepeats(hexColors: seq<string>) returns (deduped: seq<string>)
    ensures deduped == Dedup(hexColors)
  {
    var seen: set<string> := {};
    deduped := [];
    for i := 0 to |hexColors|
      invariant deduped == Dedup(hexColors[..i])
      invariant seen == Elems(deduped)
    {
      var h := hexColors[i];
      DedupStep(hexColors, i, deduped, seen);
      if h !in seen {
        seen := seen + {h};
        deduped := deduped + [h];
      }
    }
    assert hexColors[..|hexColors|] == hexColors;
  }

  /** The result follows the count ranking: the k-th colour comes from an
      entry of the sorted histogram no lower than the l-th colour's entry,
      for k < l, and the sorted histogram has counts in non-increasing order
      and the same entries as the input. */
  lemma RankedColorsByCount(h: Histogram, topN: int)
    ensures var sorted := SortByCount(h);
            var top := Prefix(sorted, topN);
            var idx := DedupIndices(HexesOf(top));
            var r := RankedColors(h, topN);
            ByCountDesc(sorted) && multiset(sorted) == multiset(h) &&
            |idx| == |r| &&
            (forall k :: 0 <= k < |r| ==> idx[k] < |top| && r[k] == RgbToHex(top[idx[k]].item)) &&
            (forall k, l :: 0 <= k < l < |r| ==> top[idx[k]].count >= top[idx[l]].count)
  {
    var sorted := SortByCount(h);
    var top := Prefix(sorted, topN);
    assert ByCountDesc(top);
  }
}
