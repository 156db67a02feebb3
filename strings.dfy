/** String operations of Python's `str` that the brand engine relies on,
    restricted to ASCII where Python's are Unicode-aware: ordering by code
    point, `sorted(set(...))`, `strip()`, `replace(p, "")`, `upper()`,
    `lower()`, `endswith`, `" ".join` and `str(n)`. */
module Strings {
  import opened Collections

  /** `a < b` for Python strings: lexicographic by code point, a proper
      prefix sorting first. */
  predicate Below(a: string, b: string)
    decreases |a|
  {
    |b| > 0 && (|a| == 0 || a[0] < b[0] || (a[0] == b[0] && Below(a[1..], b[1..])))
  }

  lemma {:induction false} BelowIrreflexive(a: string)
    ensures !Below(a, a)
    decreases |a|
  {
    if |a| > 0 {
      BelowIrreflexive(a[1..]);
    }
  }

  lemma {:induction false} BelowTransitive(a: string, b: string, c: string)
    requires Below(a, b) && Below(b, c)
    ensures Below(a, c)
    decreases |a|
  {
    if |a| > 0 && a[0] == b[0] && b[0] == c[0] {
      BelowTransitive(a[1..], b[1..], c[1..]);
    }
  }

  lemma {:induction false} BelowTotal(a: string, b: string)
    ensures a == b || Below(a, b) || Below(b, a)
    decreases |a|
  {
    if |a| > 0 && |b| > 0 && a[0] == b[0] {
      BelowTotal(a[1..], b[1..]);
      if a[1..] == b[1..] {
        assert a == [a[0]] + a[1..] && b == [b[0]] + b[1..];
      }
    }
  }

  lemma BelowAsymmetric()
    ensures forall a, b :: Below(a, b) ==> !Below(b, a)
  {
    forall a, b | Below(a, b) ensures !Below(b, a) {
      if Below(b, a) {
        BelowTransitive(a, b, a);
        BelowIrreflexive(a);
      }
    }
  }

  predicate StrictlySorted(s: seq<string>) {
    forall i, j :: 0 <= i < j < |s| ==> Below(s[i], s[j])
  }

  lemma StrictlySortedDistinct(s: seq<string>)
    requires StrictlySorted(s)
    ensures Distinct(s)
  {
    forall i, j | 0 <= i < j < |s| ensures s[i] != s[j] {
      BelowIrreflexive(s[i]);
    }
  }

  predicate IsLeast(m: string, s: set<string>) {
    forall y :: y in s ==> y == m || Below(m, y)
  }

  lemma {:induction false} LeastExists(s: set<string>)
    requires s != {}
    ensures exists m :: m in s && IsLeast(m, s)
    decreases |s|
  {
    var x :| x in s;
    if s == {x} {
      assert IsLeast(x, s);
    } else {
      var rest := s - {x};
      LeastExists(rest);
      var m :| m in rest && IsLeast(m, rest);
      BelowTotal(x, m);
      if Below(x, m) {
        forall y | y in s ensures y == x || Below(x, y) {
          if y != x && y != m {
            BelowTransitive(x, m, y);
          }
        }
        assert IsLeast(x, s);
      } else {
        assert IsLeast(m, s);
      }
    }
  }

  lemma LeastUnique(s: set<string>)
    ensures forall m, m' :: m in s && IsLeast(m, s) && m' in s && IsLeast(m', s) ==> m == m'
  {
    BelowAsymmetric();
  }

  lemma LeastBelowRest(m: string, s: set<string>, rest: seq<string>)
    requires m in s && IsLeast(m, s)
    requires forall x :: x in rest <==> x in s - {m}
    requires StrictlySorted(rest)
    ensures StrictlySorted([m] + rest)
  {
    forall j | 0 <= j < |rest| ensures Below(m, rest[j]) {
      assert rest[j] in s - {m};
    }
  }

  /** Python's `sorted(s)` for a set of strings: its elements, ascending. */
  function SortedSet(s: set<string>): (r: seq<string>)
    ensures StrictlySorted(r)
    ensures forall x :: x in r <==> x in s
    ensures |r| == |s|
    decreases |s|
  {
    if s == {} then []
    else
      LeastExists(s);
      LeastUnique(s);
      var m :| m in s && IsLeast(m, s);
      var rest := SortedSet(s - {m});
      LeastBelowRest(m, s, rest);
      [m] + rest
  }

  /** Two ascending duplicate-free lists with the same elements are equal:
      `sorted` has exactly one possible result. */
  lemma {:induction false} SortedUnique(a: seq<string>, b: seq<string>)
    requires StrictlySorted(a) && StrictlySorted(b)
    requires forall x :: x in a <==> x in b
    ensures a == b
    decreases |a|
  {
    assert |b| > 0 ==> b[0] in a;
    if a != [] {
      assert b != [] by { assert a[0] in b; }
      if a[0] != b[0] {
        assert b[0] in a;
        assert a[0] in b;
        BelowAsymmetric();
      }
      forall x ensures x in a[1..] <==> x in b[1..] {
        BelowIrreflexive(a[0]);
        assert x in a[1..] <==> x in a && x != a[0];
        assert x in b[1..] <==> x in b && x != b[0];
      }
      SortedUnique(a[1..], b[1..]);
      assert a == [a[0]] + a[1..] && b == [b[0]] + b[1..];
    }
  }

  /** Sorting the set of an ascending duplicate-free list gives the list back. */
  lemma SortedSetOfSorted(a: seq<string>)
    requires StrictlySorted(a)
    ensures SortedSet(Elems(a)) == a
  {
    SortedUnique(SortedSet(Elems(a)), a);
  }

  /** What `str.isspace()` accepts among ASCII characters: space, `\t`,
      `\n`, `\v`, `\f`, `\r` and the separators U+001C..U+001F. */
  predicate IsSpace(c: char) {
    c == ' ' || '\t' <= c <= '\r' || '\U{1C}' <= c <= '\U{1F}'
  }

  function TrimStart(s: string): (r: string)
    ensures |r| <= |s| && r == s[|s| - |r|..]
    ensures forall i :: 0 <= i < |s| - |r| ==> IsSpace(s[i])
    ensures r == [] || !IsSpace(r[0])
    decreases |s|
  {
    if s != [] && IsSpace(s[0]) then TrimStart(s[1..]) else s
  }

  function TrimEnd(s: string): (r: string)
    ensures |r| <= |s| && r == s[..|r|]
    ensures forall i :: |r| <= i < |s| ==> IsSpace(s[i])
    ensures r == [] || !IsSpace(r[|r| - 1])
    decreases |s|
  {
    if s != [] && IsSpace(s[|s| - 1]) then TrimEnd(s[..|s| - 1]) else s
  }

  /** `s.strip()`: drops leading and trailing whitespace. */
  function Strip(s: string): (r: string)
    ensures |r| <= |s|
    ensures r == [] || (!IsSpace(r[0]) && !IsSpace(r[|r| - 1]))
    ensures exists i :: CutAt(s, r, i)
  {
    TrimCut(s);
    TrimEnd(TrimStart(s))
  }

  lemma TrimCut(s: string)
    ensures CutAt(s, TrimEnd(TrimStart(s)), |s| - |TrimStart(s)|)
  {
    var t := TrimStart(s);
    CutOfSuffix(s, t, TrimEnd(t), |s| - |t|);
  }

  /** Taking a prefix `r` of the suffix `t == s[i..]`, with only whitespace
      around it, cuts `s` at `i`. */
  lemma CutOfSuffix(s: string, t: string, r: string, i: int)
    requires 0 <= i <= |s| && t == s[i..] && |r| <= |t| && r == t[..|r|]
    requires forall k :: 0 <= k < i ==> IsSpace(s[k])
    requires forall k :: |r| <= k < |t| ==> IsSpace(t[k])
    ensures CutAt(s, r, i)
  {
    assert r == s[i..i + |r|];
    forall k | i + |r| <= k < |s| ensures IsSpace(s[k]) {
      assert s[k] == t[k - i];
    }
  }

  /** `r` is `s` from position `i` on, less a tail, and everything cut off
      on either side is whitespace. */
  predicate CutAt(s: string, r: string, i: int) {
    0 <= i <= |s| - |r| && r == s[i..i + |r|] &&
    (forall k :: 0 <= k < i ==> IsSpace(s[k])) &&
    (forall k :: i + |r| <= k < |s| ==> IsSpace(s[k]))
  }

  /** A string with no whitespace at either end is left alone by `strip()`. */
  lemma StripTrimmed(s: string)
    requires s == [] || (!IsSpace(s[0]) && !IsSpace(s[|s| - 1]))
    ensures Strip(s) == s
  {
  }

  /** `s.startswith(p)` */
  predicate StartsWith(s: string, p: string) {
    |p| <= |s| && s[..|p|] == p
  }

  /** `s.endswith(p)` */
  predicate EndsWith(s: string, p: string) {
    |p| <= |s| && s[|s| - |p|..] == p
  }

  lemma EndsWithAppend(x: string, suffix: string)
    ensures EndsWith(x + suffix, suffix)
  {
    assert (x + suffix)[|x|..] == suffix;
  }

  /** A suffix of a suffix is a suffix. */
  /** A string whose last character differs from the suffix's last one does
      not end with it. */
  lemma NotEndsWithByLast(s: string, suffix: string)
    requires s != [] && suffix != [] && s[|s| - 1] != suffix[|suffix| - 1]
    ensures !EndsWith(s, suffix)
  {
    if |suffix| <= |s| {
      assert s[|s| - |suffix|..][|suffix| - 1] == s[|s| - 1];
    }
  }

  /** A name ending in `.png` ends, in lower case, in neither `.pdf` nor
      `.docx`. */
  lemma PngNotPdfOrDocx(p: string)
    requires EndsWith(p, ".png")
    ensures !EndsWith(Lower(p), ".pdf") && !EndsWith(Lower(p), ".docx")
  {
    assert p[|p| - 1] == p[|p| - 4..][3];
    var l := Lower(p);
    assert l[|l| - 1] == 'g';
    NotEndsWithByLast(l, ".pdf");
    NotEndsWithByLast(l, ".docx");
  }

  lemma EndsWithTrans(a: string, b: string, c: string)
    requires EndsWith(a, b) && EndsWith(b, c)
    ensures EndsWith(a, c)
  {
    assert a[|a| - |c|..] == b[|b| - |c|..];
  }

  /** `p in s` for strings: `p` occurs as a contiguous substring. */
  predicate Contains(s: string, p: string)
    decreases |s|
  {
    StartsWith(s, p) || (s != [] && Contains(s[1..], p))
  }

  /** `s.replace(p, "")`: deletes, left to right, each occurrence of `p` that
      does not overlap one already deleted. It is a single pass, so pieces
      on both sides of a deleted occurrence can join into a new one. */
  function RemoveAll(s: string, p: string): (r: string)
    requires p != []
    ensures |r| <= |s|
    ensures !Contains(s, p) ==> r == s
    decreases |s|
  {
    if |s| < |p| then s
    else if StartsWith(s, p) then RemoveAll(s[|p|..], p)
    else [s[0]] + RemoveAll(s[1..], p)
  }

  /** No match at the start: the first character is kept. */
  lemma RemoveAllHead(s: string, p: string)
    requires p != [] && |p| <= |s| && !StartsWith(s, p)
    ensures RemoveAll(s, p) == [s[0]] + RemoveAll(s[1..], p)
  {
  }

  /** A match at the start is dropped. */
  lemma RemoveAllLead(p: string, t: string)
    requires p != []
    ensures RemoveAll(p + t, p) == RemoveAll(t, p)
  {
    assert (p + t)[..|p|] == p;
    assert (p + t)[|p|..] == t;
  }

  /** A stretch in which the pattern's first character never occurs is
      copied through unchanged. */
  lemma {:induction false} RemoveAllSkips(s: string, t: string, p: string)
    requires p != [] && forall k :: 0 <= k < |s| ==> s[k] != p[0]
    ensures RemoveAll(s + t, p) == s + RemoveAll(t, p)
    decreases |s|
  {
    var st := s + t;
    if s == [] {
      assert st == t;
    } else if |st| < |p| {
      assert RemoveAll(st, p) == st;
      assert RemoveAll(t, p) == t;
    } else {
      assert !StartsWith(st, p) by {
        assert st[0] == s[0] != p[0];
        assert st[..|p|][0] == st[0];
      }
      RemoveAllHeadOfConcat(s, t, p);
      RemoveAllSkips(s[1..], t, p);
      assert s == [s[0]] + s[1..];
      ConsChain(RemoveAll(st, p), RemoveAll(s[1..] + t, p), s, s[0], s[1..], RemoveAll(t, p));
    }
  }

  /** No occurrence of `p` in `s + t` starts inside `s` and ends inside `t`. */
  predicate NoStraddle(s: string, t: string, p: string) {
    forall i :: 0 <= i < |s| && |s| < i + |p| ==> !StartsWith((s + t)[i..], p)
  }

  /** When no occurrence straddles the seam, `replace` works on each side
      separately. */
  lemma {:induction false} RemoveAllConcat(s: string, t: string, p: string)
    requires p != [] && NoStraddle(s, t, p)
    ensures RemoveAll(s + t, p) == RemoveAll(s, p) + RemoveAll(t, p)
    decreases |s|
  {
    var st := s + t;
    if s == [] {
      assert st == t;
    } else if |st| < |p| {
      assert RemoveAll(s, p) == s && RemoveAll(t, p) == t;
    } else if StartsWith(st, p) {
      assert st[0..] == st;
      assert |p| <= |s|;
      NoStraddleShift(s, t, p, |p|);
      RemoveAllConcat(s[|p|..], t, p);
      RemoveAllConcatMatch(s, t, p);
    } else {
      NoStraddleShift(s, t, p, 1);
      RemoveAllConcat(s[1..], t, p);
      RemoveAllConcatSkip(s, t, p);
    }
  }

  /** The step of `RemoveAllConcat` where `p` matches at the start. */
  lemma RemoveAllConcatMatch(s: string, t: string, p: string)
    requires p != [] && |p| <= |s| && StartsWith(s + t, p)
    requires RemoveAll(s[|p|..] + t, p) == RemoveAll(s[|p|..], p) + RemoveAll(t, p)
    ensures RemoveAll(s + t, p) == RemoveAll(s, p) + RemoveAll(t, p)
  {
    RemoveAllMatchOfConcat(s, t, p);
  }

  /** A match at the start of `s + t` lies inside `s` and is dropped from both. */
  lemma RemoveAllMatchOfConcat(s: string, t: string, p: string)
    requires p != [] && |p| <= |s| && StartsWith(s + t, p)
    ensures RemoveAll(s + t, p) == RemoveAll(s[|p|..] + t, p)
    ensures RemoveAll(s, p) == RemoveAll(s[|p|..], p)
  {
    var st := s + t;
    assert st[|p|..] == s[|p|..] + t;
    assert s[..|p|] == st[..|p|];
  }

  /** The step of `RemoveAllConcat` where the first character is kept. */
  lemma RemoveAllConcatSkip(s: string, t: string, p: string)
    requires p != [] && s != [] && |p| <= |s + t| && !StartsWith(s + t, p)
    requires RemoveAll(s[1..] + t, p) == RemoveAll(s[1..], p) + RemoveAll(t, p)
    ensures RemoveAll(s + t, p) == RemoveAll(s, p) + RemoveAll(t, p)
  {
    var a, b := RemoveAll(s[1..], p), RemoveAll(t, p);
    RemoveAllHeadOfConcat(s, t, p);
    RemoveAllKeepsFirst(s, t, p);
    ConsChain(RemoveAll(s + t, p), RemoveAll(s[1..] + t, p), RemoveAll(s, p), s[0], a, b);
  }

  lemma ConsChain(x: string, y: string, z: string, c: char, a: string, b: string)
    requires x == [c] + y && y == a + b && z == [c] + a
    ensures x == z + b
  {
  }

  /** With no match at the start of `s + t`, its first character, which is
      `s`'s, is kept. */
  lemma RemoveAllHeadOfConcat(s: string, t: string, p: string)
    requires p != [] && s != [] && |p| <= |s + t| && !StartsWith(s + t, p)
    ensures RemoveAll(s + t, p) == [s[0]] + RemoveAll(s[1..] + t, p)
  {
    var st := s + t;
    RemoveAllHead(st, p);
    assert st[0] == s[0];
    assert st[1..] == s[1..] + t;
  }

  /** Dropping the first `d` characters of `s` keeps the seam clear. */
  lemma NoStraddleShift(s: string, t: string, p: string, d: nat)
    requires d <= |s| && NoStraddle(s, t, p)
    ensures NoStraddle(s[d..], t, p)
  {
    forall i | 0 <= i < |s| - d && |s| - d < i + |p| ensures !StartsWith((s[d..] + t)[i..], p) {
      assert (s[d..] + t)[i..] == (s + t)[i + d..];
    }
  }

  /** When `s + t` does not start with `p`, neither does `s`, so `s`'s first
      character is kept. */
  lemma RemoveAllKeepsFirst(s: string, t: string, p: string)
    requires p != [] && s != [] && |p| <= |s + t| && !StartsWith(s + t, p)
    ensures RemoveAll(s, p) == [s[0]] + RemoveAll(s[1..], p)
  {
    if |p| <= |s| {
      assert s[..|p|] == (s + t)[..|p|];
      RemoveAllHead(s, p);
    } else {
      assert s == [s[0]] + s[1..];
    }
  }

  /** An occurrence of `p` cannot straddle the seam when the first character
      after it occurs nowhere in `p` but at its start. */
  lemma NoStraddleByHead(s: string, t: string, p: string)
    requires t != [] && forall m :: 1 <= m < |p| ==> p[m] != t[0]
    ensures NoStraddle(s, t, p)
  {
    forall i | 0 <= i < |s| && |s| < i + |p| ensures !StartsWith((s + t)[i..], p) {
      var x := (s + t)[i..];
      var m := |s| - i;
      if |p| <= |x| {
        assert x[..|p|][m] == t[0];
      }
    }
  }

  function UpperChar(c: char): char {
    if 'a' <= c <= 'z' then (c as int - 32) as char else c
  }

  function LowerChar(c: char): char {
    if 'A' <= c <= 'Z' then (c as int + 32) as char else c
  }

  /** `s.upper()` on ASCII letters. */
  function Upper(s: string): (r: string)
    ensures |r| == |s| && forall i :: 0 <= i < |s| ==> r[i] == UpperChar(s[i])
  {
    seq(|s|, i requires 0 <= i < |s| => UpperChar(s[i]))
  }

  /** `s.lower()` on ASCII letters. */
  function Lower(s: string): (r: string)
    ensures |r| == |s| && forall i :: 0 <= i < |s| ==> r[i] == LowerChar(s[i])
  {
    seq(|s|, i requires 0 <= i < |s| => LowerChar(s[i]))
  }

  /** `sep.join(parts)` */
  function Join(parts: seq<string>, sep: string): string
    decreases |parts|
  {
    if parts == [] then ""
    else if |parts| == 1 then parts[0]
    else parts[0] + sep + Join(parts[1..], sep)
  }

  function DigitChar(d: nat): char
    requires d < 10
  {
    ('0' as int + d) as char
  }

  /** `str(n)` for a natural number: its decimal digits. */
  function Decimal(n: nat): (r: string)
    ensures r != [] && forall i :: 0 <= i < |r| ==> '0' <= r[i] <= '9'
  {
    if n < 10 then [DigitChar(n)] else Decimal(n / 10) + [DigitChar(n % 10)]
  }
}
