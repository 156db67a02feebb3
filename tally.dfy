/** `collections.Counter` over strings, as the font statistics use it: keys
    in first-insertion order, each with a positive count. */
module Tallies {
  import opened Collections

  type Tally = seq<Counted<string>>

  function Keys(t: Tally): (ks: seq<string>)
    ensures |ks| == |t| && forall k :: 0 <= k < |t| ==> ks[k] == t[k].item
  {
    seq(|t|, k requires 0 <= k < |t| => t[k].item)
  }

  predicate ValidTally(t: Tally) {
    Distinct(Keys(t)) && forall k :: 0 <= k < |t| ==> t[k].count > 0
  }

  /** `counter[x]`: 0 for a key that is absent. */
  function CountOf(t: Tally, x: string): nat
    decreases |t|
  {
    if t == [] then 0
    else (if t[0].item == x then t[0].count else 0) + CountOf(t[1..], x)
  }

  /** `counter[x] += n`: an existing key keeps its place, a new one goes last. */
  function Bump(t: Tally, x: string, n: nat): (r: Tally)
    ensures Keys(r) == Keys(t) + (if x in Keys(t) then [] else [x])
    decreases |t|
  {
    if t == [] then [Counted(n, x)]
    else if t[0].item == x then [Counted(t[0].count + n, x)] + t[1..]
    else
      var rest := Bump(t[1..], x, n);
      assert Keys(t) == [t[0].item] + Keys(t[1..]);
      assert Keys([t[0]] + rest) == [t[0].item] + Keys(rest);
      [t[0]] + rest
  }

  lemma {:induction false} BumpCount(t: Tally, x: string, n: nat, y: string)
    ensures CountOf(Bump(t, x, n), y) == CountOf(t, y) + (if x == y then n else 0)
    decreases |t|
  {
    if t != [] && t[0].item != x {
      var r := Bump(t, x, n);
      assert r[1..] == Bump(t[1..], x, n);
      BumpCount(t[1..], x, n, y);
    }
  }

  lemma {:induction false} BumpValid(t: Tally, x: string, n: nat)
    requires ValidTally(t) && n > 0
    ensures ValidTally(Bump(t, x, n))
    decreases |t|
  {
    if t != [] && t[0].item != x {
      var r := Bump(t, x, n);
      assert Keys(t[1..]) == Keys(t)[1..];
      BumpValid(t[1..], x, n);
      assert r == [t[0]] + Bump(t[1..], x, n);
    }
  }

  /** The counter that counting `names` one by one builds. */
  function TallyOf(names: seq<string>): (t: Tally)
    decreases |names|
  {
    if names == [] then []
    else Bump(TallyOf(names[..|names| - 1]), names[|names| - 1], 1)
  }

  /** Its keys are the names in first-seen order, each with as many as it
      occurs. */
  lemma {:induction false} TallyOfSpec(names: seq<string>)
    ensures ValidTally(TallyOf(names))
    ensures Keys(TallyOf(names)) == Dedup(names)
    ensures forall x :: CountOf(TallyOf(names), x) == multiset(names)[x]
    decreases |names|
  {
    if names != [] {
      var init, last := names[..|names| - 1], names[|names| - 1];
      TallyOfSpec(init);
      assert names == init + [last];
      BumpValid(TallyOf(init), last, 1);
      DedupSnoc(init, last);
      forall x ensures CountOf(TallyOf(names), x) == multiset(names)[x] {
        BumpCount(TallyOf(init), last, 1, x);
      }
    }
  }

  /** `counter.update(other)` with another counter: its entries are added in
      its own key order. */
  function Merge(t: Tally, u: Tally): (r: Tally)
    decreases |u|
  {
    if u == [] then t
    else
      var last := u[|u| - 1];
      Bump(Merge(t, u[..|u| - 1]), last.item, last.count)
  }

  lemma {:induction false} MergeCount(t: Tally, u: Tally, x: string)
    ensures CountOf(Merge(t, u), x) == CountOf(t, x) + CountOf(u, x)
    decreases |u|
  {
    if u != [] {
      var init, last := u[..|u| - 1], u[|u| - 1];
      MergeCount(t, init, x);
      BumpCount(Merge(t, init), last.item, last.count, x);
      CountOfSnoc(init, last, x);
      assert u == init + [last];
    }
  }

  lemma {:induction false} CountOfSnoc(t: Tally, e: Counted<string>, x: string)
    ensures CountOf(t + [e], x) == CountOf(t, x) + (if e.item == x then e.count else 0)
    decreases |t|
  {
    if t != [] {
      assert (t + [e])[1..] == t[1..] + [e];
      CountOfSnoc(t[1..], e, x);
    }
  }

  /** For a valid tally the count of a key is the count stored with it. */
  lemma {:induction false} CountOfEntry(t: Tally, k: nat)
    requires ValidTally(t) && k < |t|
    ensures CountOf(t, t[k].item) == t[k].count
    decreases |t|
  {
    if k == 0 {
      CountOfAbsent(t[1..], t[0].item);
    } else {
      assert Keys(t[1..]) == Keys(t)[1..];
      CountOfEntry(t[1..], k - 1);
    }
  }

  lemma {:induction false} CountOfAbsent(t: Tally, x: string)
    requires x !in Keys(t)
    ensures CountOf(t, x) == 0
    decreases |t|
  {
    if t != [] {
      assert Keys(t[1..]) == Keys(t)[1..];
      CountOfAbsent(t[1..], x);
    }
  }

  /** Two valid tallies with the same keys in the same order and the same
      counts are equal. */
  lemma TallyExtensional(t: Tally, u: Tally)
    requires ValidTally(t) && ValidTally(u) && Keys(t) == Keys(u)
    requires forall x :: CountOf(t, x) == CountOf(u, x)
    ensures t == u
  {
    forall k | 0 <= k < |t| ensures t[k] == u[k] {
      CountOfEntry(t, k);
      CountOfEntry(u, k);
      assert t[k].item == Keys(t)[k] == u[k].item;
    }
  }

  lemma {:induction false} MergeKeys(t: Tally, u: Tally)
    requires Distinct(Keys(u))
    ensures Keys(Merge(t, u)) == Keys(t) + Without(Keys(u), Elems(Keys(t)))
    decreases |u|
  {
    if u != [] {
      var init, last := u[..|u| - 1], u[|u| - 1];
      assert Keys(u) == Keys(init) + [last.item];
      assert Distinct(Keys(init));
      MergeKeys(t, init);
      WithoutSnoc(Keys(init), last.item, Elems(Keys(t)));
      assert last.item !in Keys(init);
    }
  }

  lemma {:induction false} MergeValid(t: Tally, u: Tally)
    requires ValidTally(t) && ValidTally(u)
    ensures ValidTally(Merge(t, u))
    decreases |u|
  {
    if u != [] {
      var init := u[..|u| - 1];
      assert Keys(init) == Keys(u)[..|u| - 1];
      MergeValid(t, init);
      BumpValid(Merge(t, init), u[|u| - 1].item, u[|u| - 1].count);
    }
  }

  /** Updating the counter of `a` with the counter of `b` gives the counter
      of `a + b`: counts add up and keys keep their first-seen order. */
  lemma MergeTallies(a: seq<string>, b: seq<string>)
    ensures Merge(TallyOf(a), TallyOf(b)) == TallyOf(a + b)
  {
    var m := Merge(TallyOf(a), TallyOf(b));
    assert ValidTally(m) by {
      TallyOfSpec(a);
      TallyOfSpec(b);
      MergeValid(TallyOf(a), TallyOf(b));
    }
    assert ValidTally(TallyOf(a + b)) by {
      TallyOfSpec(a + b);
    }
    MergeTalliesKeys(a, b);
    MergeTalliesCounts(a, b);
    TallyExtensional(m, TallyOf(a + b));
  }

  lemma MergeTalliesKeys(a: seq<string>, b: seq<string>)
    ensures Keys(Merge(TallyOf(a), TallyOf(b))) == Keys(TallyOf(a + b))
  {
    TallyOfSpec(a);
    TallyOfSpec(b);
    TallyOfSpec(a + b);
    assert Elems(Keys(TallyOf(a))) == Elems(a);
    calc {
      Keys(Merge(TallyOf(a), TallyOf(b)));
      { MergeKeys(TallyOf(a), TallyOf(b)); }
      Dedup(a) + Without(Dedup(b), Elems(a));
      { DedupWithout(b, Elems(a)); }
      Dedup(a) + Dedup(Without(b, Elems(a)));
      { DedupAppend(a, b); }
      Dedup(a + b);
    }
  }

  lemma MergeTalliesCounts(a: seq<string>, b: seq<string>)
    ensures forall x :: CountOf(Merge(TallyOf(a), TallyOf(b)), x) == CountOf(TallyOf(a + b), x)
  {
    TallyOfSpec(a);
    TallyOfSpec(b);
    TallyOfSpec(a + b);
    forall x ensures CountOf(Merge(TallyOf(a), TallyOf(b)), x) == CountOf(TallyOf(a + b), x) {
      MergeCount(TallyOf(a), TallyOf(b), x);
    }
  }

  /** `[k for k, _ in counter.most_common(n)]`: highest counts first, equal
      counts in key order. */
  function MostCommon(t: Tally, n: int): seq<string> {
    Keys(Prefix(SortByCount(t), n))
  }

  /** `most_common(n)` lists `n` keys, or every key when there are fewer. */
  lemma MostCommonLength(t: Tally, n: nat)
    ensures |MostCommon(t, n)| == if n <= |t| then n else |t|
  {
    var s := SortByCount(t);
    assert |s| == |multiset(s)| == |multiset(t)| == |t|;
  }

  /** At most `n` keys, no repeats, each a key of the counter, in
      non-increasing count. */
  lemma MostCommonSpec(t: Tally, n: nat)
    requires ValidTally(t)
    ensures var r := MostCommon(t, n);
            |r| <= n && Distinct(r) &&
            (forall x :: x in r ==> x in Keys(t)) &&
            (forall i, j :: 0 <= i < j < |r| ==> CountOf(t, r[i]) >= CountOf(t, r[j]))
  {
    var s := SortByCount(t);
    var r := MostCommon(t, n);
    SortedTallyValid(t, s);
    forall i | 0 <= i < |r| ensures r[i] in Keys(t) && CountOf(t, r[i]) == s[i].count {
      assert r[i] == s[i].item;
      EntryOfSorted(t, s, i);
    }
    forall i, j | 0 <= i < j < |r| ensures r[i] != r[j] {
      assert r[i] == Keys(s)[i] && r[j] == Keys(s)[j];
    }
  }

  /** Every key left out has a count no higher than any key kept. */
  lemma MostCommonDominates(t: Tally, n: nat, x: string, i: nat)
    requires ValidTally(t) && x in Keys(t) && x !in MostCommon(t, n) && i < |MostCommon(t, n)|
    ensures CountOf(t, x) <= CountOf(t, MostCommon(t, n)[i])
  {
    var s := SortByCount(t);
    var r := MostCommon(t, n);
    var j := KeyIndex(t, s, x);
    assert r[i] == s[i].item;
    EntryOfSorted(t, s, i);
  }

  /** Among keys with the same count, the ones kept are the first in key
      order: `most_common` breaks ties by first insertion. */
  lemma MostCommonTies(t: Tally, n: nat, c: nat)
    ensures var w := WithCount(Prefix(SortByCount(t), n), c);
            var all := WithCount(t, c);
            |w| <= |all| && all[..|w|] == w
  {
    var s := SortByCount(t);
    var top := Prefix(s, n);
    assert top == s[..|top|];
    WithCountPrefix(s, |top|, c);
    SortByCountStable(t, c);
  }

  /** A sorted copy of a valid tally is a valid tally with the same counts. */
  lemma SortedTallyValid(t: Tally, s: Tally)
    requires ValidTally(t) && multiset(s) == multiset(t)
    ensures forall k :: 0 <= k < |s| ==> s[k] in t
    ensures Distinct(Keys(s))
  {
    forall k | 0 <= k < |s| ensures s[k] in t {
      assert s[k] in multiset(s);
    }
    forall i, j | 0 <= i < j < |s| ensures Keys(s)[i] != Keys(s)[j] {
      if s[i].item == s[j].item {
        var a :| 0 <= a < |t| && t[a] == s[i];
        var b :| 0 <= b < |t| && t[b] == s[j];
        assert Keys(t)[a] == Keys(t)[b];
        assert a == b;
        assert multiset(s)[s[i]] >= 2 by {
          assert s[i] == s[j];
          MultisetTwice(s, i, j);
        }
        MultisetOnce(t, a);
      }
    }
  }

  lemma MultisetTwice<T>(s: seq<T>, i: nat, j: nat)
    requires i < j < |s| && s[i] == s[j]
    ensures multiset(s)[s[i]] >= 2
  {
    assert s == s[..i] + [s[i]] + s[i + 1..j] + [s[j]] + s[j + 1..];
  }

  lemma MultisetOnce(t: Tally, a: nat)
    requires ValidTally(t) && a < |t|
    ensures multiset(t)[t[a]] == 1
  {
    assert t == t[..a] + [t[a]] + t[a + 1..];
    forall k | 0 <= k < |t| && k != a ensures t[k] != t[a] {
      assert Keys(t)[k] != Keys(t)[a];
    }
  }

  lemma EntryOfSorted(t: Tally, s: Tally, i: nat)
    requires ValidTally(t) && multiset(s) == multiset(t) && i < |s|
    ensures s[i].item in Keys(t) && CountOf(t, s[i].item) == s[i].count
  {
    assert s[i] in multiset(t);
    var a :| 0 <= a < |t| && t[a] == s[i];
    assert Keys(t)[a] == s[i].item;
    CountOfEntry(t, a);
  }

  /** Where a key of a valid tally sits in a sorted copy. */
  lemma KeyIndex(t: Tally, s: Tally, x: string) returns (j: nat)
    requires ValidTally(t) && multiset(s) == multiset(t) && ByCountDesc(s)
    requires x in Keys(t)
    ensures j < |s| && s[j].item == x && CountOf(t, x) == s[j].count
    ensures forall i :: 0 <= i < j ==> s[i].count >= s[j].count
  {
    var a :| 0 <= a < |t| && Keys(t)[a] == x;
    assert t[a] in multiset(s);
    j :| 0 <= j < |s| && s[j] == t[a];
    CountOfEntry(t, a);
  }
}
