/** Sequence helpers that mirror the list idioms the brand engine uses:
    order-preserving deduplication through a `seen` set, Python slicing
    `xs[:n]`, and a stable sort by a count, descending. */
module Collections {

  predicate Distinct<T(==)>(xs: seq<T>) {
    forall i, j :: 0 <= i < j < |xs| ==> xs[i] != xs[j]
  }

  function Elems<T>(xs: seq<T>): set<T> {
    set x | x in xs
  }

  /** Python's `xs[:n]`, including the meaning of a negative `n`
      (everything but the last `-n` elements). */
  function Prefix<T>(xs: seq<T>, n: int): (r: seq<T>)
    ensures n >= 0 ==> |r| == if n <= |xs| then n else |xs|
    ensures n < 0 ==> |r| == if |xs| + n >= 0 then |xs| + n else 0
    ensures r == xs[..|r|]
  {
    if n >= 0 then (if n <= |xs| then xs[..n] else xs)
    else if |xs| + n >= 0 then xs[..|xs| + n]
    else []
  }

  /** The list the loop
        seen = set(); out = []
        for x in xs: if x not in seen: seen.add(x); out.append(x)
      builds: every element at its first occurrence. */
  function Dedup<T(==,!new)>(xs: seq<T>): (r: seq<T>)
    ensures Distinct(r)
    ensures forall x :: x in r <==> x in xs
    ensures |r| <= |xs|
    decreases |xs|
  {
    if xs == [] then []
    else
      var d := Dedup(xs[..|xs| - 1]);
      assert xs == xs[..|xs| - 1] + [xs[|xs| - 1]];
      if xs[|xs| - 1] in d then d else d + [xs[|xs| - 1]]
  }

  /** For each element of `Dedup(xs)`, the position in `xs` it was taken from. */
  function DedupIndices<T(==,!new)>(xs: seq<T>): (idx: seq<nat>)
    ensures |idx| == |Dedup(xs)|
    ensures forall k :: 0 <= k < |idx| ==> idx[k] < |xs| && Dedup(xs)[k] == xs[idx[k]]
    ensures forall k, l :: 0 <= k < l < |idx| ==> idx[k] < idx[l]
    decreases |xs|
  {
    if xs == [] then []
    else
      var init := xs[..|xs| - 1];
      var d := DedupIndices(init);
      assert forall k :: 0 <= k < |d| ==> d[k] < |init| && xs[d[k]] == init[d[k]];
      if xs[|xs| - 1] in Dedup(init) then d
      else
        assert Dedup(xs) == Dedup(init) + [xs[|xs| - 1]];
        d + [|xs| - 1]
  }

  /** `[x for x in xs if x not in s]`. */
  function Without<T(==,!new)>(xs: seq<T>, s: set<T>): (r: seq<T>)
    ensures forall x :: x in r <==> x in xs && x !in s
    decreases |xs|
  {
    if xs == [] then []
    else
      assert xs == xs[..|xs| - 1] + [xs[|xs| - 1]];
      Without(xs[..|xs| - 1], s) + (if xs[|xs| - 1] in s then [] else [xs[|xs| - 1]])
  }

  lemma {:induction false} WithoutDistinct<T(!new)>(xs: seq<T>, s: set<T>)
    requires Distinct(xs)
    ensures Distinct(Without(xs, s))
    decreases |xs|
  {
    if xs != [] {
      WithoutDistinct(xs[..|xs| - 1], s);
    }
  }

  /** Deduplicating a list that has no duplicates changes nothing. */
  lemma {:induction false} DedupOfDistinct<T(!new)>(xs: seq<T>)
    requires Distinct(xs)
    ensures Dedup(xs) == xs
    decreases |xs|
  {
    if xs != [] {
      DedupOfDistinct(xs[..|xs| - 1]);
    }
  }

  lemma DedupSnoc<T(!new)>(xs: seq<T>, x: T)
    ensures Dedup(xs + [x]) == if x in xs then Dedup(xs) else Dedup(xs) + [x]
  {
    var ys := xs + [x];
    assert ys[..|ys| - 1] == xs && ys[|ys| - 1] == x;
  }

  lemma WithoutSnoc<T(!new)>(xs: seq<T>, x: T, s: set<T>)
    ensures Without(xs + [x], s) == Without(xs, s) + (if x in s then [] else [x])
  {
    var ys := xs + [x];
    assert ys[..|ys| - 1] == xs && ys[|ys| - 1] == x;
  }

  /** One step of a loop that keeps a `seen` set beside its output. */
  lemma DedupStep<T(!new)>(xs: seq<T>, i: nat, deduped: seq<T>, seen: set<T>)
    requires i < |xs| && deduped == Dedup(xs[..i]) && seen == Elems(deduped)
    ensures xs[i] in seen <==> xs[i] in xs[..i]
    ensures Dedup(xs[..i + 1]) == if xs[i] in seen then deduped else deduped + [xs[i]]
    ensures Elems(deduped + [xs[i]]) == seen + {xs[i]}
  {
    assert xs[..i + 1] == xs[..i] + [xs[i]];
    DedupSnoc(xs[..i], xs[i]);
  }

  /** Deduplicating a concatenation: the first part's first occurrences, then
      those of the second part's elements that the first part lacks. */
  lemma {:induction false} DedupAppend<T(!new)>(a: seq<T>, b: seq<T>)
    ensures Dedup(a + b) == Dedup(a) + Dedup(Without(b, Elems(a)))
    decreases |b|
  {
    if b == [] {
      assert a + b == a;
    } else {
      var b', x := b[..|b| - 1], b[|b| - 1];
      assert b == b' + [x];
      assert a + b == (a + b') + [x];
      DedupAppend(a, b');
      DedupAppendStep(a, b', x);
    }
  }

  lemma DedupAppendStep<T(!new)>(a: seq<T>, b: seq<T>, x: T)
    requires Dedup(a + b) == Dedup(a) + Dedup(Without(b, Elems(a)))
    ensures Dedup((a + b) + [x]) == Dedup(a) + Dedup(Without(b + [x], Elems(a)))
  {
    DedupSnoc(a + b, x);
    WithoutSnoc(b, x, Elems(a));
    var w := Without(b, Elems(a));
    if x in a {
      assert x in a + b && x in Elems(a);
      assert Dedup((a + b) + [x]) == Dedup(a + b);
      assert Without(b + [x], Elems(a)) == w;
    } else if x in b {
      assert x in a + b && x !in Elems(a);
      assert Dedup((a + b) + [x]) == Dedup(a + b);
      assert Without(b + [x], Elems(a)) == w + [x];
      DedupAppendRepeat(a, b, x);
    } else {
      assert x !in a + b && x !in Elems(a);
      assert Dedup((a + b) + [x]) == Dedup(a + b) + [x];
      assert Without(b + [x], Elems(a)) == w + [x];
      DedupAppendFresh(a, b, x);
    }
  }

  lemma DedupAppendRepeat<T(!new)>(a: seq<T>, b: seq<T>, x: T)
    requires x !in a && x in b
    requires Dedup(a + b) == Dedup(a) + Dedup(Without(b, Elems(a)))
    ensures Dedup(Without(b, Elems(a)) + [x]) == Dedup(Without(b, Elems(a)))
  {
    var w := Without(b, Elems(a));
    assert x in w;
    DedupSnoc(w, x);
  }

  lemma DedupAppendFresh<T(!new)>(a: seq<T>, b: seq<T>, x: T)
    requires x !in a && x !in b
    requires Dedup(a + b) == Dedup(a) + Dedup(Without(b, Elems(a)))
    ensures Dedup(a + b) + [x] == Dedup(a) + Dedup(Without(b, Elems(a)) + [x])
  {
    var w := Without(b, Elems(a));
    DedupSnoc(w, x);
    SeqAppendAssoc(Dedup(a), Dedup(w), [x]);
  }

  lemma SeqAppendAssoc<T>(x: seq<T>, y: seq<T>, z: seq<T>)
    ensures (x + y) + z == x + (y + z)
  {
  }

  /** A list with no duplicates has as many elements as its set. */
  lemma {:induction false} DistinctCardinality<T>(xs: seq<T>)
    requires Distinct(xs)
    ensures |Elems(xs)| == |xs|
    decreases |xs|
  {
    if xs != [] {
      var init := xs[..|xs| - 1];
      DistinctCardinality(init);
      assert Elems(xs) == Elems(init) + {xs[|xs| - 1]};
      assert xs[|xs| - 1] !in Elems(init);
    }
  }

  /** Filtering and deduplicating commute. */
  lemma {:induction false} DedupWithout<T(!new)>(xs: seq<T>, s: set<T>)
    ensures Dedup(Without(xs, s)) == Without(Dedup(xs), s)
    decreases |xs|
  {
    if xs != [] {
      var init, x := xs[..|xs| - 1], xs[|xs| - 1];
      assert xs == init + [x];
      DedupWithout(init, s);
      WithoutSnoc(init, x, s);
      DedupSnoc(init, x);
      if x in s {
        assert Without(init, s) + [] == Without(init, s);
      } else {
        DedupSnoc(Without(init, s), x);
        WithoutSnoc(Dedup(init), x, s);
      }
    }
  }

  /** The lists one after another. */
  function Flatten<T>(xss: seq<seq<T>>): (r: seq<T>)
    ensures |xss| == 1 ==> r == xss[0]
    decreases |xss|
  {
    if xss == [] then [] else Flatten(xss[..|xss| - 1]) + xss[|xss| - 1]
  }

  lemma FlattenSnoc<T>(xss: seq<seq<T>>, xs: seq<T>)
    ensures Flatten(xss + [xs]) == Flatten(xss) + xs
  {
    assert (xss + [xs])[..|xss|] == xss;
  }

  /** The union of `f(x)` over the elements of `xs`. */
  function Unions<T, U>(f: T -> set<U>, xs: seq<T>): set<U>
    decreases |xs|
  {
    if xs == [] then {} else Unions(f, xs[..|xs| - 1]) + f(xs[|xs| - 1])
  }

  lemma UnionsStep<T, U>(f: T -> set<U>, xs: seq<T>, i: nat)
    requires i < |xs|
    ensures Unions(f, xs[..i + 1]) == Unions(f, xs[..i]) + f(xs[i])
  {
    assert xs[..i + 1][..i] == xs[..i];
  }

  lemma {:induction false} UnionsAppend<T, U>(f: T -> set<U>, a: seq<T>, b: seq<T>)
    ensures Unions(f, a + b) == Unions(f, a) + Unions(f, b)
    decreases |b|
  {
    if b == [] {
      assert a + b == a;
    } else {
      var init := b[..|b| - 1];
      assert (a + b)[..|a + b| - 1] == a + init;
      UnionsAppend(f, a, init);
    }
  }

  lemma {:induction false} UnionsMembers<T, U>(f: T -> set<U>, xs: seq<T>, y: U)
    ensures y in Unions(f, xs) <==> exists k :: 0 <= k < |xs| && y in f(xs[k])
    decreases |xs|
  {
    if xs != [] {
      var init := xs[..|xs| - 1];
      UnionsMembers(f, init, y);
      assert forall k :: 0 <= k < |init| ==> init[k] == xs[k];
    }
  }

  /** `m[k] = v` for each pair in turn; a later write to a key wins. */
  function Store<K, V>(m: map<K, V>, writes: seq<(K, V)>): map<K, V>
    decreases |writes|
  {
    if writes == [] then m
    else
      var w := writes[|writes| - 1];
      Store(m, writes[..|writes| - 1])[w.0 := w.1]
  }

  lemma StoreSnoc<K, V>(m: map<K, V>, writes: seq<(K, V)>, w: (K, V))
    ensures Store(m, writes + [w]) == Store(m, writes)[w.0 := w.1]
  {
    assert (writes + [w])[..|writes|] == writes;
  }

  /** Writing only adds keys. */
  lemma {:induction false} StoreKeys<K, V>(m: map<K, V>, writes: seq<(K, V)>)
    ensures forall k :: k in m ==> k in Store(m, writes)
    decreases |writes|
  {
    if writes != [] {
      StoreKeys(m, writes[..|writes| - 1]);
    }
  }

  /** Deduplicating a list that contains every element of a duplicate-free
      `ys` leaves at least `|ys|` elements. */
  lemma DedupCovers<T(!new)>(xs: seq<T>, ys: seq<T>)
    requires Distinct(ys) && forall y :: y in ys ==> y in xs
    ensures |Dedup(xs)| >= |ys|
  {
    var d := Dedup(xs);
    DistinctCardinality(ys);
    DistinctCardinality(d);
    assert Elems(d) == Elems(ys) + (Elems(d) - Elems(ys));
  }

  /** A count paired with what was counted: an entry of PIL's `getcolors()`
      (count first) or of a `Counter` (count second in Python). */
  datatype Counted<T> = Counted(count: nat, item: T)

  predicate ByCountDesc<T>(xs: seq<Counted<T>>) {
    forall i, j :: 0 <= i < j < |xs| ==> xs[i].count >= xs[j].count
  }

  /** Inserts `x` before the first entry whose count it reaches, so that an
      entry taken earlier from the input stays ahead of later equal ones. */
  function InsertByCount<T(==)>(x: Counted<T>, s: seq<Counted<T>>): (r: seq<Counted<T>>)
    ensures multiset(r) == multiset(s) + multiset{x}
    decreases |s|
  {
    if s == [] || x.count >= s[0].count then [x] + s
    else
      assert s == [s[0]] + s[1..];
      [s[0]] + InsertByCount(x, s[1..])
  }

  lemma {:induction false} InsertByCountSorted<T>(x: Counted<T>, s: seq<Counted<T>>)
    requires ByCountDesc(s)
    ensures ByCountDesc(InsertByCount(x, s))
    decreases |s|
  {
    if s != [] && x.count < s[0].count {
      var rest := InsertByCount(x, s[1..]);
      InsertByCountSorted(x, s[1..]);
      forall j | 0 <= j < |rest| ensures rest[j].count <= s[0].count {
        assert rest[j] in multiset(rest);
        assert rest[j] == x || rest[j] in multiset(s[1..]);
      }
    }
  }

  /** Python's stable `sorted(xs, key=count, reverse=True)`, which is also
      what `list.sort(key=..., reverse=True)` and `Counter.most_common`
      compute: by count, highest first, equal counts in input order. */
  function SortByCount<T(==)>(xs: seq<Counted<T>>): (r: seq<Counted<T>>)
    ensures ByCountDesc(r)
    ensures multiset(r) == multiset(xs)
    decreases |xs|
  {
    if xs == [] then []
    else
      assert xs == [xs[0]] + xs[1..];
      var rest := SortByCount(xs[1..]);
      InsertByCountSorted(xs[0], rest);
      InsertByCount(xs[0], rest)
  }

  /** The entries of `xs` with count `c`, in order. */
  function WithCount<T>(xs: seq<Counted<T>>, c: nat): seq<Counted<T>>
    decreases |xs|
  {
    if xs == [] then []
    else (if xs[0].count == c then [xs[0]] else []) + WithCount(xs[1..], c)
  }

  /** Filtering a prefix gives a prefix of the filtered list. */
  lemma {:induction false} WithCountPrefix<T>(xs: seq<Counted<T>>, m: nat, c: nat)
    requires m <= |xs|
    ensures var w := WithCount(xs[..m], c);
            |w| <= |WithCount(xs, c)| && WithCount(xs, c)[..|w|] == w
    decreases m
  {
    if m > 0 {
      assert xs[..m][0] == xs[0] && xs[..m][1..] == xs[1..][..m - 1];
      WithCountPrefix(xs[1..], m - 1, c);
    }
  }

  lemma {:induction false} InsertByCountWithCount<T>(x: Counted<T>, s: seq<Counted<T>>, c: nat)
    ensures WithCount(InsertByCount(x, s), c) == (if x.count == c then [x] else []) + WithCount(s, c)
    decreases |s|
  {
    if s == [] || x.count >= s[0].count {
      assert ([x] + s)[1..] == s;
    } else {
      var rest := InsertByCount(x, s[1..]);
      InsertByCountWithCount(x, s[1..], c);
      assert ([s[0]] + rest)[1..] == rest;
    }
  }

  /** The sort is stable: entries with equal counts keep their input order. */
  lemma {:induction false} SortByCountStable<T>(xs: seq<Counted<T>>, c: nat)
    ensures WithCount(SortByCount(xs), c) == WithCount(xs, c)
    decreases |xs|
  {
    if xs != [] {
      SortByCountStable(xs[1..], c);
      InsertByCountWithCount(xs[0], SortByCount(xs[1..]), c);
    }
  }
}
