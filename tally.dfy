/**
 Frequency tables as app.py builds them: `collections.Counter` over a list of
 matches (first-seen order, one entry per distinct value), then Python's
 stable `sorted(..., key=count, reverse=True)`.
 */
module Tally {

  /** One (value, count) item of a Counter. */
  datatype Tallied<T> = Tallied(key: T, count: nat)

  function Keys<T>(c: seq<Tallied<T>>): (r: seq<T>)
    ensures |r| == |c|
    ensures forall i :: 0 <= i < |c| ==> r[i] == c[i].key
  {
    if c == [] then [] else [c[0].key] + Keys(c[1..])
  }

  /** Sum of the counts. */
  function Total<T>(c: seq<Tallied<T>>): nat {
    if c == [] then 0 else c[0].count + Total(c[1..])
  }

  predicate DistinctKeys<T(==)>(c: seq<Tallied<T>>) {
    forall i, j :: 0 <= i < j < |c| ==> c[i].key != c[j].key
  }

  /** Index of the first occurrence of x in xs, or |xs| when x does not occur. */
  function FirstIndex<T(==)>(xs: seq<T>, x: T): (i: nat)
    ensures i <= |xs|
    ensures i < |xs| <==> x in xs
    ensures i < |xs| ==> xs[i] == x
    ensures forall j :: 0 <= j < i ==> xs[j] != x
  {
    if xs == [] then 0 else if xs[0] == x then 0 else 1 + FirstIndex(xs[1..], x)
  }

  /** `counter[x] += 1`: an existing entry is incremented where it stands, a new
      value is appended with count 1. */
  function Bump<T(==)>(c: seq<Tallied<T>>, x: T): seq<Tallied<T>> {
    if c == [] then [Tallied(x, 1)]
    else if c[0].key == x then [Tallied(x, c[0].count + 1)] + c[1..]
    else [c[0]] + Bump(c[1..], x)
  }

  /** `Counter(xs).items()`: the values of xs in first-seen order with their counts. */
  function Counter<T(==)>(xs: seq<T>): seq<Tallied<T>> {
    if xs == [] then [] else Bump(Counter(xs[..|xs| - 1]), xs[|xs| - 1])
  }

  /** Keys are ordered by their first occurrence in xs (so they are distinct). */
  predicate OrderedByFirst<T(==)>(xs: seq<T>, ks: seq<T>) {
    forall i, j :: 0 <= i < j < |ks| ==> FirstIndex(xs, ks[i]) < FirstIndex(xs, ks[j])
  }

  lemma {:induction false} BumpKeys<T>(c: seq<Tallied<T>>, x: T)
    ensures Keys(Bump(c, x)) == if x in Keys(c) then Keys(c) else Keys(c) + [x]
    ensures |Bump(c, x)| == |Keys(Bump(c, x))|
  {
    if c != [] {
      assert Keys(c) == [c[0].key] + Keys(c[1..]);
      var r := Bump(c, x);
      if c[0].key != x {
        BumpKeys(c[1..], x);
        assert r[1..] == Bump(c[1..], x);
        assert Keys(r) == [c[0].key] + Keys(r[1..]);
      } else {
        assert r[1..] == c[1..];
        assert Keys(r) == [x] + Keys(c[1..]);
      }
    }
  }

  lemma {:induction false} BumpCounts<T>(c: seq<Tallied<T>>, x: T)
    requires DistinctKeys(c)
    ensures var r := Bump(c, x);
      && |r| >= |c|
      && (forall i :: 0 <= i < |c| ==> r[i].key == c[i].key)
      && (forall i :: 0 <= i < |c| ==> r[i].count == c[i].count + (if c[i].key == x then 1 else 0))
      && (|r| > |c| ==> r[|c|] == Tallied(x, 1))
  {
    if c != [] {
      var r := Bump(c, x);
      if c[0].key != x {
        BumpCounts(c[1..], x);
        assert r[1..] == Bump(c[1..], x);
        assert forall i :: 1 <= i < |r| ==> r[i] == r[1..][i - 1];
      } else {
        assert forall i :: 1 <= i < |c| ==> c[i].key != x by {
          forall i | 1 <= i < |c| ensures c[i].key != x {
            assert c[0].key != c[i].key;
          }
        }
      }
    }
  }

  lemma {:induction false} BumpTotal<T>(c: seq<Tallied<T>>, x: T)
    ensures Total(Bump(c, x)) == Total(c) + 1
  {
    if c != [] {
      if c[0].key != x {
        BumpTotal(c[1..], x);
        assert Bump(c, x)[1..] == Bump(c[1..], x);
      } else {
        assert Bump(c, x)[1..] == c[1..];
      }
    }
  }

  lemma {:induction false} FirstIndexAppend<T>(ys: seq<T>, x: T, k: T)
    ensures FirstIndex(ys + [x], k) == if k in ys then FirstIndex(ys, k) else if k == x then |ys| else |ys| + 1
  {
    if ys != [] {
      assert (ys + [x])[1..] == ys[1..] + [x];
      FirstIndexAppend(ys[1..], x, k);
    }
  }

  /** The keys of a Counter are exactly the values of xs, each once, in order
      of first occurrence. */
  lemma {:induction false} CounterKeys<T>(xs: seq<T>)
    ensures |Keys(Counter(xs))| == |Counter(xs)|
    ensures forall x :: x in Keys(Counter(xs)) <==> x in xs
    ensures OrderedByFirst(xs, Keys(Counter(xs)))
  {
    if xs != [] {
      var ys, x := xs[..|xs| - 1], xs[|xs| - 1];
      assert xs == ys + [x];
      CounterKeys(ys);
      var k0 := Keys(Counter(ys));
      BumpKeys(Counter(ys), x);
      var k := Keys(Counter(xs));
      assert k == if x in ys then k0 else k0 + [x];
      forall y ensures y in k <==> y in xs {
        assert y in xs <==> y in ys || y == x;
      }
      forall i, j | 0 <= i < j < |k| ensures FirstIndex(xs, k[i]) < FirstIndex(xs, k[j]) {
        assert k[i] == k0[i] && k0[i] in ys;
        FirstIndexAppend(ys, x, k[i]);
        FirstIndexAppend(ys, x, k[j]);
        if j < |k0| {
          assert k[j] == k0[j] && k0[j] in ys;
        }
      }
    }
  }

  lemma OrderedDistinct<T>(xs: seq<T>, c: seq<Tallied<T>>)
    requires OrderedByFirst(xs, Keys(c))
    ensures DistinctKeys(c)
  {
    forall i, j | 0 <= i < j < |c| ensures c[i].key != c[j].key {
      assert Keys(c)[i] == c[i].key && Keys(c)[j] == c[j].key;
    }
  }

  /** Each item of a Counter holds the number of occurrences of its value. */
  lemma {:induction false} CounterCounts<T>(xs: seq<T>)
    ensures forall i :: 0 <= i < |Counter(xs)| ==> Counter(xs)[i].count == multiset(xs)[Counter(xs)[i].key]
  {
    if xs != [] {
      var ys, x := xs[..|xs| - 1], xs[|xs| - 1];
      assert xs == ys + [x];
      CounterCounts(ys);
      CounterKeys(ys);
      var c0 := Counter(ys);
      OrderedDistinct(ys, c0);
      BumpCounts(c0, x);
      var c := Counter(xs);
      assert multiset(xs) == multiset(ys) + multiset{x};
      assert c == Bump(c0, x);
      BumpKeys(c0, x);
      forall i | 0 <= i < |c| ensures c[i].count == multiset(xs)[c[i].key] {
        if i < |c0| {
          assert c[i].key == c0[i].key;
          assert c[i].count == c0[i].count + (if c0[i].key == x then 1 else 0);
        } else {
          assert x !in Keys(c0);
          assert x !in ys;
          assert c[i] == Tallied(x, 1);
        }
      }
    }
  }

  lemma {:induction false} CounterTotal<T>(xs: seq<T>)
    ensures Total(Counter(xs)) == |xs|
  {
    if xs != [] {
      CounterTotal(xs[..|xs| - 1]);
      BumpTotal(Counter(xs[..|xs| - 1]), xs[|xs| - 1]);
    }
  }

  /** The items of a Counter: distinct values, each with its number of
      occurrences, exactly the values of xs, in order of first occurrence, and
      counts adding up to |xs|. */
  lemma CounterSpec<T>(xs: seq<T>)
    ensures var c := Counter(xs);
      && DistinctKeys(c)
      && (forall x :: x in Keys(c) <==> x in xs)
      && (forall e :: e in c ==> e.count == multiset(xs)[e.key] && e.key in xs)
      && OrderedByFirst(xs, Keys(c))
      && Total(c) == |xs|
  {
    CounterKeys(xs);
    CounterCounts(xs);
    CounterTotal(xs);
    var c := Counter(xs);
    OrderedDistinct(xs, c);
    forall e | e in c ensures e.count == multiset(xs)[e.key] && e.key in xs {
      var i :| 0 <= i < |c| && c[i] == e;
      assert Keys(c)[i] == e.key;
    }
  }

  /** Counts never increase from left to right. */
  predicate NonIncreasing<T>(s: seq<Tallied<T>>) {
    forall i, j :: 0 <= i < j < |s| ==> s[i].count >= s[j].count
  }

  /** Number of leading entries of s with a count strictly above x's. */
  function InsertionPoint<T>(x: Tallied<T>, s: seq<Tallied<T>>): nat {
    if s == [] || x.count >= s[0].count then 0 else 1 + InsertionPoint(x, s[1..])
  }

  /** Insertion of x, as the earliest of the entries it ties with, into s. */
  function Insert<T>(x: Tallied<T>, s: seq<Tallied<T>>): seq<Tallied<T>> {
    if s == [] || x.count >= s[0].count then [x] + s else [s[0]] + Insert(x, s[1..])
  }

  /** `sorted(items, key=lambda item: item[1], reverse=True)`: a stable sort by
      count, descending; entries with equal counts keep their input order. */
  function SortByCount<T>(s: seq<Tallied<T>>): seq<Tallied<T>> {
    if s == [] then [] else Insert(s[0], SortByCount(s[1..]))
  }

  /** Insert puts x right after the entries whose count is strictly larger,
      shifting the others one place to the right. */
  lemma {:induction false} InsertAt<T>(x: Tallied<T>, s: seq<Tallied<T>>)
    ensures var k, r := InsertionPoint(x, s), Insert(x, s);
      && k <= |s| && |r| == |s| + 1
      && (forall i :: 0 <= i < k ==> r[i] == s[i] && s[i].count > x.count)
      && r[k] == x
      && (forall i :: k < i < |r| ==> r[i] == s[i - 1])
      && (k < |s| ==> s[k].count <= x.count)
  {
    if s != [] && x.count < s[0].count {
      InsertAt(x, s[1..]);
      var r := Insert(x, s);
      assert r == [s[0]] + Insert(x, s[1..]);
    }
  }

  lemma {:induction false} InsertMultiset<T>(x: Tallied<T>, s: seq<Tallied<T>>)
    ensures multiset(Insert(x, s)) == multiset(s) + multiset{x}
    ensures Total(Insert(x, s)) == x.count + Total(s)
  {
    if s != [] && x.count < s[0].count {
      InsertMultiset(x, s[1..]);
      assert Insert(x, s) == [s[0]] + Insert(x, s[1..]);
      assert s == [s[0]] + s[1..];
    }
  }

  lemma InsertSorted<T>(x: Tallied<T>, s: seq<Tallied<T>>)
    requires NonIncreasing(s)
    ensures NonIncreasing(Insert(x, s))
  {
    InsertAt(x, s);
    var k, r := InsertionPoint(x, s), Insert(x, s);
    forall i, j | 0 <= i < j < |r| ensures r[i].count >= r[j].count {
      if j <= k {
      } else if i == k {
        assert s[k].count >= s[j - 1].count;
      } else if i < k {
        assert s[k].count >= s[j - 1].count;
      } else {
        assert s[i - 1].count >= s[j - 1].count;
      }
    }
  }

  /** SortByCount returns a permutation of its input, ordered by count, with
      the same total. */
  lemma {:induction false} SortSpec<T>(s: seq<Tallied<T>>)
    ensures var r := SortByCount(s);
      && multiset(r) == multiset(s)
      && NonIncreasing(r)
      && Total(r) == Total(s)
  {
    if s != [] {
      SortSpec(s[1..]);
      var r0 := SortByCount(s[1..]);
      InsertSorted(s[0], r0);
      InsertMultiset(s[0], r0);
      assert s == [s[0]] + s[1..];
    }
  }

  /** Entries of equal count keep their relative order of first occurrence. */
  predicate TiesByFirst<T(==)>(xs: seq<T>, r: seq<Tallied<T>>) {
    forall i, j :: 0 <= i < j < |r| && r[i].count == r[j].count ==> FirstIndex(xs, r[i].key) < FirstIndex(xs, r[j].key)
  }

  /** Inserting an entry that occurs before every entry of r keeps ties ordered. */
  lemma InsertTies<T>(x: Tallied<T>, r0: seq<Tallied<T>>, xs: seq<T>)
    requires TiesByFirst(xs, r0)
    requires forall e :: e in r0 ==> FirstIndex(xs, x.key) < FirstIndex(xs, e.key)
    ensures TiesByFirst(xs, Insert(x, r0))
  {
    InsertAt(x, r0);
    var k, r := InsertionPoint(x, r0), Insert(x, r0);
    forall i, j | 0 <= i < j < |r| && r[i].count == r[j].count
      ensures FirstIndex(xs, r[i].key) < FirstIndex(xs, r[j].key)
    {
      if j < k {
        assert r[i] == r0[i] && r[j] == r0[j];
      } else if i == k {
        assert r0[j - 1] in r0;
      } else if i < k < j {
        assert r[i] == r0[i] && r[j] == r0[j - 1];
      } else if k < i {
        assert r[i] == r0[i - 1] && r[j] == r0[j - 1];
      }
    }
  }

  /** The tail of a sequence ordered by first occurrence is ordered too. */
  lemma OrderedTail<T>(s: seq<Tallied<T>>, xs: seq<T>)
    requires s != [] && OrderedByFirst(xs, Keys(s))
    ensures OrderedByFirst(xs, Keys(s[1..]))
  {
    var rest := s[1..];
    forall i, j | 0 <= i < j < |rest| ensures FirstIndex(xs, rest[i].key) < FirstIndex(xs, rest[j].key) {
      assert Keys(s)[i + 1] == rest[i].key && Keys(s)[j + 1] == rest[j].key;
    }
  }

  /** The head of a sequence ordered by first occurrence occurs before every
      entry of any permutation of its tail. */
  lemma HeadFirst<T>(s: seq<Tallied<T>>, xs: seq<T>, r0: seq<Tallied<T>>)
    requires s != [] && OrderedByFirst(xs, Keys(s)) && multiset(r0) == multiset(s[1..])
    ensures forall e :: e in r0 ==> FirstIndex(xs, s[0].key) < FirstIndex(xs, e.key)
  {
    var rest := s[1..];
    forall e | e in r0 ensures FirstIndex(xs, s[0].key) < FirstIndex(xs, e.key) {
      assert e in multiset(rest);
      var j :| 0 <= j < |rest| && rest[j] == e;
      assert Keys(s)[0] == s[0].key && Keys(s)[j + 1] == e.key;
    }
  }

  /** Stability: if the input is ordered by first occurrence in xs, the entries
      of equal count stay in that order in the output. */
  lemma {:induction false} SortStable<T>(s: seq<Tallied<T>>, xs: seq<T>)
    requires OrderedByFirst(xs, Keys(s))
    ensures TiesByFirst(xs, SortByCount(s))
  {
    if s != [] {
      OrderedTail(s, xs);
      SortStable(s[1..], xs);
      SortSpec(s[1..]);
      HeadFirst(s, xs, SortByCount(s[1..]));
      InsertTies(s[0], SortByCount(s[1..]), xs);
    }
  }

  /** Every entry of the sorted Counter carries its value's number of occurrences. */
  lemma SortedCounterCounts<T>(xs: seq<T>)
    ensures var r := SortByCount(Counter(xs));
      forall i :: 0 <= i < |r| ==> 1 <= r[i].count == multiset(xs)[r[i].key]
  {
    var c := Counter(xs);
    CounterSpec(xs);
    SortSpec(c);
    var r := SortByCount(c);
    forall i | 0 <= i < |r| ensures 1 <= r[i].count == multiset(xs)[r[i].key] {
      assert r[i] in multiset(c);
      assert r[i] in c;
    }
  }

  /** The sorted Counter has exactly the values of xs as keys. */
  lemma SortedCounterKeys<T>(xs: seq<T>)
    ensures forall x :: x in Keys(SortByCount(Counter(xs))) <==> x in xs
  {
    var c := Counter(xs);
    CounterSpec(xs);
    SortSpec(c);
    var r := SortByCount(c);
    forall x ensures x in Keys(r) <==> x in xs {
      if x in xs {
        assert x in Keys(c);
        var i :| 0 <= i < |c| && Keys(c)[i] == x;
        assert c[i] in multiset(r);
        var j :| 0 <= j < |r| && r[j] == c[i];
        assert Keys(r)[j] == x;
      }
      if x in Keys(r) {
        var j :| 0 <= j < |r| && Keys(r)[j] == x;
        assert r[j] in multiset(c);
        var i :| 0 <= i < |c| && c[i] == r[j];
        assert Keys(c)[i] == x;
      }
    }
  }

  /** The sorted Counter of xs: one entry per distinct value of xs and no other,
      each with its number of occurrences (at least one), counts adding up to
      |xs|, ordered by count, and ties in order of first occurrence. */
  lemma SortedCounterSpec<T>(xs: seq<T>)
    ensures var r := SortByCount(Counter(xs));
      && DistinctKeys(r)
      && (forall i :: 0 <= i < |r| ==> 1 <= r[i].count == multiset(xs)[r[i].key])
      && (forall x :: x in Keys(r) <==> x in xs)
      && Total(r) == |xs|
      && NonIncreasing(r)
      && TiesByFirst(xs, r)
  {
    var c := Counter(xs);
    CounterTotal(xs);
    CounterKeys(xs);
    SortSpec(c);
    SortStable(c, xs);
    SortedCounterCounts(xs);
    SortedCounterKeys(xs);
    var r := SortByCount(c);
    assert DistinctKeys(r);
  }
}
