/** The first step of `GCV`: `zip(X, Y)` sorted with Python's tuple order. */
module Sorting {
  import opened Seqs

  /** A sample as a (time, magnitude) tuple. */
  type Pair = (real, real)

  /** Python's tuple order: by time, ties broken by magnitude. */
  predicate PairLe(a: Pair, b: Pair)
  {
    a.0 < b.0 || (a.0 == b.0 && a.1 <= b.1)
  }

  predicate Sorted(s: seq<Pair>)
  {
    forall i, j :: 0 <= i < j < |s| ==> PairLe(s[i], s[j])
  }

  function Insert(x: Pair, s: seq<Pair>): (r: seq<Pair>)
    ensures |r| == |s| + 1
    decreases |s|
  {
    if |s| == 0 then [x]
    else if PairLe(x, s[0]) then [x] + s
    else [s[0]] + Insert(x, s[1..])
  }

  /** Inserting adds exactly `x` to the multiset of elements. */
  lemma {:induction false} InsertPerm(x: Pair, s: seq<Pair>)
    ensures multiset(Insert(x, s)) == multiset(s) + multiset{x}
    decreases |s|
  {
    if |s| > 0 && !PairLe(x, s[0]) {
      InsertPerm(x, s[1..]);
      assert s == [s[0]] + s[1..];
    }
  }

  /** Every element of `Insert(x, s)` is `x` or an element of `s`. */
  lemma InsertFrom(x: Pair, s: seq<Pair>, i: nat)
    requires i < |Insert(x, s)|
    ensures Insert(x, s)[i] == x || Insert(x, s)[i] in s
  {
    var r := Insert(x, s);
    InsertPerm(x, s);
    assert r[i] in multiset(r);
  }

  lemma {:induction false} InsertSorted(x: Pair, s: seq<Pair>)
    requires Sorted(s)
    ensures Sorted(Insert(x, s))
    decreases |s|
  {
    if |s| > 0 && !PairLe(x, s[0]) {
      var rest := Insert(x, s[1..]);
      InsertSorted(x, s[1..]);
      assert Insert(x, s) == [s[0]] + rest;
      forall k | 0 <= k < |rest|
        ensures PairLe(s[0], rest[k])
      {
        InsertFrom(x, s[1..], k);
      }
    }
  }

  /** `list.sort()` on the zipped samples (insertion sort; Python's sort is
      stable, which cannot be observed on equal tuples). */
  function Sort(s: seq<Pair>): (r: seq<Pair>)
    ensures |r| == |s|
    ensures multiset(r) == multiset(s)
    ensures Sorted(r)
    decreases |s|
  {
    if |s| == 0 then []
    else
      assert s == [s[0]] + s[1..];
      InsertSorted(s[0], Sort(s[1..]));
      InsertPerm(s[0], Sort(s[1..]));
      Insert(s[0], Sort(s[1..]))
  }

  function Zip(xs: seq<real>, ys: seq<real>): (r: seq<Pair>)
    requires |xs| == |ys|
    ensures |r| == |xs|
  {
    seq(|xs|, i requires 0 <= i < |xs| => (xs[i], ys[i]))
  }

  /** `zpm_arr[:,0]`: the times. */
  function Firsts(s: seq<Pair>): (r: seq<real>)
    ensures |r| == |s|
    decreases |s|
  {
    if |s| == 0 then [] else [s[0].0] + Firsts(s[1..])
  }

  /** `zpm_arr[:,1]`: the magnitudes. */
  function Seconds(s: seq<Pair>): (r: seq<real>)
    ensures |r| == |s|
    decreases |s|
  {
    if |s| == 0 then [] else [s[0].1] + Seconds(s[1..])
  }

  lemma {:induction false} FirstsAt(s: seq<Pair>, i: nat)
    requires i < |s|
    ensures Firsts(s)[i] == s[i].0
    decreases i
  {
    if i > 0 {
      FirstsAt(s[1..], i - 1);
    }
  }

  lemma {:induction false} SecondsAt(s: seq<Pair>, i: nat)
    requires i < |s|
    ensures Seconds(s)[i] == s[i].1
    decreases i
  {
    if i > 0 {
      SecondsAt(s[1..], i - 1);
    }
  }

  lemma ProjectCons(p: Pair, s: seq<Pair>)
    ensures Firsts([p] + s) == [p.0] + Firsts(s)
    ensures Seconds([p] + s) == [p.1] + Seconds(s)
  {
    assert ([p] + s)[1..] == s;
  }

  lemma ConsPerm<T>(a: T, t: seq<T>, u: seq<T>, e: T)
    requires multiset(t) == multiset(u) + multiset{e}
    ensures multiset([a] + t) == multiset([a] + u) + multiset{e}
  {
  }

  lemma {:induction false} FirstsInsert(x: Pair, s: seq<Pair>)
    ensures multiset(Firsts(Insert(x, s))) == multiset(Firsts(s)) + multiset{x.0}
    decreases |s|
  {
    if |s| == 0 || PairLe(x, s[0]) {
      ProjectCons(x, s);
    } else {
      var rest := Insert(x, s[1..]);
      FirstsInsert(x, s[1..]);
      assert Firsts(Insert(x, s)) == [s[0].0] + Firsts(rest) by {
        assert Insert(x, s) == [s[0]] + rest;
        ProjectCons(s[0], rest);
      }
      ConsPerm(s[0].0, Firsts(rest), Firsts(s[1..]), x.0);
    }
  }

  lemma {:induction false} SecondsInsert(x: Pair, s: seq<Pair>)
    ensures multiset(Seconds(Insert(x, s))) == multiset(Seconds(s)) + multiset{x.1}
    decreases |s|
  {
    if |s| == 0 || PairLe(x, s[0]) {
      ProjectCons(x, s);
    } else {
      var rest := Insert(x, s[1..]);
      SecondsInsert(x, s[1..]);
      assert Seconds(Insert(x, s)) == [s[0].1] + Seconds(rest) by {
        assert Insert(x, s) == [s[0]] + rest;
        ProjectCons(s[0], rest);
      }
      ConsPerm(s[0].1, Seconds(rest), Seconds(s[1..]), x.1);
    }
  }

  lemma {:induction false} FirstsSort(s: seq<Pair>)
    ensures multiset(Firsts(Sort(s))) == multiset(Firsts(s))
    decreases |s|
  {
    if |s| > 0 {
      FirstsSort(s[1..]);
      FirstsInsert(s[0], Sort(s[1..]));
      ProjectCons(s[0], s[1..]);
      assert s == [s[0]] + s[1..];
    }
  }

  lemma {:induction false} SecondsSort(s: seq<Pair>)
    ensures multiset(Seconds(Sort(s))) == multiset(Seconds(s))
    decreases |s|
  {
    if |s| > 0 {
      SecondsSort(s[1..]);
      SecondsInsert(s[0], Sort(s[1..]));
      ProjectCons(s[0], s[1..]);
      assert s == [s[0]] + s[1..];
    }
  }

  lemma ZipProjections(xs: seq<real>, ys: seq<real>)
    requires |xs| == |ys|
    ensures Firsts(Zip(xs, ys)) == xs && Seconds(Zip(xs, ys)) == ys
  {
    var z := Zip(xs, ys);
    forall i | 0 <= i < |xs|
      ensures Firsts(z)[i] == xs[i] && Seconds(z)[i] == ys[i]
    {
      FirstsAt(z, i);
      SecondsAt(z, i);
    }
  }

  /** After sorting, the times (`phs`) are non-decreasing, and the times and
      the magnitudes (`mags`) are permutations of the inputs. */
  lemma SortedSamples(xs: seq<real>, ys: seq<real>)
    requires |xs| == |ys|
    ensures var sorted := Sort(Zip(xs, ys));
            && NonDecreasing(Firsts(sorted))
            && multiset(Firsts(sorted)) == multiset(xs)
            && multiset(Seconds(sorted)) == multiset(ys)
  {
    var sorted := Sort(Zip(xs, ys));
    ZipProjections(xs, ys);
    FirstsSort(Zip(xs, ys));
    SecondsSort(Zip(xs, ys));
    forall i, j | 0 <= i <= j < |xs|
      ensures Firsts(sorted)[i] <= Firsts(sorted)[j]
    {
      FirstsAt(sorted, i);
      FirstsAt(sorted, j);
      if i < j {
        assert PairLe(sorted[i], sorted[j]);
      }
    }
  }
}
