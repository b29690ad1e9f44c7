/** `itertools.product` and `itertools.combinations`, in the order the
    standard library yields them, with their counts. */
module Combinatorics {
  import opened Seqs

  // ------------------------------------------------------------- product

  function PrefixAll<T>(x: T, ps: seq<seq<T>>): (r: seq<seq<T>>)
    ensures |r| == |ps|
    ensures forall i :: 0 <= i < |ps| ==> r[i] == [x] + ps[i]
  {
    seq(|ps|, i requires 0 <= i < |ps| => [x] + ps[i])
  }

  /** Every `x` of `xs` (slowest) in front of every tail of `ps`. */
  function Cross<T>(xs: seq<T>, ps: seq<seq<T>>): (r: seq<seq<T>>)
    ensures |r| == |xs| * |ps|
    decreases |xs|
  {
    if |xs| == 0 then []
    else
      var rest := Cross(xs[1..], ps);
      assert |xs| * |ps| == |ps| + (|xs| - 1) * |ps|;
      PrefixAll(xs[0], ps) + rest
  }

  /** The product of the lengths of the domains. */
  function LengthProduct<T>(ds: seq<seq<T>>): nat
  {
    if |ds| == 0 then 1 else |ds[0]| * LengthProduct(ds[1..])
  }

  /** `list(itertools.product(*ds))` */
  function Product<T>(ds: seq<seq<T>>): (r: seq<seq<T>>)
    ensures |r| == LengthProduct(ds)
    decreases |ds|
  {
    if |ds| == 0 then [[]] else Cross(ds[0], Product(ds[1..]))
  }

  lemma {:induction false} CrossMember<T>(xs: seq<T>, ps: seq<seq<T>>, t: seq<T>)
    ensures t in Cross(xs, ps) <==> (|t| > 0 && t[0] in xs && t[1..] in ps)
    decreases |xs|
  {
    if |xs| > 0 {
      CrossMember(xs[1..], ps, t);
      if t in PrefixAll(xs[0], ps) {
        var i :| 0 <= i < |ps| && PrefixAll(xs[0], ps)[i] == t;
        assert t[1..] == ps[i];
      }
      if |t| > 0 && t[0] == xs[0] && t[1..] in ps {
        var i :| 0 <= i < |ps| && ps[i] == t[1..];
        assert PrefixAll(xs[0], ps)[i] == t;
      }
      if |t| > 0 && t[0] in xs && t[0] != xs[0] {
        assert t[0] in xs[1..];
      }
    }
  }

  /** A tuple is produced exactly when it picks one element from each
      domain, in domain order. */
  lemma {:induction false} ProductMember<T>(ds: seq<seq<T>>, t: seq<T>)
    ensures t in Product(ds) <==> (|t| == |ds| && forall i :: 0 <= i < |ds| ==> t[i] in ds[i])
    decreases |ds|
  {
    if |ds| > 0 {
      CrossMember(ds[0], Product(ds[1..]), t);
      if |t| > 0 {
        ProductMember(ds[1..], t[1..]);
        if |t| == |ds| && forall i :: 1 <= i < |ds| ==> t[i] in ds[i] {
          forall i | 0 <= i < |ds| - 1
            ensures t[1..][i] in ds[1..][i]
          {
            assert t[1..][i] == t[i + 1];
          }
        }
        if |t[1..]| == |ds[1..]| && forall i :: 0 <= i < |ds[1..]| ==> t[1..][i] in ds[1..][i] {
          forall i | 1 <= i < |ds|
            ensures t[i] in ds[i]
          {
            assert t[i] == t[1..][i - 1];
          }
        }
      }
    } else {
      assert t in Product(ds) <==> t == [];
    }
  }

  lemma {:induction false} CrossDistinct<T>(xs: seq<T>, ps: seq<seq<T>>)
    requires Distinct(xs) && Distinct(ps)
    ensures Distinct(Cross(xs, ps))
    decreases |xs|
  {
    if |xs| > 0 {
      var head, rest := PrefixAll(xs[0], ps), Cross(xs[1..], ps);
      CrossDistinct(xs[1..], ps);
      forall i, j | 0 <= i < j < |head + rest|
        ensures (head + rest)[i] != (head + rest)[j]
      {
        if j < |head| {
          assert ps[i] == head[i][1..] && ps[j] == head[j][1..];
        } else if i < |head| {
          var t := rest[j - |head|];
          assert t in rest;
          CrossMember(xs[1..], ps, t);
          assert t[0] != xs[0];
        }
      }
    }
  }

  /** Domains without repeats give tuples without repeats. */
  lemma {:induction false} ProductDistinct<T>(ds: seq<seq<T>>)
    requires forall i :: 0 <= i < |ds| ==> Distinct(ds[i])
    ensures Distinct(Product(ds))
    decreases |ds|
  {
    if |ds| > 0 {
      assert forall i :: 0 <= i < |ds[1..]| ==> ds[1..][i] == ds[i + 1];
      ProductDistinct(ds[1..]);
      CrossDistinct(ds[0], Product(ds[1..]));
    }
  }

  // -------------------------------------------------------- combinations

  function Binom(n: nat, k: nat): nat
  {
    if k == 0 then 1 else if n == 0 then 0 else Binom(n - 1, k - 1) + Binom(n - 1, k)
  }

  /** `list(itertools.combinations(xs, k))`: lexicographic in the positions
      chosen, so combinations holding `xs[0]` come first. */
  function Combinations<T>(xs: seq<T>, k: nat): (r: seq<seq<T>>)
    ensures |r| == Binom(|xs|, k)
    decreases |xs|
  {
    if k == 0 then [[]]
    else if |xs| == 0 then []
    else PrefixAll(xs[0], Combinations(xs[1..], k - 1)) + Combinations(xs[1..], k)
  }

  /** Every combination keeps `k` elements of `xs` in their original order. */
  lemma {:induction false} CombinationsAreSubsequences<T>(xs: seq<T>, k: nat, c: seq<T>)
    requires c in Combinations(xs, k)
    ensures |c| == k && IsSubsequence(c, xs)
    decreases |xs|
  {
    if k > 0 && |xs| > 0 {
      var with := PrefixAll(xs[0], Combinations(xs[1..], k - 1));
      if c in with {
        var i :| 0 <= i < |with| && with[i] == c;
        CombinationsAreSubsequences(xs[1..], k - 1, c[1..]);
      } else {
        CombinationsAreSubsequences(xs[1..], k, c);
      }
    }
  }

  function Pow2(n: nat): (r: nat)
    ensures r >= 1
  {
    if n == 0 then 1 else 2 * Pow2(n - 1)
  }

  /** Σ_{k < m} C(n, k): how many combinations of sizes `0 .. m-1` exist. */
  function BinomSum(n: nat, m: nat): nat
  {
    if m == 0 then 0 else BinomSum(n, m - 1) + Binom(n, m - 1)
  }

  lemma {:induction false} BinomAbove(n: nat, k: nat)
    requires k > n
    ensures Binom(n, k) == 0
    decreases n
  {
    if n > 0 {
      BinomAbove(n - 1, k - 1);
      BinomAbove(n - 1, k);
    }
  }

  /** Pascal's rule summed over `k`. */
  lemma {:induction false} BinomSumPascal(n: nat, m: nat)
    ensures BinomSum(n + 1, m + 1) == BinomSum(n, m) + BinomSum(n, m + 1)
    decreases m
  {
    if m > 0 {
      BinomSumPascal(n, m - 1);
    }
  }

  lemma {:induction false} BinomSumAll(n: nat, m: nat)
    requires m > n
    ensures BinomSum(n, m) == Pow2(n)
    decreases n, m
  {
    if m > n + 1 {
      BinomSumAll(n, m - 1);
      BinomAbove(n, m - 1);
    } else if n > 0 {
      BinomSumPascal(n - 1, n);
      BinomSumAll(n - 1, n);
      BinomSumAll(n - 1, n + 1);
    }
  }

  lemma {:induction false} BinomSumAtMostPow2(n: nat, m: nat)
    ensures BinomSum(n, m) <= Pow2(n)
    decreases m
  {
    if m > n {
      BinomSumAll(n, m);
    } else {
      BinomSumAll(n, n + 1);
      BinomSumMonotone(n, m, n + 1);
    }
  }

  lemma {:induction false} BinomSumMonotone(n: nat, m: nat, m': nat)
    requires m <= m'
    ensures BinomSum(n, m) <= BinomSum(n, m')
    decreases m'
  {
    if m < m' {
      BinomSumMonotone(n, m, m' - 1);
    }
  }
}
