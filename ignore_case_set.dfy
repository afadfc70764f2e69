/**
 * A set of strings under StringComparer.OrdinalIgnoreCase that remembers
 * insertion order: the HashSet the masking walk collects type tags in, and
 * the Distinct(StringComparer.OrdinalIgnoreCase) the audit record applies
 * to its lists (both keep the first string of each case-insensitive class,
 * in the order first seen).
 */
module IgnoreCaseSet {
  import opened Text

  /** No two entries are equal ignoring case. */
  predicate DistinctIgnoreCase(xs: seq<string>)
  {
    forall j, k | 0 <= j < k < |xs| :: !EqualsIgnoreCase(xs[j], xs[k])
  }

  /** HashSet.Add: appends x unless a case-insensitive equal is present. */
  function Add(xs: seq<string>, x: string): (r: seq<string>)
    ensures ContainsIgnoreCase(r, x)
    ensures ContainsIgnoreCase(xs, x) ==> r == xs
    ensures !ContainsIgnoreCase(xs, x) ==> r == xs + [x]
  {
    if ContainsIgnoreCase(xs, x) then xs
    else
      assert (xs + [x])[|xs|] == x;
      xs + [x]
  }

  /** HashSet.UnionWith: adds each of ys in turn. */
  function AddAll(xs: seq<string>, ys: seq<string>): seq<string>
    decreases |ys|
  {
    if |ys| == 0 then xs else Add(AddAll(xs, ys[..|ys| - 1]), ys[|ys| - 1])
  }

  /** Enumerable.Distinct with the case-insensitive comparer. */
  function Dedup(ys: seq<string>): seq<string>
  {
    AddAll([], ys)
  }

  lemma AddDistinct(xs: seq<string>, x: string)
    requires DistinctIgnoreCase(xs)
    ensures DistinctIgnoreCase(Add(xs, x))
  {
  }

  /**
   * Adding keeps the old entries as a prefix, keeps the entries pairwise
   * different ignoring case, covers every added string and adds nothing
   * that was not given.
   */
  lemma {:induction false} AddAllProperties(xs: seq<string>, ys: seq<string>)
    requires DistinctIgnoreCase(xs)
    ensures var r := AddAll(xs, ys);
      && |xs| <= |r| <= |xs| + |ys|
      && r[..|xs|] == xs
      && DistinctIgnoreCase(r)
      && (forall j | 0 <= j < |ys| :: ContainsIgnoreCase(r, ys[j]))
      && (forall k | |xs| <= k < |r| :: r[k] in ys)
    decreases |ys|
  {
    if |ys| > 0 {
      var init := ys[..|ys| - 1];
      var last := ys[|ys| - 1];
      AddAllProperties(xs, init);
      var mid := AddAll(xs, init);
      AddDistinct(mid, last);
      var r := Add(mid, last);
      assert r[..|mid|] == mid;
      assert r[..|xs|] == mid[..|xs|];
      forall j | 0 <= j < |ys|
        ensures ContainsIgnoreCase(r, ys[j])
      {
        if j < |ys| - 1 {
          assert ys[j] == init[j];
          var w :| 0 <= w < |mid| && EqualsIgnoreCase(mid[w], ys[j]);
          assert r[w] == mid[w];
        }
      }
      forall k | |xs| <= k < |r|
        ensures r[k] in ys
      {
        if k < |mid| {
          assert r[k] == mid[k] && mid[k] in init;
        } else {
          assert r[k] == last;
        }
      }
    }
  }

  /** Adding never removes or reorders what is already there. */
  lemma {:induction false} AddAllPrefix(xs: seq<string>, ys: seq<string>)
    ensures |xs| <= |AddAll(xs, ys)| && AddAll(xs, ys)[..|xs|] == xs
    decreases |ys|
  {
    if |ys| > 0 {
      AddAllPrefix(xs, ys[..|ys| - 1]);
      var mid := AddAll(xs, ys[..|ys| - 1]);
      assert Add(mid, ys[|ys| - 1])[..|xs|] == mid[..|xs|];
    }
  }

  /** Strings that are already pairwise different ignoring case pass through unchanged. */
  lemma {:induction false} AddAllDistinctInput(xs: seq<string>, ys: seq<string>)
    requires DistinctIgnoreCase(xs + ys)
    ensures AddAll(xs, ys) == xs + ys
    decreases |ys|
  {
    if |ys| > 0 {
      var init := ys[..|ys| - 1];
      var last := ys[|ys| - 1];
      assert xs + ys == (xs + init) + [last];
      assert DistinctIgnoreCase(xs + init) by {
        forall j, k | 0 <= j < k < |xs + init|
          ensures !EqualsIgnoreCase((xs + init)[j], (xs + init)[k])
        {
          assert (xs + init)[j] == (xs + ys)[j] && (xs + init)[k] == (xs + ys)[k];
        }
      }
      AddAllDistinctInput(xs, init);
      assert !ContainsIgnoreCase(xs + init, last) by {
        forall w | 0 <= w < |xs + init|
          ensures !EqualsIgnoreCase((xs + init)[w], last)
        {
          assert (xs + init)[w] == (xs + ys)[w];
          assert last == (xs + ys)[|xs + ys| - 1];
        }
      }
    }
  }

  /**
   * Dedup keeps the first string of each case-insensitive class in input
   * order: pairwise different, covering the input, drawn from it; and it is
   * idempotent.
   */
  lemma DedupProperties(ys: seq<string>)
    ensures var r := Dedup(ys);
      && |r| <= |ys|
      && DistinctIgnoreCase(r)
      && (forall j | 0 <= j < |ys| :: ContainsIgnoreCase(r, ys[j]))
      && (forall k | 0 <= k < |r| :: r[k] in ys)
      && (|r| == 0 <==> |ys| == 0)
  {
    AddAllProperties([], ys);
    var r := Dedup(ys);
    if |ys| > 0 {
      assert ContainsIgnoreCase(r, ys[0]);
    }
  }

  lemma DedupIdempotent(ys: seq<string>)
    ensures Dedup(Dedup(ys)) == Dedup(ys)
  {
    DedupProperties(ys);
    var r := Dedup(ys);
    assert [] + r == r;
    AddAllDistinctInput([], r);
  }

  /** The first entry of a non-empty input is always kept, as is. */
  lemma {:induction false} DedupKeepsFirst(ys: seq<string>)
    requires |ys| > 0
    ensures |Dedup(ys)| > 0 && Dedup(ys)[0] == ys[0]
    decreases |ys|
  {
    if |ys| > 1 {
      DedupKeepsFirst(ys[..|ys| - 1]);
      assert ys[..|ys| - 1][0] == ys[0];
    } else {
      assert ys[..0] == [];
      assert AddAll([], ys[..0]) == [];
      assert !ContainsIgnoreCase([], ys[0]);
    }
  }
}
