/**
 * Sequence helpers shared by both import parsers: the first-occurrence
 * de-duplication of `itertools::unique`, and the map built by inserting
 * key/value pairs one after another into a `HashMap` (a later key wins).
 */
module Collections {

  predicate NoDup<T(==)>(xs: seq<T>) {
    forall i, j :: 0 <= i < j < |xs| ==> xs[i] != xs[j]
  }

  /** Index of the first occurrence of `x` in `xs`. */
  function FirstIndex<T(==)>(xs: seq<T>, x: T): (k: nat)
    requires x in xs
    ensures k < |xs| && xs[k] == x && x !in xs[..k]
  {
    if xs[0] == x then 0 else 1 + FirstIndex(xs[1..], x)
  }

  /** The elements of `xs` occur in `src`, ordered by their first occurrence there. */
  predicate InFirstOccurrenceOrder<T(==)>(xs: seq<T>, src: seq<T>)
  {
    forall i, j :: 0 <= i < j < |xs| ==> xs[i] in src && xs[j] in src && FirstIndex(src, xs[i]) < FirstIndex(src, xs[j])
  }

  /** `xs` with every element after its first occurrence dropped. */
  function Dedup<T(==)>(xs: seq<T>): seq<T>
  {
    if xs == [] then []
    else
      var r := Dedup(xs[..|xs| - 1]);
      if xs[|xs| - 1] in r then r else r + [xs[|xs| - 1]]
  }

  lemma {:induction false} DedupElements<T>(xs: seq<T>)
    ensures NoDup(Dedup(xs))
    ensures forall x :: x in Dedup(xs) <==> x in xs
  {
    if xs != [] {
      var init := xs[..|xs| - 1];
      DedupElements(init);
      assert forall x :: x in xs <==> x in init || x == xs[|xs| - 1];
    }
  }

  /** Dedup keeps elements in the order of their first occurrences. */
  lemma {:induction false} DedupOrder<T>(xs: seq<T>)
    ensures forall x :: x in Dedup(xs) ==> x in xs
    ensures forall i, j :: 0 <= i < j < |Dedup(xs)| ==>
      FirstIndex(xs, Dedup(xs)[i]) < FirstIndex(xs, Dedup(xs)[j])
  {
    if xs != [] {
      var init := xs[..|xs| - 1];
      var last := xs[|xs| - 1];
      DedupOrder(init);
      DedupElements(init);
      var r := Dedup(init);
      forall x | x in init ensures FirstIndex(xs, x) == FirstIndex(init, x) {
        FirstIndexPrefix(xs, init, x);
      }
      if last !in r {
        assert last !in init;
        forall x | x in init ensures FirstIndex(xs, x) < |init| { FirstIndexPrefix(xs, init, x); }
        assert FirstIndex(xs, last) == |init| by {
          assert xs[..|init|] == init;
        }
      }
    }
  }

  lemma {:induction false} FirstIndexPrefix<T>(xs: seq<T>, pre: seq<T>, x: T)
    requires pre <= xs && x in pre
    ensures FirstIndex(xs, x) == FirstIndex(pre, x)
  {
    if xs[0] != x {
      FirstIndexPrefix(xs[1..], pre[1..], x);
    }
  }

  /** Dedup of a duplicate-free sequence is the sequence itself. */
  lemma {:induction false} DedupNoDup<T>(xs: seq<T>)
    requires NoDup(xs)
    ensures Dedup(xs) == xs
  {
    if xs != [] {
      var init := xs[..|xs| - 1];
      DedupNoDup(init);
      assert xs[|xs| - 1] !in init;
      assert init + [xs[|xs| - 1]] == xs;
    }
  }

  /** The map a loop of `insert(k, v)` builds from an empty map. */
  function LastWins<K(==), V>(kvs: seq<(K, V)>): map<K, V>
  {
    if kvs == [] then map[]
    else LastWins(kvs[..|kvs| - 1])[kvs[|kvs| - 1].0 := kvs[|kvs| - 1].1]
  }

  /** The keys of the map are exactly the keys inserted. */
  lemma {:induction false} LastWinsKeys<K, V>(kvs: seq<(K, V)>)
    ensures LastWins(kvs).Keys == set i | 0 <= i < |kvs| :: kvs[i].0
  {
    if kvs != [] {
      var init := kvs[..|kvs| - 1];
      LastWinsKeys(init);
      var keys := set i | 0 <= i < |kvs| :: kvs[i].0;
      var initKeys := set i | 0 <= i < |init| :: init[i].0;
      assert keys == initKeys + {kvs[|kvs| - 1].0} by {
        forall k | k in keys ensures k in initKeys + {kvs[|kvs| - 1].0} {
          var i :| 0 <= i < |kvs| && kvs[i].0 == k;
          if i < |init| { assert init[i].0 == k; }
        }
        forall k | k in initKeys ensures k in keys {
          var i :| 0 <= i < |init| && init[i].0 == k;
          assert kvs[i].0 == k;
        }
      }
    }
  }

  /** A key inserted for the last time at `i` maps to the value inserted there. */
  lemma {:induction false} LastWinsValues<K, V>(kvs: seq<(K, V)>, i: nat)
    requires i < |kvs|
    requires forall j :: i < j < |kvs| ==> kvs[j].0 != kvs[i].0
    ensures kvs[i].0 in LastWins(kvs) && LastWins(kvs)[kvs[i].0] == kvs[i].1
  {
    if i < |kvs| - 1 {
      var init := kvs[..|kvs| - 1];
      assert init[i] == kvs[i];
      assert forall j :: i < j < |init| ==> init[j] == kvs[j];
      LastWinsValues(init, i);
      assert kvs[|kvs| - 1].0 != kvs[i].0;
    }
  }
}
