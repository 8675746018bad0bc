/** Sorting map entries by key: the contract of the stable library sort that the encoder
    calls, and exactly when two lists sort to the same one. */
module EntrySort {
  import opened CborValue

  ghost predicate StrictOrder<K(!new)>(less: (K, K) -> bool) {
    && (forall a, b :: less(a, b) ==> !less(b, a))
    && (forall a, b, c :: less(a, b) && less(b, c) ==> less(a, c))
    && (forall a, b :: a != b ==> less(a, b) || less(b, a))
  }

  predicate Sorted<K>(es: seq<Entry<K>>, less: (K, K) -> bool) {
    forall i, j :: 0 <= i < j < |es| ==> !less(es[j].key, es[i].key)
  }

  predicate Ascending<K>(es: seq<Entry<K>>, less: (K, K) -> bool) {
    forall i, j :: 0 <= i < j < |es| ==> less(es[i].key, es[j].key)
  }

  /** Places `e` before the first entry whose key is not below its own. */
  function Insert<K>(e: Entry<K>, es: seq<Entry<K>>, less: (K, K) -> bool): (r: seq<Entry<K>>)
    ensures multiset(r) == multiset(es) + multiset{e}
  {
    if es == [] || !less(es[0].key, e.key) then [e] + es
    else
      assert es == [es[0]] + es[1..];
      [es[0]] + Insert(e, es[1..], less)
  }

  function Sort<K>(es: seq<Entry<K>>, less: (K, K) -> bool): (r: seq<Entry<K>>)
    ensures multiset(r) == multiset(es)
    ensures |r| == |es|
  {
    if es == [] then []
    else
      assert es == [es[0]] + es[1..];
      var r := Insert(es[0], Sort(es[1..], less), less);
      assert |r| == |multiset(r)| == |multiset(es)|;
      r
  }

  lemma SameMembers<K>(a: seq<Entry<K>>, b: seq<Entry<K>>)
    requires multiset(a) == multiset(b)
    ensures forall e :: e in a <==> e in b
    ensures forall i :: 0 <= i < |a| ==> a[i] in b
    ensures forall i :: 0 <= i < |b| ==> b[i] in a
  {
    forall e ensures e in a <==> e in b {
      assert e in multiset(a) <==> e in a;
      assert e in multiset(b) <==> e in b;
    }
  }

  lemma {:induction false} InsertSorted<K(!new)>(e: Entry<K>, es: seq<Entry<K>>, less: (K, K) -> bool)
    requires StrictOrder(less) && Sorted(es, less)
    ensures Sorted(Insert(e, es, less), less)
  {
    if es != [] && less(es[0].key, e.key) {
      InsertSorted(e, es[1..], less);
      var rest := Insert(e, es[1..], less);
      forall j | 0 <= j < |rest| ensures !less(rest[j].key, es[0].key) {
        assert rest[j] in multiset(rest);
        if rest[j] != e {
          assert rest[j] in multiset(es[1..]);
          assert rest[j] in es[1..];
        }
      }
    }
  }

  lemma {:induction false} SortSorted<K(!new)>(es: seq<Entry<K>>, less: (K, K) -> bool)
    requires StrictOrder(less)
    ensures Sorted(Sort(es, less), less)
  {
    if es != [] {
      SortSorted(es[1..], less);
      InsertSorted(es[0], Sort(es[1..], less), less);
    }
  }

  /** Sorting leaves a sorted list alone, equal keys included. */
  lemma {:induction false} SortFixed<K>(es: seq<Entry<K>>, less: (K, K) -> bool)
    requires Sorted(es, less)
    ensures Sort(es, less) == es
  {
    if es != [] {
      SortFixed(es[1..], less);
      assert es == [es[0]] + es[1..];
    }
  }

  lemma {:induction false} InsertDistinct<K>(e: Entry<K>, es: seq<Entry<K>>, less: (K, K) -> bool)
    ensures DistinctKeys(Insert(e, es, less)) <==> DistinctKeys([e] + es)
  {
    if es != [] && less(es[0].key, e.key) {
      var rest := Insert(e, es[1..], less);
      assert multiset(rest) == multiset([e] + es[1..]);
      InsertDistinct(e, es[1..], less);
      DistinctCons(es[0], rest);
      DistinctCons(es[0], [e] + es[1..]);
      SameMembers(rest, [e] + es[1..]);
      DistinctCons(e, es);
      DistinctCons(e, es[1..]);
      DistinctCons(es[0], es[1..]);
      assert es == [es[0]] + es[1..];
      assert forall x :: x in es <==> x == es[0] || x in es[1..];
    }
  }

  lemma DistinctCons<K>(e: Entry<K>, es: seq<Entry<K>>)
    ensures DistinctKeys([e] + es) <==> DistinctKeys(es) && forall x :: x in es ==> x.key != e.key
  {
    var all := [e] + es;
    if DistinctKeys(all) {
      forall i, j | 0 <= i < j < |es| ensures es[i].key != es[j].key {
        assert all[i + 1].key != all[j + 1].key;
      }
      forall x | x in es ensures x.key != e.key {
        var k :| 0 <= k < |es| && es[k] == x;
        assert all[0].key != all[k + 1].key;
      }
    }
  }

  lemma {:induction false} SortDistinct<K>(es: seq<Entry<K>>, less: (K, K) -> bool)
    ensures DistinctKeys(Sort(es, less)) <==> DistinctKeys(es)
  {
    if es != [] {
      var rest := Sort(es[1..], less);
      SortDistinct(es[1..], less);
      SameMembers(rest, es[1..]);
      InsertDistinct(es[0], rest, less);
      DistinctCons(es[0], rest);
      DistinctCons(es[0], es[1..]);
      assert es == [es[0]] + es[1..];
    }
  }

  /** Distinct keys: the sorted list is strictly ascending. */
  lemma SortAscending<K(!new)>(es: seq<Entry<K>>, less: (K, K) -> bool)
    requires StrictOrder(less) && DistinctKeys(es)
    ensures DistinctKeys(Sort(es, less)) && Ascending(Sort(es, less), less)
  {
    SortSorted(es, less);
    SortDistinct(es, less);
  }

  // ------------------------------------------------------------------- stability

  lemma OfKeyCons<K>(e: Entry<K>, es: seq<Entry<K>>, k: K)
    ensures OfKey([e] + es, k) == (if e.key == k then [e] else []) + OfKey(es, k)
  {
    assert ([e] + es)[1..] == es;
  }

  lemma {:induction false} InsertStable<K(!new)>(e: Entry<K>, es: seq<Entry<K>>, less: (K, K) -> bool, k: K)
    requires StrictOrder(less)
    ensures OfKey(Insert(e, es, less), k) == OfKey([e] + es, k)
  {
    hide OfKey;
    OfKeyCons(e, es, k);
    if es != [] && less(es[0].key, e.key) {
      assert es[0].key != e.key;
      var rest := Insert(e, es[1..], less);
      InsertStable(e, es[1..], less, k);
      OfKeyCons(es[0], rest, k);
      OfKeyCons(es[0], es[1..], k);
      OfKeyCons(e, es[1..], k);
      assert es == [es[0]] + es[1..];
    }
  }

  /** Entries that share a key keep their order. */
  lemma {:induction false} SortStable<K(!new)>(es: seq<Entry<K>>, less: (K, K) -> bool, k: K)
    requires StrictOrder(less)
    ensures OfKey(Sort(es, less), k) == OfKey(es, k)
  {
    if es != [] {
      var rest := Sort(es[1..], less);
      SortStable(es[1..], less, k);
      InsertStable(es[0], rest, less, k);
      OfKeyCons(es[0], rest, k);
    }
  }

  ghost predicate SameByKey<K(!new)>(a: seq<Entry<K>>, b: seq<Entry<K>>) {
    forall k :: OfKey(a, k) == OfKey(b, k)
  }

  lemma {:induction false} OfKeyNonempty<K>(es: seq<Entry<K>>, e: Entry<K>)
    requires e in es
    ensures OfKey(es, e.key) != []
  {
    if es[0] != e { OfKeyNonempty(es[1..], e); }
  }

  lemma SmallestFirst<K(!new)>(a: seq<Entry<K>>, b: seq<Entry<K>>, less: (K, K) -> bool)
    requires StrictOrder(less) && Sorted(a, less) && SameByKey(a, b) && a != [] && b != []
    ensures !less(b[0].key, a[0].key)
  {
    var k := b[0].key;
    OfKeyNonempty(b, b[0]);
    assert OfKey(a, k)[0] in a && OfKey(a, k)[0].key == k;
    var i :| 0 <= i < |a| && a[i] == OfKey(a, k)[0];
  }

  /** Sorted lists that agree key by key are equal. */
  lemma {:induction false} SortedUnique<K(!new)>(a: seq<Entry<K>>, b: seq<Entry<K>>, less: (K, K) -> bool)
    requires StrictOrder(less) && Sorted(a, less) && Sorted(b, less) && SameByKey(a, b)
    ensures a == b
  {
    if a != [] { OfKeyNonempty(a, a[0]); }
    if b != [] { OfKeyNonempty(b, b[0]); }
    if a != [] && b != [] {
      SmallestFirst(a, b, less);
      SmallestFirst(b, a, less);
      assert OfKey(a, a[0].key)[0] == a[0] && OfKey(b, b[0].key)[0] == b[0];
      assert a == [a[0]] + a[1..] && b == [b[0]] + b[1..];
      forall k ensures OfKey(a[1..], k) == OfKey(b[1..], k) { TailOfKey(a, b, k); }
      SortedUnique(a[1..], b[1..], less);
    }
  }

  lemma TailOfKey<K>(a: seq<Entry<K>>, b: seq<Entry<K>>, k: K)
    requires a != [] && b != [] && a[0] == b[0] && OfKey(a, k) == OfKey(b, k)
    ensures OfKey(a[1..], k) == OfKey(b[1..], k)
  {
    var n := if a[0].key == k then 1 else 0;
    assert OfKey(a[1..], k) == OfKey(a, k)[n..] && OfKey(b[1..], k) == OfKey(b, k)[n..];
  }

  /** Two lists sort to one exactly when they agree key by key: sorting forgets how entries of
      different keys were interleaved, and nothing else. */
  lemma {:induction false} SortExact<K(!new)>(a: seq<Entry<K>>, b: seq<Entry<K>>, less: (K, K) -> bool)
    requires StrictOrder(less)
    ensures Sort(a, less) == Sort(b, less) <==> SameByKey(a, b)
  {
    hide Sort, StrictOrder, Sorted;
    forall k
      ensures OfKey(Sort(a, less), k) == OfKey(a, k)
      ensures OfKey(Sort(b, less), k) == OfKey(b, k)
    {
      SortStable(a, less, k);
      SortStable(b, less, k);
    }
    if Sort(a, less) == Sort(b, less) {
      forall k ensures OfKey(a, k) == OfKey(b, k) {
        assert OfKey(Sort(a, less), k) == OfKey(a, k);
      }
    }
    if SameByKey(a, b) {
      SortSorted(a, less);
      SortSorted(b, less);
      SortedUnique(Sort(a, less), Sort(b, less), less);
    }
  }
}
