/**
 * Insertion-ordered counters: the model of a `defaultdict(int)` that is only
 * ever incremented.  A Python dict iterates its keys in insertion order, so the
 * counter is a sequence of (key, count) pairs in the order the keys were first
 * counted.
 */
module CountMaps {

  type CountMap<K> = seq<(K, nat)>

  /** The keys, in iteration (insertion) order. */
  function Keys<K>(m: CountMap<K>): seq<K> {
    seq(|m|, i requires 0 <= i < |m| => m[i].0)
  }

  /** What `d[k]` reads: the count stored for `k`, 0 when `k` is absent. */
  function Count<K(==)>(m: CountMap<K>, k: K): nat {
    if m == [] then 0 else (if m[0].0 == k then m[0].1 else 0) + Count(m[1..], k)
  }

  /** `sum(d.values())` */
  function Sum<K>(m: CountMap<K>): nat {
    if m == [] then 0 else m[0].1 + Sum(m[1..])
  }

  /** Every stored count is at least one (keys only appear when counted). */
  predicate Positive<K>(m: CountMap<K>) {
    forall i :: 0 <= i < |m| ==> m[i].1 >= 1
  }

  predicate NoDuplicates<K(==)>(s: seq<K>) {
    forall i, j :: 0 <= i < j < |s| ==> s[i] != s[j]
  }

  /** `d[k] += 1` on a `defaultdict(int)`. */
  function Bump<K(==)>(m: CountMap<K>, k: K): (r: CountMap<K>)
    ensures Sum(r) == Sum(m) + 1
  {
    if m == [] then [(k, 1)]
    else if m[0].0 == k then [(k, m[0].1 + 1)] + m[1..]
    else
      var rest := Bump(m[1..], k);
      assert ([m[0]] + rest)[1..] == rest;
      [m[0]] + rest
  }

  /** A new key goes last; a known key keeps its place. */
  lemma {:induction false} BumpKeys<K>(m: CountMap<K>, k: K)
    ensures Keys(Bump(m, k)) == if k in Keys(m) then Keys(m) else Keys(m) + [k]
  {
    if m != [] {
      KeysCons(m);
      if m[0].0 == k {
        assert Keys(m)[0] == k;
        assert Keys(Bump(m, k)) == Keys(m);
      } else {
        var rest := Bump(m[1..], k);
        BumpKeys(m[1..], k);
        assert Bump(m, k)[1..] == rest;
        KeysCons(Bump(m, k));
      }
    }
  }

  lemma {:induction false} BumpPositive<K>(m: CountMap<K>, k: K)
    requires Positive(m)
    ensures Positive(Bump(m, k))
  {
    if m != [] && m[0].0 != k {
      BumpPositive(m[1..], k);
      assert Bump(m, k)[1..] == Bump(m[1..], k);
    }
  }

  /** `d[k] += 1` adds one to the count of `k` and to no other. */
  lemma {:induction false} BumpCount<K>(m: CountMap<K>, k: K, x: K)
    ensures Count(Bump(m, k), x) == Count(m, x) + (if x == k then 1 else 0)
  {
    if m != [] && m[0].0 != k {
      BumpCount(m[1..], k, x);
      assert ([m[0]] + Bump(m[1..], k))[1..] == Bump(m[1..], k);
    }
  }

  /** Counting every key of `ks`, in order, starting from `m`. */
  function BumpAll<K(==)>(m: CountMap<K>, ks: seq<K>): CountMap<K> {
    if ks == [] then m else Bump(BumpAll(m, ks[..|ks| - 1]), ks[|ks| - 1])
  }

  lemma BumpAllSnoc<K>(m: CountMap<K>, ks: seq<K>, k: K)
    ensures BumpAll(m, ks + [k]) == Bump(BumpAll(m, ks), k)
  {
    assert (ks + [k])[..|ks|] == ks;
  }

  /** The keys of `ks` at the positions where they occur for the first time. */
  function FirstSeen<K(==)>(ks: seq<K>): seq<K> {
    if ks == [] then []
    else
      var init := ks[..|ks| - 1];
      FirstSeen(init) + (if ks[|ks| - 1] in init then [] else [ks[|ks| - 1]])
  }

  lemma {:induction false} FirstSeenElements<K>(ks: seq<K>)
    ensures forall x :: x in FirstSeen(ks) <==> x in ks
    ensures NoDuplicates(FirstSeen(ks))
  {
    if ks != [] {
      var init := ks[..|ks| - 1];
      FirstSeenElements(init);
      assert ks == init + [ks[|ks| - 1]];
    }
  }

  /** Counting a sequence of keys from an empty counter: each count is the
      key's number of occurrences. */
  lemma {:induction false} BumpAllCount<K>(ks: seq<K>, x: K)
    ensures Count(BumpAll([], ks), x) == multiset(ks)[x]
  {
    if ks != [] {
      var init := ks[..|ks| - 1];
      BumpAllCount(init, x);
      BumpCount(BumpAll([], init), ks[|ks| - 1], x);
      assert ks == init + [ks[|ks| - 1]];
      assert multiset(ks) == multiset(init) + multiset{ks[|ks| - 1]};
    }
  }

  /** The counts add up to the number of keys counted. */
  lemma {:induction false} BumpAllSum<K>(m: CountMap<K>, ks: seq<K>)
    ensures Sum(BumpAll(m, ks)) == Sum(m) + |ks|
  {
    if ks != [] {
      BumpAllSum(m, ks[..|ks| - 1]);
    }
  }

  /** Keys are listed in first-seen order, each once. */
  lemma {:induction false} BumpAllKeys<K>(ks: seq<K>)
    ensures Keys(BumpAll([], ks)) == FirstSeen(ks)
    ensures NoDuplicates(Keys(BumpAll([], ks)))
  {
    FirstSeenElements(ks);
    if ks != [] {
      var init := ks[..|ks| - 1];
      BumpAllKeys(init);
      FirstSeenElements(init);
      BumpKeys(BumpAll([], init), ks[|ks| - 1]);
    }
  }

  /** A counter whose counts are all positive holds at most as many entries as
      it has counted; in particular a zero sum means an empty counter. */
  lemma {:induction false} PositiveSumBound<K>(m: CountMap<K>)
    requires Positive(m)
    ensures |m| <= Sum(m)
  {
    if m != [] {
      PositiveSumBound(m[1..]);
    }
  }

  lemma KeysCons<K>(m: CountMap<K>)
    requires m != []
    ensures Keys(m) == [m[0].0] + Keys(m[1..])
  {
  }

  /** In a counter without repeated keys, the count read for the i-th key is
      the i-th stored count. */
  lemma {:induction false} CountAt<K>(m: CountMap<K>, i: nat)
    requires NoDuplicates(Keys(m)) && i < |m|
    ensures Keys(m)[i] == m[i].0
    ensures Count(m, m[i].0) == m[i].1
  {
    KeysCons(m);
    if i == 0 {
      assert m[0].0 !in Keys(m[1..]) by {
        forall j | 0 <= j < |m| - 1 ensures Keys(m[1..])[j] != m[0].0 {
          assert Keys(m)[j + 1] != Keys(m)[0];
        }
      }
      CountAbsent(m[1..], m[0].0);
    } else {
      assert NoDuplicates(Keys(m[1..])) by {
        forall a, b | 0 <= a < b < |m| - 1 ensures Keys(m[1..])[a] != Keys(m[1..])[b] {
          assert Keys(m)[a + 1] != Keys(m)[b + 1];
        }
      }
      CountAt(m[1..], i - 1);
      assert m[0].0 != m[i].0 by {
        assert Keys(m)[0] != Keys(m)[i];
      }
    }
  }

  lemma {:induction false} CountAbsent<K>(m: CountMap<K>, k: K)
    requires k !in Keys(m)
    ensures Count(m, k) == 0
  {
    if m != [] {
      KeysCons(m);
      CountAbsent(m[1..], k);
    }
  }
}
