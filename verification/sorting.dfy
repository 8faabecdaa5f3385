/** `list.sort(key=lambda point: point[0])` on parsed center records: a
    stable sort by class id, as a functional insertion sort. A stable sort
    is pinned down by two facts: the output is ordered by id, and for each
    id the records carrying it keep their relative order. */
module Sorting {
  import opened Types

  predicate SortedById(rs: seq<Record>) {
    forall i, j :: 0 <= i < j < |rs| ==> rs[i].id <= rs[j].id
  }

  /** The records carrying class id `k`, in their order in `rs`. */
  function WithId(rs: seq<Record>, k: int): (out: seq<Record>)
    ensures forall i :: 0 <= i < |out| ==> out[i].id == k && out[i] in rs
    decreases |rs|
  {
    if |rs| == 0 then []
    else (if rs[0].id == k then [rs[0]] else []) + WithId(rs[1..], k)
  }

  /** `r` placed before the first record whose id is not smaller than its own. */
  function Insert(r: Record, rs: seq<Record>): (out: seq<Record>)
    ensures |out| == |rs| + 1
    ensures multiset(out) == multiset(rs) + multiset{r}
    decreases |rs|
  {
    if |rs| == 0 || r.id <= rs[0].id then [r] + rs
    else
      assert rs == [rs[0]] + rs[1..];
      [rs[0]] + Insert(r, rs[1..])
  }

  lemma {:induction false} InsertSorted(r: Record, rs: seq<Record>)
    requires SortedById(rs)
    ensures SortedById(Insert(r, rs))
    decreases |rs|
  {
    if |rs| > 0 && r.id > rs[0].id {
      var tail := Insert(r, rs[1..]);
      InsertSorted(r, rs[1..]);
      forall j | 0 <= j < |tail|
        ensures rs[0].id <= tail[j].id
      {
        assert tail[j] in multiset(tail);
        assert tail[j] == r || tail[j] in multiset(rs[1..]);
        if tail[j] != r {
          var m :| 0 <= m < |rs[1..]| && rs[1..][m] == tail[j];
          assert rs[m + 1] == tail[j];
        }
      }
    }
  }

  function SortById(rs: seq<Record>): (out: seq<Record>)
    ensures |out| == |rs|
    ensures SortedById(out)
    ensures multiset(out) == multiset(rs)
    decreases |rs|
  {
    if |rs| == 0 then []
    else
      assert rs == [rs[0]] + rs[1..];
      InsertSorted(rs[0], SortById(rs[1..]));
      Insert(rs[0], SortById(rs[1..]))
  }

  /** One unfolding of `WithId`. */
  lemma WithIdCons(rs: seq<Record>, k: int)
    requires |rs| > 0
    ensures WithId(rs, k) == (if rs[0].id == k then [rs[0]] else []) + WithId(rs[1..], k)
  {
  }

  lemma WithIdPrepend(x: Record, tail: seq<Record>, k: int)
    ensures WithId([x] + tail, k) == (if x.id == k then [x] else []) + WithId(tail, k)
  {
    assert ([x] + tail)[1..] == tail;
  }

  /** Two pieces commute in front of a third when one of them is empty. */
  lemma SwapEmpty(p: seq<Record>, q: seq<Record>, w: seq<Record>)
    requires p == [] || q == []
    ensures p + (q + w) == q + (p + w)
  {
    if p == [] {
      assert p + (q + w) == q + w == q + (p + w);
    } else {
      assert p + (q + w) == p + w == q + (p + w);
    }
  }

  lemma {:induction false} WithIdInsert(r: Record, rs: seq<Record>, k: int)
    ensures WithId(Insert(r, rs), k) == (if r.id == k then [r] else []) + WithId(rs, k)
    decreases |rs|
  {
    if |rs| == 0 || r.id <= rs[0].id {
      WithIdPrepend(r, rs, k);
    } else {
      var tail := Insert(r, rs[1..]);
      assert Insert(r, rs) == [rs[0]] + tail;
      WithIdInsert(r, rs[1..], k);
      WithIdPrepend(rs[0], tail, k);
      WithIdCons(rs, k);
      // `rs[0]` sorts before `r`, so at most one of them carries id `k`.
      SwapEmpty(if rs[0].id == k then [rs[0]] else [], if r.id == k then [r] else [], WithId(rs[1..], k));
    }
  }

  /** The sort is stable: for every id, the records carrying it appear in
      the output in the order they had in the input. */
  lemma {:induction false} SortIsStable(rs: seq<Record>, k: int)
    ensures WithId(SortById(rs), k) == WithId(rs, k)
    decreases |rs|
  {
    if |rs| > 0 {
      SortIsStable(rs[1..], k);
      WithIdInsert(rs[0], SortById(rs[1..]), k);
    }
  }

  lemma {:induction false} WithIdNonEmpty(rs: seq<Record>, k: int)
    requires |WithId(rs, k)| > 0
    ensures exists i :: 0 <= i < |rs| && rs[i].id == k
  {
    var x := WithId(rs, k)[0];
    assert x in rs;
    var i :| 0 <= i < |rs| && rs[i] == x;
  }

  lemma WithIdHead(rs: seq<Record>)
    requires |rs| > 0
    ensures WithId(rs, rs[0].id) == [rs[0]] + WithId(rs[1..], rs[0].id)
  {
  }

  /** Two id-ordered sequences that agree, id by id, on their records in
      order are the same sequence: what the sort returns is determined by
      its two defining facts. */
  lemma {:induction false} SortedUnique(a: seq<Record>, b: seq<Record>)
    requires SortedById(a) && SortedById(b)
    requires forall k :: WithId(a, k) == WithId(b, k)
    ensures a == b
    decreases |a| + |b|
  {
    if |a| == 0 && |b| == 0 {
    } else if |a| == 0 {
      WithIdHead(b);
      assert false;
    } else if |b| == 0 {
      WithIdHead(a);
      assert false;
    } else {
      var ka, kb := a[0].id, b[0].id;
      WithIdHead(a);
      WithIdHead(b);
      WithIdNonEmpty(b, ka);
      WithIdNonEmpty(a, kb);
      assert kb <= ka && ka <= kb;
      assert a[0] == WithId(a, ka)[0] == WithId(b, ka)[0] == b[0];
      forall k
        ensures WithId(a[1..], k) == WithId(b[1..], k)
      {
        var pre: seq<Record> := if a[0].id == k then [a[0]] else [];
        assert WithId(a, k) == pre + WithId(a[1..], k);
        assert WithId(b, k) == pre + WithId(b[1..], k);
        assert WithId(a[1..], k) == WithId(a, k)[|pre|..];
        assert WithId(b[1..], k) == WithId(b, k)[|pre|..];
      }
      SortedUnique(a[1..], b[1..]);
      assert a == [a[0]] + a[1..] && b == [b[0]] + b[1..];
    }
  }

  /** Sorting an already ordered sequence leaves it unchanged. */
  lemma SortOfSorted(rs: seq<Record>)
    requires SortedById(rs)
    ensures SortById(rs) == rs
  {
    forall k
      ensures WithId(SortById(rs), k) == WithId(rs, k)
    {
      SortIsStable(rs, k);
    }
    SortedUnique(SortById(rs), rs);
  }

  /** Sorting is idempotent. */
  lemma SortIdempotent(rs: seq<Record>)
    ensures SortById(SortById(rs)) == SortById(rs)
  {
    SortOfSorted(SortById(rs));
  }

  // ---------------------------------------------------------------------------
  // Records with pairwise distinct ids sort the same way whatever their order

  predicate DistinctIds(rs: seq<Record>) {
    forall i, j :: 0 <= i < j < |rs| ==> rs[i].id != rs[j].id
  }

  lemma MultisetCons(rs: seq<Record>)
    requires |rs| > 0
    ensures multiset(rs) == multiset{rs[0]} + multiset(rs[1..])
  {
    assert rs == [rs[0]] + rs[1..];
  }

  lemma {:induction false} WithIdMultiset(rs: seq<Record>, k: int, x: Record)
    ensures multiset(WithId(rs, k))[x] == if x.id == k then multiset(rs)[x] else 0
    decreases |rs|
  {
    if |rs| > 0 {
      WithIdMultiset(rs[1..], k, x);
      WithIdCons(rs, k);
      MultisetCons(rs);
    }
  }

  lemma {:induction false} WithIdDistinct(rs: seq<Record>, k: int)
    requires DistinctIds(rs)
    ensures |WithId(rs, k)| <= 1
    decreases |rs|
  {
    if |rs| > 0 {
      assert DistinctIds(rs[1..]);
      WithIdDistinct(rs[1..], k);
      if rs[0].id == k && |WithId(rs[1..], k)| > 0 {
        WithIdNonEmpty(rs[1..], k);
        assert false;
      }
    }
  }

  lemma ShortSeqsByMultiset(a: seq<Record>, b: seq<Record>)
    requires |a| <= 1
    requires multiset(a) == multiset(b)
    ensures a == b
  {
    assert |b| == |multiset(b)| == |multiset(a)| == |a|;
    if |a| == 1 {
      assert a[0] in multiset(b);
    }
  }

  /** A permutation of records with distinct ids sorts to the same sequence. */
  lemma SortIgnoresOrder(a: seq<Record>, b: seq<Record>)
    requires DistinctIds(a)
    requires multiset(a) == multiset(b)
    ensures SortById(a) == SortById(b)
  {
    forall k
      ensures WithId(SortById(a), k) == WithId(SortById(b), k)
    {
      SortIsStable(a, k);
      SortIsStable(b, k);
      forall x
        ensures multiset(WithId(a, k))[x] == multiset(WithId(b, k))[x]
      {
        WithIdMultiset(a, k, x);
        WithIdMultiset(b, k, x);
      }
      assert multiset(WithId(a, k)) == multiset(WithId(b, k));
      WithIdDistinct(a, k);
      ShortSeqsByMultiset(WithId(a, k), WithId(b, k));
    }
    SortedUnique(SortById(a), SortById(b));
  }
}
