/** The result of a `find(filter).sort({createdAt: -1})` over one collection:
    the ids of the documents that pass the filter, each once, newest first. */
module Listing {
  import opened Common

  /** Every id names a document of `m`, and creation times never increase
      along the list. */
  predicate SortedNewestFirst<K(==), V>(r: seq<K>, m: map<K, V>, stamp: V -> int) {
    && (forall i :: 0 <= i < |r| ==> r[i] in m)
    && (forall i, j :: 0 <= i < j < |r| ==> stamp(m[r[i]]) >= stamp(m[r[j]]))
  }

  /** Inserts `k` in front of the first document older than it. */
  method InsertNewest<K(==), V>(r: seq<K>, k: K, m: map<K, V>, stamp: V -> int) returns (r': seq<K>)
    requires k in m && SortedNewestFirst(r, m, stamp)
    ensures SortedNewestFirst(r', m, stamp)
    ensures |r'| == |r| + 1
    ensures forall x :: x in r' <==> x in r || x == k
    ensures NoDuplicates(r) && k !in r ==> NoDuplicates(r')
  {
    var i := 0;
    while i < |r| && stamp(m[r[i]]) >= stamp(m[k])
      invariant 0 <= i <= |r|
      invariant forall j :: 0 <= j < i ==> stamp(m[r[j]]) >= stamp(m[k])
    {
      i := i + 1;
    }
    assert forall j :: i <= j < |r| ==> stamp(m[r[j]]) < stamp(m[k]) by {
      forall j | i <= j < |r| ensures stamp(m[r[j]]) < stamp(m[k]) {
        assert stamp(m[r[j]]) <= stamp(m[r[i]]);
      }
    }
    r' := r[..i] + [k] + r[i..];
    InsertAt(r, i, k);
  }

  /** `k` placed at position `i`: the elements before it stay put, the ones
      after it move up by one, and nothing else is added. */
  lemma InsertAt<K>(r: seq<K>, i: nat, k: K)
    requires i <= |r|
    ensures var r' := r[..i] + [k] + r[i..];
            && |r'| == |r| + 1 && r'[i] == k
            && (forall j :: 0 <= j < i ==> r'[j] == r[j])
            && (forall j :: i < j < |r'| ==> r'[j] == r[j - 1])
            && (forall x :: x in r' <==> x in r || x == k)
            && (NoDuplicates(r) && k !in r ==> NoDuplicates(r'))
  {
    var r' := r[..i] + [k] + r[i..];
    InsertAtIndexes(r, i, k);
    assert r == r[..i] + r[i..];
    if NoDuplicates(r) && k !in r {
      forall a, b | 0 <= a < b < |r'| ensures r'[a] != r'[b] {
        if b == i || a == i {
          assert r'[a + b - i] in r;
        }
      }
    }
  }

  lemma InsertAtIndexes<K>(r: seq<K>, i: nat, k: K)
    requires i <= |r|
    ensures var r' := r[..i] + [k] + r[i..];
            && |r'| == |r| + 1 && r'[i] == k
            && (forall j :: 0 <= j < i ==> r'[j] == r[j])
            && (forall j :: i < j < |r'| ==> r'[j] == r[j - 1])
  {
  }

  /** The ids of the documents of `m` that `keep` accepts, each exactly once,
      newest `stamp` first. */
  method ListNewestFirst<K(==), V>(m: map<K, V>, keep: V -> bool, stamp: V -> int) returns (r: seq<K>)
    ensures forall k :: k in r <==> k in m && keep(m[k])
    ensures NoDuplicates(r)
    ensures SortedNewestFirst(r, m, stamp)
  {
    r := [];
    var todo := m.Keys;
    while todo != {}
      invariant todo <= m.Keys
      invariant forall k :: k in r <==> k in m && k !in todo && keep(m[k])
      invariant NoDuplicates(r)
      invariant SortedNewestFirst(r, m, stamp)
      decreases |todo|
    {
      var k :| k in todo;
      todo := todo - {k};
      if keep(m[k]) {
        r := InsertNewest(r, k, m, stamp);
      }
    }
  }
}
