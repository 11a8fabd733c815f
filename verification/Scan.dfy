/** ScanHashMember of src/helper.h: pages through the buckets of a hash table. */
module Scan {
  import opened Bytes

  function Min(a: nat, b: nat): (m: nat) { if a < b then a else b }

  /** Element i of bucket b among all elements. */
  lemma FlatAt<T>(data: seq<seq<T>>, b: nat, i: nat)
    requires b < |data| && i < |data[b]|
    ensures |Flat(data[..b])| + i < |Flat(data)| && Flat(data)[|Flat(data[..b])| + i] == data[b][i]
  {
    hide Flat;
    FlatStep(data, b);
    FlatPrefix(data, b + 1);
    assert Flat(data[..b + 1])[|Flat(data[..b])| + i] == data[b][i];
  }

  /** The first bucket behind b that holds something, or the bucket count. */
  method NextBucket<T>(buckets: seq<seq<T>>, b: nat) returns (n: nat)
    requires b < |buckets|
    ensures b < n <= |buckets| && (n < |buckets| ==> buckets[n] != [])
    ensures Flat(buckets[..n]) == Flat(buckets[..b + 1])
  {
    n := b + 1;
    while n < |buckets|
      invariant b < n <= |buckets| && Flat(buckets[..n]) == Flat(buckets[..b + 1])
    {
      if |buckets[n]| > 0 {
        break;
      }
      FlatStep(buckets, n);
      n := n + 1;
    }
  }

  /** Lines 70-91: elements from position pos of a bucket on. */
  method Collect<T>(buckets: seq<seq<T>>, start: nat, pos: nat, cursor: nat, count: nat)
    returns (next: nat, res: seq<T>)
    requires start < |buckets| && pos < |buckets[start]| && cursor == |Flat(buckets[..start])| + pos
    ensures cursor < |Flat(buckets)|
    ensures var end := cursor + Min(count, |Flat(buckets)| - cursor);
            res == Flat(buckets)[cursor..end] && next == if end == |Flat(buckets)| then 0 else end
  {
    hide Flat;
    ghost var all := Flat(buckets);
    var bucket: nat, it: nat := start, pos;
    FlatAt(buckets, bucket, it);
    next, res := cursor, [];
    while |res| < count && it != |buckets[bucket]|
      invariant bucket < |buckets| && it < |buckets[bucket]| && next == |Flat(buckets[..bucket])| + it < |all|
      invariant next == cursor + |res| && |res| <= count && res == all[cursor..next]
      decreases |all| - next
    {
      FlatAt(buckets, bucket, it);
      next := next + 1;
      res := res + [buckets[bucket][it]];
      it := it + 1;
      if it == |buckets[bucket]| {
        FlatStep(buckets, bucket);
        bucket := NextBucket(buckets, bucket);
        if bucket == |buckets| {
          WholeSlice(buckets);
          return 0, res;
        }
        it := 0;
      }
      FlatAt(buckets, bucket, it);
    }
  }

  /** ScanHashMember: the next count elements, or as many as there are, and the cursor of
      the element behind them, or 0 behind the last. */
  method ScanHashMember<T>(buckets: seq<seq<T>>, cursor: nat, count: nat) returns (next: nat, res: seq<T>)
    ensures var size := |Flat(buckets)|;
            if cursor >= size then next == 0 && res == []
            else
              var end := cursor + Min(count, size - cursor);
              res == Flat(buckets)[cursor..end] && next == if end == size then 0 else end
  {
    hide Flat;
    var size := Size(buckets);
    if cursor >= size {
      return 0, [];
    }
    var idx: nat := cursor;
    FlatNone(buckets);
    for bucket := 0 to |buckets|
      invariant idx + |Flat(buckets[..bucket])| == cursor
    {
      FlatStep(buckets, bucket);
      if idx < |buckets[bucket]| {
        next, res := Collect(buckets, bucket, idx, cursor, count);
        return;
      }
      idx := idx - |buckets[bucket]|;
    }
    WholeSlice(buckets);
    assert false;
  }

  /** size() of the container: the elements of all buckets. */
  method Size<T>(buckets: seq<seq<T>>) returns (n: nat)
    ensures n == |Flat(buckets)|
  {
    n := 0;
    for i := 0 to |buckets|
      invariant n == |Flat(buckets[..i])|
    {
      FlatStep(buckets, i);
      n := n + |buckets[i]|;
    }
    WholeSlice(buckets);
  }

  /** Scanning from 0 until 0 comes back, with pages of any sizes, gives every element
      exactly once, and the same concatenation whatever the sizes. */
  method ScanAll<T>(buckets: seq<seq<T>>, pages: nat -> nat) returns (all: seq<T>, calls: nat)
    requires forall i: nat :: pages(i) >= 1
    ensures all == Flat(buckets)
    ensures calls <= |Flat(buckets)| + 1
  {
    hide Flat;
    var cursor;
    cursor, all := ScanHashMember(buckets, 0, pages(0));
    calls := 1;
    while cursor != 0
      invariant cursor == 0 ==> all == Flat(buckets)
      invariant cursor != 0 ==> cursor < |Flat(buckets)| && all == Flat(buckets)[..cursor]
      invariant calls <= if cursor == 0 then |Flat(buckets)| + 1 else cursor
      decreases if cursor == 0 then 0 else |Flat(buckets)| - cursor
    {
      var next, res := ScanHashMember(buckets, cursor, pages(calls));
      all := all + res;
      cursor := next;
      calls := calls + 1;
    }
  }
}
