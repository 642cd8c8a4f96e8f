/**
  Histograms as posted: a JSON object from bucket label (its key) to count, in insertion order
  (HistogramValidator in esmond/api/perfsonar/validators.py).  This module holds the
  in-place merge of two histograms, and the sample that a histogram stands for.
*/
module Histograms {
  import opened Wrappers

  datatype Bucket = Bucket(key: string, count: int)

  type Histogram = seq<Bucket>

  // float(key), which fails on a label that is not a number
  type Reader = string -> Option<real>

  predicate DistinctKeys(h: Histogram) {
    forall i, j | 0 <= i < j < |h| :: h[i].key != h[j].key
  }

  predicate PositiveCounts(h: Histogram) {
    forall i | 0 <= i < |h| :: h[i].count > 0
  }

  predicate HasKey(h: Histogram, key: string) {
    exists i | 0 <= i < |h| :: h[i].key == key
  }

  function Total(h: Histogram): int {
    if h == [] then 0 else h[0].count + Total(h[1..])
  }

  function CountOf(h: Histogram, key: string): int {
    if h == [] then 0
    else (if h[0].key == key then h[0].count else 0) + CountOf(h[1..], key)
  }

  // ---------- merging ----------

  // The count joins its key, or a new entry at the end when the key is new.
  function AddBucket(agg: Histogram, b: Bucket): Histogram {
    if agg == [] then [b]
    else if agg[0].key == b.key then [Bucket(b.key, agg[0].count + b.count)] + agg[1..]
    else [agg[0]] + AddBucket(agg[1..], b)
  }

  function Merge(curr: Histogram, agg: Histogram): Histogram
    decreases |curr|
  {
    if curr == [] then agg else Merge(curr[1..], AddBucket(agg, curr[0]))
  }

  method Aggregate(curr: Histogram, agg: Histogram) returns (merged: Histogram)
    ensures merged == Merge(curr, agg)
  {
    merged := agg;
    assert curr[0..] == curr;
    for i := 0 to |curr|
      invariant Merge(curr[i..], merged) == Merge(curr, agg)
    {
      assert curr[i..][1..] == curr[i + 1..];
      merged := AddBucket(merged, curr[i]);
    }
  }

  lemma {:induction false} AddBucketCounts(agg: Histogram, b: Bucket)
    ensures Total(AddBucket(agg, b)) == Total(agg) + b.count
    ensures forall l :: CountOf(AddBucket(agg, b), l) == CountOf(agg, l) + if l == b.key then b.count else 0
    ensures forall l :: HasKey(AddBucket(agg, b), l) <==> HasKey(agg, l) || l == b.key
    ensures DistinctKeys(agg) ==> DistinctKeys(AddBucket(agg, b))
    ensures PositiveCounts(agg) && b.count > 0 ==> PositiveCounts(AddBucket(agg, b))
    ensures AddBucket(agg, b) != []
  {
    var r := AddBucket(agg, b);
    if agg == [] {
      assert r == [b] && r[1..] == [];
    } else if agg[0].key == b.key {
      assert r[1..] == agg[1..];
      assert |r| == |agg| && forall i | 0 <= i < |agg| :: r[i].key == agg[i].key;
    } else {
      var rest := AddBucket(agg[1..], b);
      AddBucketCounts(agg[1..], b);
      assert r[1..] == rest;
      KeysOfTail(r);
      KeysOfTail(agg);
    }
  }

  lemma KeysOfTail(h: Histogram)
    requires h != []
    ensures forall l :: HasKey(h, l) <==> l == h[0].key || HasKey(h[1..], l)
    ensures DistinctKeys(h) <==> DistinctKeys(h[1..]) && !HasKey(h[1..], h[0].key)
    ensures PositiveCounts(h) <==> PositiveCounts(h[1..]) && h[0].count > 0
  {
    var t := h[1..];
    assert forall i | 0 <= i < |t| :: t[i] == h[i + 1];
    assert forall i | 0 < i < |h| :: h[i] == t[i - 1];
  }

  /** Merging adds the two histograms point by point and loses no count. */
  lemma {:induction false} MergeAdds(curr: Histogram, agg: Histogram)
    ensures Total(Merge(curr, agg)) == Total(curr) + Total(agg)
    ensures forall l :: CountOf(Merge(curr, agg), l) == CountOf(curr, l) + CountOf(agg, l)
    ensures forall l :: HasKey(Merge(curr, agg), l) <==> HasKey(curr, l) || HasKey(agg, l)
    ensures DistinctKeys(agg) ==> DistinctKeys(Merge(curr, agg))
    ensures PositiveCounts(curr) && PositiveCounts(agg) ==> PositiveCounts(Merge(curr, agg))
    ensures curr != [] || agg != [] ==> Merge(curr, agg) != []
    decreases |curr|
  {
    if curr != [] {
      AddBucketCounts(agg, curr[0]);
      MergeAdds(curr[1..], AddBucket(agg, curr[0]));
      KeysOfTail(curr);
    }
  }

  lemma {:induction false} CountOfDistinct(h: Histogram, i: nat)
    requires DistinctKeys(h) && i < |h|
    ensures CountOf(h, h[i].key) == h[i].count
  {
    KeysOfTail(h);
    if i == 0 {
      CountOfAbsent(h[1..], h[0].key);
    } else {
      assert h[1..][i - 1] == h[i];
      CountOfDistinct(h[1..], i - 1);
    }
  }

  lemma {:induction false} CountOfAbsent(h: Histogram, key: string)
    requires !HasKey(h, key)
    ensures CountOf(h, key) == 0
  {
    if h != [] {
      KeysOfTail(h);
      assert h[0].key != key;
      CountOfAbsent(h[1..], key);
    }
  }

  // ---------- the sample ----------

  datatype Item = Item(value: real, count: int)

  function ValueOf(read: Reader, key: string): real {
    if read(key).Some? then read(key).value else 0.0
  }

  predicate Numeric(h: Histogram, read: Reader) {
    forall i | 0 <= i < |h| :: read(h[i].key).Some?
  }

  function Items(h: Histogram, read: Reader): (items: seq<Item>)
    ensures |items| == |h|
    ensures forall i | 0 <= i < |h| :: items[i] == Item(ValueOf(read, h[i].key), h[i].count)
  {
    seq(|h|, i requires 0 <= i < |h| => Item(ValueOf(read, h[i].key), h[i].count))
  }

  predicate PositiveItems(items: seq<Item>) {
    forall i | 0 <= i < |items| :: items[i].count > 0
  }

  predicate SortedItems(items: seq<Item>) {
    forall i, j | 0 <= i < j < |items| :: items[i].value <= items[j].value
  }

  predicate Sorted(y: seq<real>) {
    forall i, j | 0 <= i < j < |y| :: y[i] <= y[j]
  }

  // sorted(items, key=value): stable
  function InsertItem(x: Item, items: seq<Item>): seq<Item> {
    if items == [] || x.value <= items[0].value then [x] + items
    else [items[0]] + InsertItem(x, items[1..])
  }

  function SortItems(items: seq<Item>): seq<Item> {
    if items == [] then [] else InsertItem(items[0], SortItems(items[1..]))
  }

  function Repeat(v: real, n: int): (y: seq<real>)
    ensures |y| == if n > 0 then n else 0
    ensures forall i | 0 <= i < |y| :: y[i] == v
  {
    seq(if n > 0 then n else 0, _ => v)
  }

  // every value as many times as it was counted
  function Expand(items: seq<Item>): seq<real> {
    if items == [] then [] else Repeat(items[0].value, items[0].count) + Expand(items[1..])
  }

  // The sorted, fully expanded sample a histogram stands for.
  function Sample(h: Histogram, read: Reader): seq<real> {
    Expand(SortItems(Items(h, read)))
  }

  function Size(items: seq<Item>): int {
    if items == [] then 0 else items[0].count + Size(items[1..])
  }

  lemma {:induction false} InsertItemKeeps(x: Item, items: seq<Item>)
    ensures multiset(InsertItem(x, items)) == multiset([x] + items)
    ensures |InsertItem(x, items)| == |items| + 1
  {
    if items == [] || x.value <= items[0].value {
    } else {
      InsertItemKeeps(x, items[1..]);
      assert items == [items[0]] + items[1..];
    }
  }

  lemma {:induction false} InsertItemExpands(x: Item, items: seq<Item>)
    ensures multiset(Expand(InsertItem(x, items))) == multiset(Repeat(x.value, x.count)) + multiset(Expand(items))
  {
    if items == [] || x.value <= items[0].value {
      ExpandCons(x, items);
    } else {
      InsertItemExpands(x, items[1..]);
      ExpandCons(items[0], InsertItem(x, items[1..]));
    }
  }

  lemma {:induction false} InsertItemSorts(x: Item, items: seq<Item>)
    requires SortedItems(items)
    ensures SortedItems(InsertItem(x, items))
  {
    if items == [] || x.value <= items[0].value {
    } else {
      var rest := items[1..];
      var r := InsertItem(x, rest);
      InsertItemSorts(x, rest);
      InsertItemKeeps(x, rest);
      forall i | 0 <= i < |r| ensures items[0].value <= r[i].value {
        FromInsert(x, rest, i);
      }
    }
  }

  lemma {:induction false} FromInsert(x: Item, items: seq<Item>, i: nat)
    requires i < |InsertItem(x, items)|
    ensures InsertItem(x, items)[i] == x || exists j | 0 <= j < |items| :: items[j] == InsertItem(x, items)[i]
  {
    InsertItemKeeps(x, items);
    assert InsertItem(x, items)[i] in multiset([x] + items);
  }

  lemma {:induction false} ExpandCons(x: Item, items: seq<Item>)
    ensures Expand([x] + items) == Repeat(x.value, x.count) + Expand(items)
  {
    assert ([x] + items)[1..] == items;
  }

  lemma {:induction false} SortItemsSorts(items: seq<Item>)
    ensures multiset(SortItems(items)) == multiset(items)
    ensures |SortItems(items)| == |items|
    ensures SortedItems(SortItems(items))
    ensures multiset(Expand(SortItems(items))) == multiset(Expand(items))
  {
    if items != [] {
      var rest := items[1..];
      var sorted := SortItems(rest);
      SortItemsSorts(rest);
      InsertItemKeeps(items[0], sorted);
      InsertItemSorts(items[0], sorted);
      InsertItemExpands(items[0], sorted);
      assert items == [items[0]] + rest;
    }
  }

  lemma {:induction false} SortItemsPositive(items: seq<Item>)
    requires PositiveItems(items)
    ensures PositiveItems(SortItems(items))
  {
    SortItemsSorts(items);
    forall i | 0 <= i < |items| ensures SortItems(items)[i].count > 0 {
      assert SortItems(items)[i] in multiset(items);
    }
  }

  lemma {:induction false} ExpandAppend(a: seq<Item>, b: seq<Item>)
    ensures Expand(a + b) == Expand(a) + Expand(b)
  {
    if a == [] {
      assert a + b == b;
    } else {
      ExpandAppend(a[1..], b);
      assert a + b == [a[0]] + (a[1..] + b);
      ExpandCons(a[0], a[1..] + b);
      var head, mid, tail := Repeat(a[0].value, a[0].count), Expand(a[1..]), Expand(b);
      assert head + (mid + tail) == (head + mid) + tail;
    }
  }

  lemma ExpandNext(items: seq<Item>, i: nat)
    requires i < |items|
    ensures Expand(items[..i + 1]) == Expand(items[..i]) + Repeat(items[i].value, items[i].count)
  {
    assert items[..i + 1] == items[..i] + [items[i]];
    ExpandAppend(items[..i], [items[i]]);
    assert Expand([items[i]]) == Repeat(items[i].value, items[i].count);
  }

  // Where bucket i sits in the expanded sample.
  lemma ExpandAt(items: seq<Item>, i: nat)
    requires PositiveItems(items) && i < |items|
    ensures |Expand(items[..i + 1])| == |Expand(items[..i])| + items[i].count <= |Expand(items)|
    ensures forall j | |Expand(items[..i])| <= j < |Expand(items[..i + 1])| :: Expand(items)[j] == items[i].value
  {
    ExpandNext(items, i);
    assert items == items[..i + 1] + items[i + 1..];
    ExpandAppend(items[..i + 1], items[i + 1..]);
  }

  lemma {:induction false} ExpandSorted(items: seq<Item>)
    requires SortedItems(items)
    ensures Sorted(Expand(items))
    ensures forall v | v in Expand(items) :: exists i | 0 <= i < |items| :: items[i].value == v
  {
    if items != [] {
      var rest := items[1..];
      ExpandSorted(rest);
      var head, tail := Repeat(items[0].value, items[0].count), Expand(rest);
      forall v | v in head + tail ensures exists i | 0 <= i < |items| :: items[i].value == v {
        if v in tail {
          var i :| 0 <= i < |rest| && rest[i].value == v;
          assert items[i + 1].value == v;
        } else {
          assert items[0].value == v;
        }
      }
      forall i, j | 0 <= i < j < |head + tail| ensures (head + tail)[i] <= (head + tail)[j] {
        if i < |head| <= j {
          assert tail[j - |head|] in tail;
        }
      }
    }
  }

  lemma {:induction false} ExpandSize(items: seq<Item>)
    requires PositiveItems(items)
    ensures |Expand(items)| == Size(items) >= |items|
  {
    if items != [] {
      assert PositiveItems(items[1..]);
      ExpandSize(items[1..]);
    }
  }

  lemma {:induction false} ItemsTotal(h: Histogram, read: Reader)
    ensures Size(Items(h, read)) == Total(h)
  {
    if h != [] {
      ItemsTotal(h[1..], read);
      assert Items(h, read)[1..] == Items(h[1..], read);
    }
  }

  /** The sample is the counted values in ascending order: as many as the histogram
      counts, each as often as its buckets say, whatever order the buckets came in. */
  lemma {:induction false} SampleOfHistogram(h: Histogram, read: Reader)
    requires PositiveCounts(h)
    ensures Sorted(Sample(h, read))
    ensures multiset(Sample(h, read)) == multiset(Expand(Items(h, read)))
    ensures |Sample(h, read)| == Total(h) >= |h|
    ensures PositiveItems(SortItems(Items(h, read)))
  {
    var items := Items(h, read);
    SortItemsSorts(items);
    SortItemsPositive(items);
    ExpandSorted(SortItems(items));
    ExpandSize(items);
    assert |multiset(Sample(h, read))| == |multiset(Expand(items))|;
    ItemsTotal(h, read);
  }
}
