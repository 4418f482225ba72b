/** Feed items and the total declared size of a feed (`getFeedSize`). */
module Feed {
  /** One feed item: its title and its enclosure (URL, declared byte length, MIME type). */
  datatype Item = Item(title: string, url: string, length: nat, mimeType: string)

  /** The reduction in `getFeedSize`: a left fold that adds each item's declared length to the accumulator. */
  function SumFrom(acc: nat, items: seq<Item>): nat
    decreases |items|
  {
    if items == [] then acc else SumFrom(acc + items[0].length, items[1..])
  }

  /** The total declared size of the feed: the fold started from 0. */
  function FeedSize(items: seq<Item>): nat {
    SumFrom(0, items)
  }

  /** Reference definition: the sum of the declared lengths. */
  function DeclaredTotal(items: seq<Item>): nat
    decreases |items|
  {
    if items == [] then 0 else items[0].length + DeclaredTotal(items[1..])
  }

  /** Folding from an accumulator adds the accumulator to the plain sum. */
  lemma {:induction false} SumFromIsTotal(acc: nat, items: seq<Item>)
    ensures SumFrom(acc, items) == acc + DeclaredTotal(items)
    decreases |items|
  {
    if items != [] {
      SumFromIsTotal(acc + items[0].length, items[1..]);
    }
  }

  /** The fold computes exactly the sum of the declared lengths, starting from 0. */
  lemma FeedSizeIsTotal(items: seq<Item>)
    ensures FeedSize(items) == DeclaredTotal(items)
    ensures items == [] ==> FeedSize(items) == 0
  {
    SumFromIsTotal(0, items);
  }

  /** The sum splits over a concatenation of feeds. */
  lemma {:induction false} DeclaredTotalAppend(a: seq<Item>, b: seq<Item>)
    ensures DeclaredTotal(a + b) == DeclaredTotal(a) + DeclaredTotal(b)
    decreases |a|
  {
    if a == [] {
      assert a + b == b;
    } else {
      assert (a + b)[0] == a[0] && (a + b)[1..] == a[1..] + b;
      DeclaredTotalAppend(a[1..], b);
    }
  }

  /** The total size of the feed is additive over its items, and no item's length exceeds it. */
  lemma {:induction false} FeedSizeAppend(a: seq<Item>, b: seq<Item>)
    ensures FeedSize(a + b) == FeedSize(a) + FeedSize(b)
  {
    FeedSizeIsTotal(a);
    FeedSizeIsTotal(b);
    FeedSizeIsTotal(a + b);
    DeclaredTotalAppend(a, b);
  }

  /** Every item's declared length is counted in the total. */
  lemma {:induction false} FeedSizeBoundsItems(items: seq<Item>, i: nat)
    requires i < |items|
    ensures items[i].length <= FeedSize(items)
  {
    assert items == items[..i] + [items[i]] + items[i + 1..];
    FeedSizeAppend(items[..i] + [items[i]], items[i + 1..]);
    FeedSizeAppend(items[..i], [items[i]]);
    FeedSizeIsTotal([items[i]]);
    assert DeclaredTotal([items[i]]) == items[i].length + DeclaredTotal([]);
  }
}
