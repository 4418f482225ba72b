/** Splitting the feed's items into download windows (`sliceIntoChunks`). */
module Batching {
  function Min(a: int, b: int): int { if a <= b then a else b }

  /** `Array.prototype.slice(from, to)` for non-negative bounds: both are clamped to the length. */
  function Slice<T>(s: seq<T>, from: nat, to: nat): (r: seq<T>)
    ensures |r| == if Min(to, |s|) <= from then 0 else Min(to, |s|) - from
    ensures forall j :: 0 <= j < |r| ==> r[j] == s[from + j]
  {
    var start, end := Min(from, |s|), Min(to, |s|);
    if end <= start then [] else s[start..end]
  }

  /** The number of windows, ⌈n / size⌉: the least count whose windows cover n items. */
  function CeilDiv(n: nat, size: nat): (c: nat)
    requires size >= 1
    ensures n <= c * size < n + size
    decreases n
  {
    if n == 0 then 0
    else if n <= size then 1
    else
      var rest := CeilDiv(n - size, size);
      assert (rest + 1) * size == rest * size + size;
      rest + 1
  }

  /** The count satisfying the ceiling bounds is unique. */
  lemma {:induction false} CeilDivUnique(n: nat, size: nat, c: nat)
    requires size >= 1
    requires n <= c * size < n + size
    ensures c == CeilDiv(n, size)
    decreases n
  {
    assert c >= 1 ==> c * size >= size;
    assert c >= 2 ==> c * size >= 2 * size;
    if n > size {
      assert (c - 1) * size == c * size - size;
      CeilDivUnique(n - size, size, c - 1);
    }
  }

  /** The count is the usual integer formula for the ceiling, (n + size - 1) / size. */
  lemma CeilDivFormula(n: nat, size: nat)
    requires size >= 1
    ensures CeilDiv(n, size) == (n + size - 1) / size
  {
    var q, r := (n + size - 1) / size, (n + size - 1) % size;
    assert n + size - 1 == q * size + r && 0 <= r < size;
    CeilDivUnique(n, size, q);
  }

  /**
   * Reference definition of the chunking: the first `size` items form a chunk (all of them if
   * there are no more than `size`), followed by the chunks of the rest.
   */
  function Chunks<T>(s: seq<T>, size: nat): seq<seq<T>>
    requires size >= 1
    decreases |s|
  {
    if |s| == 0 then []
    else if |s| <= size then [s]
    else [s[..size]] + Chunks(s[size..], size)
  }

  /** Concatenation of a sequence of chunks. */
  function Flatten<T>(chunks: seq<seq<T>>): seq<T>
    decreases |chunks|
  {
    if chunks == [] then [] else chunks[0] + Flatten(chunks[1..])
  }

  /** `sliceIntoChunks`: a loop over the start offsets 0, size, 2*size, ... below the length, appending the slice of `size` items at each. */
  method SliceIntoChunks<T>(arr: seq<T>, size: nat) returns (chunks: seq<seq<T>>)
    requires size >= 1
    ensures chunks == Chunks(arr, size)
    ensures Flatten(chunks) == arr
    ensures |chunks| == CeilDiv(|arr|, size)
  {
    chunks := [];
    var i := 0;
    while i < |arr|
      invariant Chunks(arr, size) == chunks + Chunks(arr[Min(i, |arr|)..], size)
      decreases |arr| - i
    {
      var rest := arr[i..];
      assert Chunks(rest, size) == [Slice(arr, i, i + size)] + Chunks(arr[Min(i + size, |arr|)..], size) by {
        if |rest| > size {
          assert rest[..size] == arr[i..i + size] == Slice(arr, i, i + size);
          assert rest[size..] == arr[i + size..];
          assert Chunks(rest, size) == [rest[..size]] + Chunks(rest[size..], size);
        } else {
          assert rest == arr[i..|arr|] == Slice(arr, i, i + size);
          assert arr[Min(i + size, |arr|)..] == [];
          assert Chunks(rest, size) == [rest];
        }
      }
      chunks := chunks + [Slice(arr, i, i + size)];
      i := i + size;
    }
    assert arr[Min(i, |arr|)..] == [];
    FlattenChunks(arr, size);
    ChunkCount(arr, size);
  }

  /** The chunks concatenate back to the input: same order, nothing lost, nothing duplicated. */
  lemma {:induction false} FlattenChunks<T>(s: seq<T>, size: nat)
    requires size >= 1
    ensures Flatten(Chunks(s, size)) == s
    decreases |s|
  {
    if |s| == 0 {
    } else if |s| <= size {
      assert Flatten([s]) == s + Flatten([]);
    } else {
      FlattenChunks(s[size..], size);
      var c := Chunks(s, size);
      assert c[0] == s[..size] && c[1..] == Chunks(s[size..], size);
      assert s == s[..size] + s[size..];
    }
  }

  /** There are ⌈|s| / size⌉ chunks; in particular no chunk at all for an empty list. */
  lemma {:induction false} ChunkCount<T>(s: seq<T>, size: nat)
    requires size >= 1
    ensures |Chunks(s, size)| == CeilDiv(|s|, size)
    ensures |Chunks(s, size)| == 0 <==> |s| == 0
    decreases |s|
  {
    if |s| > size {
      ChunkCount(s[size..], size);
    }
  }

  /** Every chunk but the last holds exactly `size` items; the last is non-empty and holds at most `size`. */
  lemma {:induction false} ChunkLengths<T>(s: seq<T>, size: nat)
    requires size >= 1
    ensures forall k :: 0 <= k < |Chunks(s, size)| - 1 ==> |Chunks(s, size)[k]| == size
    ensures |Chunks(s, size)| > 0 ==> 0 < |Chunks(s, size)[|Chunks(s, size)| - 1]| <= size
    decreases |s|
  {
    if |s| > size {
      ChunkLengths(s[size..], size);
      var c, r := Chunks(s, size), Chunks(s[size..], size);
      assert c == [s[..size]] + r;
      forall k | 0 <= k < |c| - 1 ensures |c[k]| == size {
        if k > 0 { assert c[k] == r[k - 1]; }
      }
      ChunkCount(s[size..], size);
      assert c[|c| - 1] == r[|r| - 1];
    }
  }

  /** Dropping a prefix of `size` items shifts every slice by `size`. */
  lemma SliceShift<T>(s: seq<T>, size: nat, from: nat, to: nat)
    requires size <= |s|
    ensures Slice(s[size..], from, to) == Slice(s, from + size, to + size)
  {
    var a, b := Slice(s[size..], from, to), Slice(s, from + size, to + size);
    assert |a| == |b|;
    forall j | 0 <= j < |a| ensures a[j] == b[j] {
    }
  }

  /** Chunk k is the slice starting at k*size: the items from k*size up to min((k+1)*size, |s|). */
  lemma {:induction false} ChunkAt<T>(s: seq<T>, size: nat, k: nat)
    requires size >= 1 && k < |Chunks(s, size)|
    ensures k * size < |s|
    ensures Chunks(s, size)[k] == Slice(s, k * size, k * size + size)
    ensures Chunks(s, size)[k] == s[k * size .. Min(k * size + size, |s|)]
    decreases |s|
  {
    if k > 0 {
      var rest := s[size..];
      assert Chunks(s, size)[k] == Chunks(rest, size)[k - 1];
      ChunkAt(rest, size, k - 1);
      var m := (k - 1) * size;
      assert m + size == k * size;
      SliceShift(s, size, m, m + size);
    }
  }

  /** A window at least as large as the list yields one chunk: the whole list (there is no clamping). */
  lemma OversizedWindow<T>(s: seq<T>, size: nat)
    requires size >= 1 && 0 < |s| <= size
    ensures Chunks(s, size) == [s]
  {
  }
}
