/**
 * The top-level run: announce the feed's total size, split the items into windows, launch the
 * download of every item of a window, then print the window's size and the percentage done.
 */
module Driver {
  import opened Wrappers
  import opened Feed
  import opened Batching
  import opened Paths
  import opened Options
  import opened Progress

  /** What one run observably does, in order. */
  datatype Event =
    | Total(bytes: nat)                  // "Starting to download a total of ..." (before formatting)
    | Download(url: string, path: string) // one item: fetch the enclosure URL, write the body to path
    | Launched(count: nat)               // the size of the window just launched
    | Percent(value: nat)                // "<percentage> %."
    | Finished                           // "Done."

  /** The downloads of a log, in order. */
  function Downloads(log: seq<Event>): seq<Event>
    decreases |log|
  {
    if log == [] then [] else (if log[0].Download? then [log[0]] else []) + Downloads(log[1..])
  }

  /** The window sizes printed in a log, in order. */
  function Launches(log: seq<Event>): seq<nat>
    decreases |log|
  {
    if log == [] then [] else (if log[0].Launched? then [log[0].count] else []) + Launches(log[1..])
  }

  /** The percentages printed in a log, in order. */
  function Percents(log: seq<Event>): seq<nat>
    decreases |log|
  {
    if log == [] then [] else (if log[0].Percent? then [log[0].value] else []) + Percents(log[1..])
  }

  /** Each projection of a log distributes over concatenation. */
  lemma {:induction false} DownloadsAppend(a: seq<Event>, b: seq<Event>)
    ensures Downloads(a + b) == Downloads(a) + Downloads(b)
    decreases |a|
  {
    if a == [] {
      assert a + b == b;
    } else {
      assert (a + b)[0] == a[0] && (a + b)[1..] == a[1..] + b;
      DownloadsAppend(a[1..], b);
    }
  }

  lemma {:induction false} LaunchesAppend(a: seq<Event>, b: seq<Event>)
    ensures Launches(a + b) == Launches(a) + Launches(b)
    decreases |a|
  {
    if a == [] {
      assert a + b == b;
    } else {
      assert (a + b)[0] == a[0] && (a + b)[1..] == a[1..] + b;
      LaunchesAppend(a[1..], b);
    }
  }

  lemma {:induction false} PercentsAppend(a: seq<Event>, b: seq<Event>)
    ensures Percents(a + b) == Percents(a) + Percents(b)
    decreases |a|
  {
    if a == [] {
      assert a + b == b;
    } else {
      assert (a + b)[0] == a[0] && (a + b)[1..] == a[1..] + b;
      PercentsAppend(a[1..], b);
    }
  }

  lemma ProjectionsAppend(a: seq<Event>, b: seq<Event>)
    ensures Downloads(a + b) == Downloads(a) + Downloads(b)
    ensures Launches(a + b) == Launches(a) + Launches(b)
    ensures Percents(a + b) == Percents(a) + Percents(b)
  {
    DownloadsAppend(a, b);
    LaunchesAppend(a, b);
    PercentsAppend(a, b);
  }

  /** The download each item stands for: its enclosure URL and its destination path. */
  function Requests(dir: string, items: seq<Item>): seq<Event>
    decreases |items|
  {
    if items == [] then [] else [Download(items[0].url, DestinationPath(dir, items[0]))] + Requests(dir, items[1..])
  }

  lemma {:induction false} RequestsAppend(dir: string, a: seq<Item>, b: seq<Item>)
    ensures Requests(dir, a + b) == Requests(dir, a) + Requests(dir, b)
    decreases |a|
  {
    if a == [] {
      assert a + b == b;
    } else {
      assert (a + b)[0] == a[0] && (a + b)[1..] == a[1..] + b;
      RequestsAppend(dir, a[1..], b);
    }
  }

  /** The downloads of a feed are one per item, in feed order, each to that item's own destination. */
  lemma {:induction false} RequestsAt(dir: string, items: seq<Item>)
    ensures |Requests(dir, items)| == |items|
    ensures forall k :: 0 <= k < |items| ==>
      Requests(dir, items)[k] == Download(items[k].url, DestinationPath(dir, items[k]))
    decreases |items|
  {
    if items != [] {
      RequestsAt(dir, items[1..]);
      var r := Requests(dir, items);
      assert r == [Download(items[0].url, DestinationPath(dir, items[0]))] + Requests(dir, items[1..]);
      assert forall k :: 1 <= k < |items| ==> r[k] == Requests(dir, items[1..])[k - 1] && items[k] == items[1..][k - 1];
    }
  }

  /** A window's downloads are all downloads; they print neither a size nor a percentage. */
  lemma {:induction false} RequestsOnlyDownload(dir: string, items: seq<Item>)
    ensures forall e :: e in Requests(dir, items) ==> e.Download?
    ensures Downloads(Requests(dir, items)) == Requests(dir, items)
    ensures Launches(Requests(dir, items)) == [] && Percents(Requests(dir, items)) == []
    decreases |items|
  {
    if items != [] {
      RequestsOnlyDownload(dir, items[1..]);
      var r := Requests(dir, items);
      assert r == [r[0]] + Requests(dir, items[1..]);
      assert r[0].Download? && r[1..] == Requests(dir, items[1..]);
    }
  }

  /** The projections of the log after one window: its downloads, then its size, then its percentage. */
  lemma WindowProjections(log: seq<Event>, dir: string, chunk: seq<Item>, tail: seq<Event>)
    requires |tail| == 2 && tail[0].Launched? && tail[1].Percent?
    ensures Downloads(log + Requests(dir, chunk) + tail) == Downloads(log) + Requests(dir, chunk)
    ensures Launches(log + Requests(dir, chunk) + tail) == Launches(log) + [tail[0].count]
    ensures Percents(log + Requests(dir, chunk) + tail) == Percents(log) + [tail[1].value]
  {
    RequestsOnlyDownload(dir, chunk);
    ProjectionsAppend(log, Requests(dir, chunk));
    ProjectionsAppend(log + Requests(dir, chunk), tail);
    var rest := tail[1..];
    assert rest[1..] == [];
    assert Downloads(rest) == [] && Launches(rest) == [] && Percents(rest) == [tail[1].value];
    assert Downloads(tail) == [] && Launches(tail) == [tail[0].count] && Percents(tail) == [tail[1].value];
  }

  /** The sizes of a sequence of windows. */
  function ChunkSizes<T>(chunks: seq<seq<T>>): seq<nat> {
    seq(|chunks|, k requires 0 <= k < |chunks| => |chunks[k]|)
  }

  /**
   * Reference definition of windows k, k+1, ... of a run: each window's downloads are launched,
   * its size is printed, and once they have all settled its percentage is printed, before the
   * next window starts.
   */
  function Windows(dir: string, chunks: seq<seq<Item>>, k: nat): seq<Event>
    requires k <= |chunks|
    decreases |chunks| - k
  {
    if k == |chunks| then []
    else
      Requests(dir, chunks[k]) + [Launched(|chunks[k]|), Percent(Percentage(k + 1, |chunks|))]
      + Windows(dir, chunks, k + 1)
  }

  /** A window's share of the log, followed by the later windows. */
  lemma WindowsUnfold(dir: string, chunks: seq<seq<Item>>, k: nat)
    requires k < |chunks|
    ensures Windows(dir, chunks, k) ==
      (Requests(dir, chunks[k]) + [Launched(|chunks[k]|), Percent(Percentage(k + 1, |chunks|))])
      + Windows(dir, chunks, k + 1)
  {
  }

  /** One window's own events: its downloads, then its size, then its percentage. */
  lemma WindowHead(dir: string, chunk: seq<Item>, p: nat)
    ensures var head := Requests(dir, chunk) + [Launched(|chunk|), Percent(p)];
      Downloads(head) == Requests(dir, chunk) && Launches(head) == [|chunk|] && Percents(head) == [p]
  {
    var tail := [Launched(|chunk|), Percent(p)];
    WindowProjections([], dir, chunk, tail);
    assert [] + Requests(dir, chunk) + tail == Requests(dir, chunk) + tail;
  }

  lemma FlattenFrom<T>(chunks: seq<seq<T>>, k: nat)
    requires k < |chunks|
    ensures Flatten(chunks[k..]) == chunks[k] + Flatten(chunks[k + 1..])
  {
    assert chunks[k..][0] == chunks[k] && chunks[k..][1..] == chunks[k + 1..];
  }

  /** The windows from k on download the items of those windows, in order. */
  lemma {:induction false} WindowsDownloads(dir: string, chunks: seq<seq<Item>>, k: nat)
    requires k <= |chunks|
    ensures Downloads(Windows(dir, chunks, k)) == Requests(dir, Flatten(chunks[k..]))
    decreases |chunks| - k
  {
    if k == |chunks| {
      assert chunks[k..] == [];
    } else {
      var chunk := chunks[k];
      var head := Requests(dir, chunk) + [Launched(|chunk|), Percent(Percentage(k + 1, |chunks|))];
      WindowsDownloads(dir, chunks, k + 1);
      WindowsUnfold(dir, chunks, k);
      WindowHead(dir, chunk, Percentage(k + 1, |chunks|));
      DownloadsAppend(head, Windows(dir, chunks, k + 1));
      FlattenFrom(chunks, k);
      RequestsAppend(dir, chunk, Flatten(chunks[k + 1..]));
    }
  }

  /** The windows from k on print their sizes, in window order. */
  lemma {:induction false} WindowsLaunches(dir: string, chunks: seq<seq<Item>>, k: nat)
    requires k <= |chunks|
    ensures Launches(Windows(dir, chunks, k)) == ChunkSizes(chunks[k..])
    decreases |chunks| - k
  {
    if k < |chunks| {
      var chunk := chunks[k];
      var head := Requests(dir, chunk) + [Launched(|chunk|), Percent(Percentage(k + 1, |chunks|))];
      WindowsLaunches(dir, chunks, k + 1);
      WindowsUnfold(dir, chunks, k);
      WindowHead(dir, chunk, Percentage(k + 1, |chunks|));
      LaunchesAppend(head, Windows(dir, chunks, k + 1));
      assert ChunkSizes(chunks[k..]) == [|chunk|] + ChunkSizes(chunks[k + 1..]);
    }
  }

  /** The windows from k on print their percentages, in window order. */
  lemma {:induction false} WindowsPercents(dir: string, chunks: seq<seq<Item>>, k: nat)
    requires k <= |chunks|
    ensures Percents(Windows(dir, chunks, k)) == ProgressLog(|chunks|)[k..]
    decreases |chunks| - k
  {
    if k < |chunks| {
      var chunk, m := chunks[k], |chunks|;
      var head := Requests(dir, chunk) + [Launched(|chunk|), Percent(Percentage(k + 1, m))];
      WindowsPercents(dir, chunks, k + 1);
      WindowsUnfold(dir, chunks, k);
      WindowHead(dir, chunk, Percentage(k + 1, |chunks|));
      PercentsAppend(head, Windows(dir, chunks, k + 1));
      assert ProgressLog(m)[k..] == [Percentage(k + 1, m)] + ProgressLog(m)[k + 1..];
    }
  }

  /** The windows contain neither a total nor a "Done". */
  lemma {:induction false} WindowsEvents(dir: string, chunks: seq<seq<Item>>, k: nat)
    requires k <= |chunks|
    ensures forall e :: e in Windows(dir, chunks, k) ==> !e.Total? && !e.Finished?
    decreases |chunks| - k
  {
    if k < |chunks| {
      WindowsEvents(dir, chunks, k + 1);
      WindowsUnfold(dir, chunks, k);
      RequestsOnlyDownload(dir, chunks[k]);
    }
  }

  /**
   * The windows from k on download the items of those windows in order, print their sizes and
   * their percentages in window order, and contain neither a total nor a "Done".
   */
  lemma WindowsProjections(dir: string, chunks: seq<seq<Item>>, k: nat)
    requires k <= |chunks|
    ensures Downloads(Windows(dir, chunks, k)) == Requests(dir, Flatten(chunks[k..]))
    ensures Launches(Windows(dir, chunks, k)) == ChunkSizes(chunks[k..])
    ensures Percents(Windows(dir, chunks, k)) == ProgressLog(|chunks|)[k..]
    ensures forall e :: e in Windows(dir, chunks, k) ==> !e.Total? && !e.Finished?
  {
    WindowsDownloads(dir, chunks, k);
    WindowsLaunches(dir, chunks, k);
    WindowsPercents(dir, chunks, k);
    WindowsEvents(dir, chunks, k);
  }

  /** A total before the windows and a "Done" after them add nothing to the projections. */
  lemma RunProjections(bytes: nat, windows: seq<Event>)
    ensures var log := [Total(bytes)] + windows + [Finished];
      Downloads(log) == Downloads(windows) && Launches(log) == Launches(windows) &&
      Percents(log) == Percents(windows)
  {
    ProjectionsAppend([Total(bytes)], windows);
    ProjectionsAppend([Total(bytes)] + windows, [Finished]);
    assert [Total(bytes)][1..] == [] && [Finished][1..] == [];
  }

  /**
   * The whole run for a list of items, the `--chunkSize` and `--path` options and the working
   * directory. Within a window the downloads are launched in item order (the model runs them one
   * after the other; the source awaits them together).
   */
  method Run(items: seq<Item>, chunkSize: Option<int>, path: Option<string>, cwd: string)
    returns (log: seq<Event>)
    requires chunkSize.None? || chunkSize.value >= 0
    ensures log == [Total(FeedSize(items))]
      + Windows(OutputDir(path, cwd), Chunks(items, WindowSize(chunkSize)), 0) + [Finished]
    ensures Downloads(log) == Requests(OutputDir(path, cwd), items)
    ensures Launches(log) == ChunkSizes(Chunks(items, WindowSize(chunkSize)))
    ensures Percents(log) == ProgressLog(|Chunks(items, WindowSize(chunkSize))|)
  {
    log := [Total(FeedSize(items))];
    var chunks := SliceIntoChunks(items, WindowSize(chunkSize));
    var dir := OutputDir(path, cwd);
    var i := 0;
    while i < |chunks|
      invariant 0 <= i <= |chunks|
      invariant log + Windows(dir, chunks, i) == [Total(FeedSize(items))] + Windows(dir, chunks, 0)
    {
      var chunk := chunks[i];
      var window := Requests(dir, chunk) + [Launched(|chunk|), Percent(Percentage(i + 1, |chunks|))];
      assert Windows(dir, chunks, i) == window + Windows(dir, chunks, i + 1);
      assert log + Windows(dir, chunks, i) == (log + window) + Windows(dir, chunks, i + 1);
      log := log + window;
      i := i + 1;
    }
    assert log == [Total(FeedSize(items))] + Windows(dir, chunks, 0);
    log := log + [Finished];
    RunProjections(FeedSize(items), Windows(dir, chunks, 0));
    WindowsProjections(dir, chunks, 0);
    assert chunks[0..] == chunks;
    assert ProgressLog(|chunks|)[0..] == ProgressLog(|chunks|);
  }

  /** A log made of a total, events that are neither totals nor "Done", and a "Done" has those only at its ends. */
  lemma LogEnds(bytes: nat, windows: seq<Event>, log: seq<Event>)
    requires forall e :: e in windows ==> !e.Total? && !e.Finished?
    requires log == [Total(bytes)] + windows + [Finished]
    ensures log[0] == Total(bytes) && log[|log| - 1] == Finished
    ensures forall j :: 0 < j < |log| - 1 ==> !log[j].Total? && !log[j].Finished?
  {
    forall j | 0 < j < |log| - 1 ensures !log[j].Total? && !log[j].Finished? {
      assert log[j] == windows[j - 1];
    }
  }

  /** What the projections of a run's log say, given the downloads, sizes and percentages it has. */
  lemma ProjectionGuarantees(items: seq<Item>, w: nat, dir: string, log: seq<Event>)
    requires w >= 1
    requires Downloads(log) == Requests(dir, items)
    requires Launches(log) == ChunkSizes(Chunks(items, w))
    requires Percents(log) == ProgressLog(|Chunks(items, w)|)
    ensures |Downloads(log)| == |items|
    ensures forall k :: 0 <= k < |items| ==>
      Downloads(log)[k] == Download(items[k].url, DestinationPath(dir, items[k]))
    ensures |Percents(log)| == |Launches(log)| == CeilDiv(|items|, w)
    ensures forall j, k :: 0 <= j <= k < |Percents(log)| ==> Percents(log)[j] <= Percents(log)[k]
    ensures forall k :: 0 <= k < |Percents(log)| ==> Percents(log)[k] <= 100
    ensures |items| > 0 ==> |Percents(log)| > 0 && Percents(log)[|Percents(log)| - 1] == 100
  {
    RequestsAt(dir, items);
    ChunkCount(items, w);
    ProgressLogShape(|Chunks(items, w)|);
  }

  /**
   * What a run promises, stated on its trace: the total comes first and "Done" last, and nowhere
   * else; every item is downloaded exactly once, in feed order, into the output directory; one size
   * and one percentage is printed per window; the percentages never decrease, stay within 0..100
   * and end at 100 whenever the feed has an item.
   */
  lemma RunGuarantees(items: seq<Item>, chunkSize: Option<int>, path: Option<string>, cwd: string, log: seq<Event>)
    requires chunkSize.None? || chunkSize.value >= 0
    requires log == [Total(FeedSize(items))]
      + Windows(OutputDir(path, cwd), Chunks(items, WindowSize(chunkSize)), 0) + [Finished]
    ensures log[0] == Total(FeedSize(items)) && log[|log| - 1] == Finished
    ensures forall j :: 0 < j < |log| - 1 ==> !log[j].Total? && !log[j].Finished?
    ensures |Downloads(log)| == |items|
    ensures forall k :: 0 <= k < |items| ==>
      Downloads(log)[k] == Download(items[k].url, DestinationPath(OutputDir(path, cwd), items[k]))
    ensures |Percents(log)| == |Launches(log)| == CeilDiv(|items|, WindowSize(chunkSize))
    ensures forall j, k :: 0 <= j <= k < |Percents(log)| ==> Percents(log)[j] <= Percents(log)[k]
    ensures forall k :: 0 <= k < |Percents(log)| ==> Percents(log)[k] <= 100
    ensures |items| > 0 ==> |Percents(log)| > 0 && Percents(log)[|Percents(log)| - 1] == 100
  {
    var dir, w := OutputDir(path, cwd), WindowSize(chunkSize);
    var chunks := Chunks(items, w);
    var windows := Windows(dir, chunks, 0);
    WindowsProjections(dir, chunks, 0);
    LogEnds(FeedSize(items), windows, log);
    RunProjections(FeedSize(items), windows);
    assert chunks[0..] == chunks;
    assert ProgressLog(|chunks|)[0..] == ProgressLog(|chunks|);
    FlattenChunks(items, w);
    ProjectionGuarantees(items, w, dir, log);
  }
}
