# pod-dl core, modelled in Dafny

`pod-dl` is a command-line podcast downloader. It reads an RSS feed, prints the total declared
size of its enclosures, cuts the feed's items into windows of `--chunkSize` items (10 by
default), starts the download of every item of a window together, prints the window's size,
waits for the window to finish, and then prints the percentage of windows done. Each item is written to
`<dir>/<title without '/'>.<extension>`, where `<dir>` is `--path` or the working directory and the
extension comes from a fixed MIME-type table.

This project models the deterministic part of that program:

- `Feed` (feed.dfy): feed items and the total declared size, a left fold from 0.
- `Batching` (batching.dfy): the windowing loop (`SliceIntoChunks`), which is proved equal to a
  recursive reference definition (`Chunks`). Lemmas show that the chunks concatenate back to the
  input, that there are ⌈n/size⌉ of them, that every chunk but the last is full, and that chunk k
  is the slice starting at k·size.
- `Paths` (paths.dfy): the MIME-type table as a partial map (`Option`), the file-name sanitizer
  and the destination path.
- `Options` (options.dfy): the two defaults the core reads, the window (10) and the output
  directory (the working directory).
- `Progress` (progress.dfy): the printed percentage, with exact integer rounding.
- `Driver` (driver.dfy): the top-level run as a method. It returns the run's observable trace
  (`Event`s), proved equal to a reference trace (`Windows`): the announced total, then for each
  window in turn its downloads, its size and its percentage, then "Done".

What the code does, as modelled (where one might expect otherwise):

- The window is never clamped to the list's length. A window larger than the list gives one chunk.
- The percentage counts windows, not items. 25 items in windows of 10 print 33, 67 and 100, not
  40, 80 and 100 (`Progress.TwentyFiveItemsInWindowsOfTen`).
- There is no skip-if-exists check. The code also has no per-item outcome value: failures are
  caught, logged and dropped.
- The table's extensions already start with a dot, and the path template adds another one, so a
  known type gives `title..mp3` (`Paths.DestinationKnownType`).
- An unknown MIME type makes the lookup `undefined`. The template prints that as the text
  `undefined`, giving `title.undefined` (`Paths.DestinationUnknownType`). The model keeps this
  behaviour rather than choosing a fallback.
- Two items with the same MIME type whose titles differ only in '/' characters get the same
  path. Nothing detects the collision (`Paths.SanitizeIgnoresSlash`, `Paths.SanitizeCollides`).

## Model

| member | source | states |
|---|---|---|
| Feed.SumFromIsTotal | index.js:75-77 | `SumFrom`, folding from an accumulator gives the accumulator plus the sum of the declared lengths |
| Feed.FeedSizeIsTotal | index.js:74-77 | the feed size (`FeedSize`, the fold `SumFrom` started from 0) is exactly the sum of all declared lengths, in feed order, starting from 0; an empty feed has size 0 |
| Feed.FeedSizeAppend | index.js:74-77 | the feed size of a concatenation is the sum of the two feed sizes |
| Feed.FeedSizeBoundsItems | index.js:74-77 | every item's declared length is at most the feed size |
| Batching.Slice | index.js:16 | the slice taken is the contiguous run of the list starting at `from`, ending at `to` or at the list's end if that comes first |
| Batching.CeilDiv | index.js:15 | the number of windows c satisfies n ≤ c·size < n + size, that is c = ⌈n/size⌉ |
| Batching.CeilDivUnique | index.js:15 | only one count satisfies those bounds |
| Batching.CeilDivFormula | index.js:15 | the count equals (n + size − 1) / size |
| Batching.SliceIntoChunks | index.js:13-19 | the loop's result equals the reference chunking, concatenates back to the input, and has ⌈n/size⌉ chunks |
| Batching.FlattenChunks | index.js:13-19 | the chunks concatenate back to the input exactly: same order, nothing lost, nothing duplicated |
| Batching.ChunkCount | index.js:15 | there are ⌈n/size⌉ chunks, and none exactly when the list is empty |
| Batching.ChunkLengths | index.js:15-16 | every chunk except the last has exactly `size` items; the last is non-empty with at most `size` |
| Batching.ChunkAt | index.js:15-16 | chunk k is the slice from k·size to min((k+1)·size, n), and k·size < n |
| Batching.OversizedWindow | index.js:15-16 | a window at least as large as a non-empty list yields the single chunk holding the whole list |
| Paths.FileExtensionCases | index.js:60-72 | the lookup (`FileExtension`, a partial map) is defined for exactly the nine listed MIME types, and its answers are among .mp3, .flac, .ogg, .m4a, .wav, .aac |
| Paths.ExtensionShape | index.js:61-71 | every table extension starts with a dot, has at least one more character and contains no '/' |
| Paths.Sanitize | index.js:25 | the file name has no '/', is no longer than the title, and keeps every other character as often as the title has it |
| Paths.SanitizeAppend | index.js:25 | sanitizing works character by character, so it distributes over concatenation and keeps the order of the kept characters |
| Paths.SanitizeKeeps | index.js:25 | a title with no '/' is left unchanged |
| Paths.SanitizeIdempotent | index.js:25 | sanitizing a file name again changes nothing |
| Paths.SanitizeIgnoresSlash | index.js:25-27 | inserting a '/' anywhere in a title leaves its file name unchanged, so titles that differ only in '/' get the same file name |
| Paths.SanitizeCollides | index.js:25-27 | the distinct titles "a/b" and "ab" get the same file name |
| Paths.DestinationInsideDir | index.js:23-27 | the path (`DestinationPath`: directory, '/', sanitized title, '.', and the extension as printed by `ExtensionText`) is the output directory, a '/', then a part with no '/': the file lands directly in the directory |
| Paths.DestinationKnownType | index.js:27 | for a known type the path ends with '.' followed by the table's extension, so two dots precede the suffix |
| Paths.DestinationUnknownType | index.js:27 | for an unknown type the lookup is absent, `ExtensionText` prints it as "undefined", and the path ends with ".undefined" |
| Options.WindowSize | index.js:11 | with no option, or with 0, the window is 10; any other given value is used as the window; the window is never 0 and is positive exactly when the option is absent or not negative |
| Options.OutputDir | index.js:23 | the directory is the working directory when `--path` is absent or empty, and the given path otherwise |
| Progress.Percentage | index.js:94 | the percentage p is the integer nearest to 100·done/total, halves rounded up: 2·total·p ≤ 200·done + total < 2·total·(p+1) |
| Progress.PercentageMonotone | index.js:94 | more windows done never gives a smaller percentage |
| Progress.PercentageRange | index.js:94 | the percentage is at most 100 when done ≤ total, and exactly 100 when done = total |
| Progress.ProgressLogShape | index.js:89-95 | one percentage per window; the sequence never decreases, stays within 0..100, and ends at 100 when there is a window |
| Progress.TwentyFiveItemsInWindowsOfTen | index.js:88-95 | any 25 items in windows of 10 form windows of 10, 10 and 5, and the three windows print 33, 67 and 100 |
| Driver.RequestsAt | index.js:21-27 | the downloads of a window (`Requests`, one `download` call per item, index.js:90) are one per item, in order, each fetching the item's URL into the item's destination path |
| Driver.WindowsProjections | index.js:89-95 | the reference trace of the windows from k on downloads exactly the items of those windows in order, prints their sizes and their percentages in window order, and holds no total and no "Done" |
| Driver.Run | index.js:82-101 | the trace is the total size, then for each window in turn its downloads, its size and its percentage (`Windows`), then "Done"; so its downloads are one per item in feed order into the output directory, and it prints each window's size and the window-counting percentage |
| Driver.RunGuarantees | index.js:82-101 | from the run's trace: the total comes first and "Done" last and nowhere else; every item is downloaded exactly once and in order; ⌈n/window⌉ sizes and percentages are printed; the percentages never decrease, stay within 0..100, and end at 100 for a non-empty feed |

## Left out

- Fetching and parsing the feed (`getRssFeed`, `rss-parser`) and its missing-URL error: network I/O and a foreign library. The model's input is the parsed item list.
- The HTTP fetch and the file write inside `download`: each item is modelled as one `Download(url, path)` event. The catch-and-log around them returns nothing, so no outcome is modelled.
- Driver.Run: the downloads of a window run concurrently in the code (`Promise.all`). The model launches them one after the other in item order, so it says nothing about interleavings or in-flight bounds.
- `formatBytes`: floating-point logarithms and `toFixed`. The trace carries the raw byte total instead.
- `console.time`, `console.timeLog` and `console.timeEnd` (elapsed-time lines) and yargs argument parsing. The parsed options are inputs.
- Progress.Percentage: the code computes the percentage in floating point. The model uses exact rational rounding (halves up), so a float error at an exact .5 boundary is not modelled.
- Every item is assumed to have an enclosure and a title. In the code, an item without an enclosure makes the size sum throw before the total is printed, and the run ends before any download. An item without a title makes `download` throw after the fetch has started; the error is logged and no file is written. The model records a total and a download for every item.
- The `Number(...)` conversion of enclosure lengths: lengths are taken as naturals, and a NaN from malformed feed data is not modelled.
- Options.WindowSize: a non-integer or non-numeric `--chunkSize` is not modelled.
- Driver.Run: a negative `--chunkSize` is excluded by its requires. On a non-empty feed the code's loop then never ends. On an empty feed the code ends normally (total, then "Done"), and the model does not cover that run.
- Paths.FileExtension: the code indexes a plain object literal, so inherited property names such as "constructor" return an inherited value rather than `undefined`. The model treats every type outside the nine entries as absent.
- Paths.Sanitize: characters are modelled as Dafny `char`s, and the code works on UTF-16 code units. Removing '/' is the same in both.
