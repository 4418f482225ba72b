/** The two command-line defaults the core depends on: the window and the output directory. */
module Options {
  import opened Wrappers

  /** The window used when `--chunkSize` is absent (or falsy). */
  const DefaultWindow: int := 10

  /**
   * The window from `--chunkSize`: an absent option and the falsy value 0 both fall back to 10; any
   * other number is used as given.
   */
  function WindowSize(chunkSize: Option<int>): (w: int)
    ensures w != 0
    ensures chunkSize.None? || chunkSize == Some(0) ==> w == DefaultWindow
    ensures chunkSize.Some? && chunkSize.value != 0 ==> w == chunkSize.value
    ensures w >= 1 <==> chunkSize.None? || chunkSize.value >= 0
  {
    if chunkSize.Some? && chunkSize.value != 0 then chunkSize.value else DefaultWindow
  }

  /** The output directory from `--path`: an absent or empty value falls back to the working directory. */
  function OutputDir(path: Option<string>, cwd: string): (dir: string)
    ensures dir == cwd || (path.Some? && dir == path.value)
    ensures path.None? || path == Some([]) ==> dir == cwd
    ensures path.Some? && path.value != [] ==> dir == path.value
    ensures dir == [] ==> cwd == []
  {
    if path.Some? && path.value != [] then path.value else cwd
  }
}
