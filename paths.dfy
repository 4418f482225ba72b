/** Where `download` writes an item: the sanitized title and the extension of its MIME type. */
module Paths {
  import opened Wrappers
  import opened Feed

  /** The object literal of `getFileExtension`: MIME type to extension, each value with its leading dot. */
  const Extensions: map<string, string> := map[
    "audio/mpeg" := ".mp3",
    "audio/mp3" := ".mp3",
    "audio/flac" := ".flac",
    "audio/ogg" := ".ogg",
    "audio/vorbis" := ".ogg",
    "audio/mp4" := ".m4a",
    "audio/wav" := ".wav",
    "audio/x-wav" := ".wav",
    "audio/aac" := ".aac"
  ]

  /** `getFileExtension`: the table entry for the type, or `undefined` (None) for any other type. */
  function FileExtension(mimeType: string): Option<string> {
    if mimeType in Extensions then Some(Extensions[mimeType]) else None
  }

  /** The lookup is defined for exactly the nine listed types, and each answer is a dot followed by a short suffix. */
  lemma FileExtensionCases(mimeType: string)
    ensures FileExtension(mimeType).Some? <==>
      mimeType in {"audio/mpeg", "audio/mp3", "audio/flac", "audio/ogg", "audio/vorbis",
                   "audio/mp4", "audio/wav", "audio/x-wav", "audio/aac"}
    ensures FileExtension(mimeType).Some? ==>
      FileExtension(mimeType).value in {".mp3", ".flac", ".ogg", ".m4a", ".wav", ".aac"}
  {
  }

  /** Every extension in the table starts with a dot and contains no path separator. */
  lemma ExtensionShape(mimeType: string)
    requires FileExtension(mimeType).Some?
    ensures |FileExtension(mimeType).value| >= 2 && FileExtension(mimeType).value[0] == '.'
    ensures '/' !in FileExtension(mimeType).value
  {
    FileExtensionCases(mimeType);
  }

  /** The file name: the title with every '/' removed and nothing else changed. */
  function Sanitize(title: string): (name: string)
    ensures '/' !in name
    ensures |name| <= |title|
    ensures forall c :: c != '/' ==> multiset(name)[c] == multiset(title)[c]
    decreases |title|
  {
    if title == [] then []
    else
      assert title == [title[0]] + title[1..];
      (if title[0] == '/' then [] else [title[0]]) + Sanitize(title[1..])
  }

  /** Sanitizing works character by character, so it distributes over concatenation (other characters keep their order). */
  lemma {:induction false} SanitizeAppend(a: string, b: string)
    ensures Sanitize(a + b) == Sanitize(a) + Sanitize(b)
    decreases |a|
  {
    if a == [] {
      assert a + b == b;
    } else {
      assert (a + b)[0] == a[0] && (a + b)[1..] == a[1..] + b;
      SanitizeAppend(a[1..], b);
    }
  }

  /** A title without '/' is kept as it is; so sanitizing twice is the same as once. */
  lemma {:induction false} SanitizeKeeps(title: string)
    requires '/' !in title
    ensures Sanitize(title) == title
    decreases |title|
  {
    if title != [] {
      assert title[0] != '/' && '/' !in title[1..];
      SanitizeKeeps(title[1..]);
    }
  }

  lemma SanitizeIdempotent(title: string)
    ensures Sanitize(Sanitize(title)) == Sanitize(title)
  {
    SanitizeKeeps(Sanitize(title));
  }

  /** A '/' anywhere in a title does not affect its file name, so titles differing only in '/' collide. */
  lemma SanitizeIgnoresSlash(a: string, b: string)
    ensures Sanitize(a + "/" + b) == Sanitize(a + b)
  {
    SanitizeAppend(a + "/", b);
    SanitizeAppend(a, "/");
    SanitizeAppend(a, b);
    assert Sanitize("/") == [];
  }

  /** Distinct titles can share a file name: nothing in `download` detects the collision. */
  lemma SanitizeCollides()
    ensures Sanitize("a/b") == Sanitize("ab") == "ab"
  {
    SanitizeKeeps("ab");
    assert "a/b" == "a" + "/b";
    SanitizeAppend("a", "/b");
    assert "/b" == "/" + "b";
    SanitizeAppend("/", "b");
    SanitizeKeeps("a");
    SanitizeKeeps("b");
    assert Sanitize("/") == [];
  }

  /** How a template literal prints the lookup result: the extension itself, or the text "undefined". */
  function ExtensionText(ext: Option<string>): string {
    match ext
    case Some(e) => e
    case None => "undefined"
  }

  /** The path `download` writes to: directory, '/', file name, '.', then the printed extension. */
  function DestinationPath(dir: string, item: Item): string {
    dir + "/" + Sanitize(item.title) + "." + ExtensionText(FileExtension(item.mimeType))
  }

  /** The file is written directly inside the output directory: no '/' follows the directory's own separator. */
  lemma DestinationInsideDir(dir: string, item: Item)
    ensures var p := DestinationPath(dir, item);
      |p| > |dir| && p[..|dir| + 1] == dir + "/" && '/' !in p[|dir| + 1..]
  {
    var p := DestinationPath(dir, item);
    var ext := ExtensionText(FileExtension(item.mimeType));
    if FileExtension(item.mimeType).Some? {
      ExtensionShape(item.mimeType);
    }
    assert '/' !in ext;
    var rest := Sanitize(item.title) + "." + ext;
    assert p == (dir + "/") + rest;
    assert p[|dir| + 1..] == rest;
    assert forall j :: 0 <= j < |rest| ==> rest[j] != '/';
  }

  /**
   * For a known type the path is "<dir>/<name>." followed by the table's extension, which itself starts
   * with a dot: the file name carries two dots before the suffix ("title..mp3").
   */
  lemma DestinationKnownType(dir: string, item: Item, ext: string)
    requires FileExtension(item.mimeType) == Some(ext)
    ensures var p := DestinationPath(dir, item);
      |p| >= |ext| + 1 && p[|p| - |ext| - 1..] == "." + ext &&
      p[|p| - |ext| - 1] == '.' && p[|p| - |ext|] == '.'
  {
    ExtensionShape(item.mimeType);
    var p := DestinationPath(dir, item);
    assert p == (dir + "/" + Sanitize(item.title)) + ("." + ext);
  }

  /** For an unknown type the lookup is undefined and the path ends in ".undefined". */
  lemma DestinationUnknownType(dir: string, item: Item)
    requires FileExtension(item.mimeType).None?
    ensures var p := DestinationPath(dir, item);
      |p| >= 10 && p[|p| - 10..] == ".undefined"
  {
    var p := DestinationPath(dir, item);
    assert p == (dir + "/" + Sanitize(item.title)) + ".undefined";
  }
}
