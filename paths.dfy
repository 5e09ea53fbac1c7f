/** The path and string vocabulary the engine relies on: pathlib's `suffix`,
    `str.startswith`/`endswith`, `os.path.join`/`basename`, the `*ext` glob
    pattern, and directory entries. A directory is the sequence of its entries
    in listing order. */
module Paths {
  import opened Wrappers

  /** One entry of a directory listing. */
  datatype Entry = Entry(name: string, isFile: bool)

  /** A pathlib path `parent / name`. */
  datatype Path = Path(parent: string, name: string)

  function StartsWith(s: string, p: string): bool
  {
    |p| <= |s| && s[..|p|] == p
  }

  function EndsWith(s: string, p: string): bool
  {
    |p| <= |s| && s[|s| - |p|..] == p
  }

  /** Position of the last `c` in `s`, or -1 when there is none. */
  function LastIndexOf(s: string, c: char): (i: int)
    ensures -1 <= i < |s|
    ensures i >= 0 ==> s[i] == c
    ensures forall j :: i < j < |s| ==> s[j] != c
  {
    if s == [] then -1
    else if s[|s| - 1] == c then |s| - 1
    else LastIndexOf(s[..|s| - 1], c)
  }

  /** pathlib's `PurePath.suffix`: from the last dot on, provided that dot is
      neither the first nor the last character of the name. */
  function Suffix(name: string): string
  {
    var i := LastIndexOf(name, '.');
    if 0 < i < |name| - 1 then name[i..] else ""
  }

  /** A non-empty suffix starts with the only dot it contains, is shorter than
      the name and ends it. */
  lemma SuffixShape(name: string)
    ensures Suffix(name) != "" ==>
              var r := Suffix(name);
              |r| >= 2 && r[0] == '.' && '.' !in r[1..] &&
              |r| < |name| && name == name[..|name| - |r|] + r
  {
    var i := LastIndexOf(name, '.');
    if 0 < i < |name| - 1 {
      var r := name[i..];
      assert r[1..] == name[i + 1..];
    }
  }

  /** Conversely, `stem + "." + ext` with a non-empty stem and a non-empty,
      dot-free extension has suffix `"." + ext`. */
  lemma SuffixOfSplit(stem: string, ext: string)
    requires stem != "" && ext != "" && '.' !in ext
    ensures Suffix(stem + "." + ext) == "." + ext
  {
    var name := stem + "." + ext;
    var k := |stem|;
    assert name[k] == '.';
    forall j | k < j < |name|
      ensures name[j] != '.'
    {
      assert name[j] == ext[j - k - 1];
    }
    assert LastIndexOf(name, '.') == k;
    assert name[k..] == "." + ext;
  }

  /** A plain `.mp4` file, a double extension, a dot-file and a name ending in a dot. */
  lemma SuffixExamples()
    ensures Suffix("video.mp4") == ".mp4"
    ensures Suffix("archive.tar.gz") == ".gz"
    ensures Suffix(".mp4") == ""
    ensures Suffix("video.") == ""
  {
    SuffixOfSplit("video", "mp4");
    assert "video" + "." + "mp4" == "video.mp4";
    SuffixOfSplit("archive.tar", "gz");
    assert "archive.tar" + "." + "gz" == "archive.tar.gz";
    var d := ".mp4";
    assert d[1] != '.' && d[2] != '.' && d[3] != '.';
    assert LastIndexOf(d, '.') == 0;
    assert LastIndexOf("video.", '.') == 5;
  }

  /** `os.path.join(a, b)` on POSIX: an absolute `b` replaces `a`; otherwise `b`
      is appended, with a `/` in between unless `a` is empty or already ends in one. */
  function Join(a: string, b: string): (r: string)
    ensures EndsWith(r, b)
  {
    if StartsWith(b, "/") then b
    else if a == [] || EndsWith(a, "/") then a + b
    else a + "/" + b
  }

  /** `os.path.basename(p)`: everything after the last `/`. */
  function Basename(p: string): (r: string)
    ensures '/' !in r
    ensures EndsWith(p, r)
  {
    var i := LastIndexOf(p, '/');
    p[i + 1..]
  }

  /** The last `c` of `a + b` is the last character of `a` when `b` holds no
      `c` and `a` is empty or ends in `c`. */
  lemma {:induction false} LastIndexOfAppend(a: string, b: string, c: char)
    requires c !in b
    requires a == [] || a[|a| - 1] == c
    ensures LastIndexOf(a + b, c) == |a| - 1
    decreases |b|
  {
    if b == [] {
      assert a + b == a;
    } else {
      var p := a + b;
      assert p[|p| - 1] == b[|b| - 1];
      assert p[..|p| - 1] == a + b[..|b| - 1];
      LastIndexOfAppend(a, b[..|b| - 1], c);
    }
  }

  /** Joining a plain file name (no `/`) to a folder and taking the basename
      gives the file name back. */
  lemma BasenameJoin(folder: string, name: string)
    requires '/' !in name
    ensures Basename(Join(folder, name)) == name
  {
    if name != [] {
      assert name[0] != '/';
    }
    var a := if folder == [] || EndsWith(folder, "/") then folder else folder + "/";
    assert Join(folder, name) == a + name;
    if folder != [] && EndsWith(folder, "/") {
      assert folder[|folder| - 1] == folder[|folder| - 1..][0];
    }
    LastIndexOfAppend(a, name, '/');
    assert (a + name)[|a|..] == name;
  }

  /** A `glob(join(folder, '*' + ext))` match: the name ends in `ext` and, as
      `*` never matches a leading dot, does not start with `.`. */
  predicate GlobStarMatch(name: string, ext: string)
  {
    EndsWith(name, ext) && !StartsWith(name, ".")
  }

  /** The listing filter: a file whose suffix is one of `extensions` and, when a
      prefix is given, whose name does not start with it. */
  predicate Listed(e: Entry, extensions: seq<string>, prefix: Option<string>)
  {
    e.isFile && Suffix(e.name) in extensions &&
    (prefix.None? || !StartsWith(e.name, prefix.value))
  }

  /** The comprehension over a directory listing, in listing order. */
  function FilterListed(entries: seq<Entry>, extensions: seq<string>, prefix: Option<string>): (r: seq<Entry>)
    ensures |r| <= |entries|
    ensures forall e :: e in r <==> e in entries && Listed(e, extensions, prefix)
  {
    if entries == [] then []
    else
      var rest := FilterListed(entries[1..], extensions, prefix);
      assert entries == [entries[0]] + entries[1..];
      if Listed(entries[0], extensions, prefix) then [entries[0]] + rest else rest
  }

  /** Filtering keeps listing order: it distributes over concatenation. */
  lemma {:induction false} FilterListedAppend(a: seq<Entry>, b: seq<Entry>, extensions: seq<string>, prefix: Option<string>)
    ensures FilterListed(a + b, extensions, prefix) == FilterListed(a, extensions, prefix) + FilterListed(b, extensions, prefix)
  {
    if a == [] {
      assert a + b == b;
    } else {
      assert (a + b)[0] == a[0];
      assert (a + b)[1..] == a[1..] + b;
      FilterListedAppend(a[1..], b, extensions, prefix);
    }
  }
}
