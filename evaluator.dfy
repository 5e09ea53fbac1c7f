/** The base evaluator of the frames evaluators service: the file system it
    works on, the extension check, the listing of a folder by `*ext` glob,
    the creation of the output folder and the saving of a frame under a
    millisecond timestamp name. */
module FramesEvaluator {
  import opened Wrappers
  import opened Paths
  import opened Video
  import opened Percentiles
  import opened Batching

  /** Everything the frames evaluators raise. */
  datatype FramesError =
    | InvalidExtension(extension: string, available: seq<string>)  // "You provided invalid video extension: ..."
    | FolderNotFound(folder: string)                               // "Can't find folder '<folder>'."
    | TooFewFramesToCompare(given: int)                            // number_of_frames_to_compare < 2
    | CantOpen(path: string)                                       // "Can't open: <path>"
    | DivisionByZero                                               // `count % int(fps)` with `int(fps) == 0`
    | UnreadableFrame(path: string)                                // `cv2.imread` gave nothing to score
    | PercentileFailed(error: PercentileError)

  /** A frame with the score the quality metric gave it. */
  datatype ScoredFrame = ScoredFrame(frame: Frame, score: real)

  /** The scores of some scored frames, in order. */
  function ScoresOf(batch: seq<ScoredFrame>): (r: seq<real>)
    ensures |r| == |batch|
    ensures forall i :: 0 <= i < |batch| ==> r[i] == batch[i].score
  {
    seq(|batch|, i requires 0 <= i < |batch| => batch[i].score)
  }

  /** What the evaluators do to the file system, in order. */
  datatype DiskEffect =
    | MadeDirs(path: string)
    | Wrote(path: string, frame: Frame)
    | Renamed(from: string, to: string)

  /** `check_extension_is_valid`: true for an available extension, a
      `ValueError` naming the extension and the available ones otherwise. */
  function CheckExtensionIsValid(extension: string, available: seq<string>): (r: Result<bool, FramesError>)
    ensures r.Ok? <==> extension in available
    ensures r.Ok? ==> r.value
    ensures r.Err? ==> r.error == InvalidExtension(extension, available)
  {
    if extension in available then Ok(true) else Err(InvalidExtension(extension, available))
  }

  predicate IsDigit(c: char)
  {
    '0' <= c <= '9'
  }

  predicate AllDigits(s: string)
  {
    forall i :: 0 <= i < |s| ==> IsDigit(s[i])
  }

  function DigitChar(d: nat): (c: char)
    requires d < 10
    ensures IsDigit(c) && c as int - '0' as int == d
  {
    ('0' as int + d) as char
  }

  /** `str(n)` of a non-negative integer: its decimal digits, without
      leading zeros. */
  function NatToString(n: nat): (s: string)
    ensures |s| >= 1 && AllDigits(s)
    ensures s[0] == '0' ==> n == 0
    decreases n
  {
    if n < 10 then [DigitChar(n)] else NatToString(n / 10) + [DigitChar(n % 10)]
  }

  /** The number a string of decimal digits spells. */
  function ParseDecimal(s: string): nat
    requires AllDigits(s)
  {
    if s == [] then 0 else 10 * ParseDecimal(s[..|s| - 1]) + (s[|s| - 1] as int - '0' as int)
  }

  /** Reading back the digits gives the number: `str` is injective. */
  lemma {:induction false} ParseNatToString(n: nat)
    ensures ParseDecimal(NatToString(n)) == n
    decreases n
  {
    if n >= 10 {
      ParseNatToString(n / 10);
      var s := NatToString(n);
      assert s[..|s| - 1] == NatToString(n / 10);
    }
  }

  /** `best_frame_{timestamp}.{format}` */
  function FrameName(timestamp: nat, format: string): string
  {
    "best_frame_" + NatToString(timestamp) + "." + format
  }

  /** The path `save_ndarray_frame` writes to and returns. */
  function FramePath(folder: string, timestamp: nat, format: string): string
  {
    Join(folder, FrameName(timestamp, format))
  }

  /** Different timestamps give different frame names. */
  lemma FrameNameInjective(a: nat, b: nat, format: string)
    requires FrameName(a, format) == FrameName(b, format)
    ensures a == b
  {
    var sa, sb := NatToString(a), NatToString(b);
    var name := FrameName(a, format);
    assert |sa| == |sb|;
    assert name[11..11 + |sa|] == sa;
    assert FrameName(b, format)[11..11 + |sb|] == sb;
    ParseNatToString(a);
    ParseNatToString(b);
  }

  /** A frame name has no `/` when the format has none, and its suffix is
      the format when the format is a plain extension. */
  lemma FrameNameShape(timestamp: nat, format: string)
    requires '/' !in format
    ensures '/' !in FrameName(timestamp, format)
    ensures format != "" && '.' !in format ==> Suffix(FrameName(timestamp, format)) == "." + format
  {
    var digits := NatToString(timestamp);
    var name := FrameName(timestamp, format);
    forall i | 0 <= i < |name|
      ensures name[i] != '/'
    {
      if 11 <= i < 11 + |digits| {
        assert name[i] == digits[i - 11];
      } else if i >= 12 + |digits| {
        assert name[i] == format[i - 12 - |digits|];
      }
    }
    if format != "" && '.' !in format {
      assert name == ("best_frame_" + digits) + "." + format;
      SuffixOfSplit("best_frame_" + digits, format);
    }
  }

  /** Two saves at different milliseconds write to different paths, and the
      saved file's base name is the frame name. */
  lemma FramePathsDistinct(folder: string, a: nat, b: nat, format: string)
    requires '/' !in format
    ensures Basename(FramePath(folder, a, format)) == FrameName(a, format)
    ensures a != b ==> FramePath(folder, a, format) != FramePath(folder, b, format)
  {
    FrameNameShape(a, format);
    FrameNameShape(b, format);
    BasenameJoin(folder, FrameName(a, format));
    BasenameJoin(folder, FrameName(b, format));
    if FramePath(folder, a, format) == FramePath(folder, b, format) {
      FrameNameInjective(a, b, format);
    }
  }

  /** The paths `glob(join(folder, '*' + ext))` returns for a folder holding
      `names`, in listing order. */
  function Glob(folder: string, names: seq<string>, ext: string): (r: seq<string>)
    ensures |r| <= |names|
    ensures forall p :: p in r <==> exists n :: n in names && GlobStarMatch(n, ext) && p == Join(folder, n)
  {
    if names == [] then []
    else
      var rest := Glob(folder, names[..|names| - 1], ext);
      var last := names[|names| - 1];
      assert names == names[..|names| - 1] + [last];
      if GlobStarMatch(last, ext) then rest + [Join(folder, last)] else rest
  }

  /** The frames saved at consecutive clock readings from the `from`-th
      effect on, into `folder`, in the default `jpg` format. */
  function Writes(folder: string, frames: seq<Frame>, clock: nat -> nat, from: nat): (r: seq<DiskEffect>)
    ensures |r| == |frames|
  {
    if frames == [] then []
    else
      var n := |frames| - 1;
      Writes(folder, frames[..n], clock, from) + [Wrote(FramePath(folder, clock(from + n), "jpg"), frames[n])]
  }

  /** Saving one more frame appends its write at the next clock reading. */
  lemma WritesAppend(folder: string, frames: seq<Frame>, f: Frame, clock: nat -> nat, from: nat, at: nat)
    requires at == from + |frames|
    ensures Writes(folder, frames + [f], clock, from) ==
            Writes(folder, frames, clock, from) + [Wrote(FramePath(folder, clock(at), "jpg"), f)]
  {
    assert (frames + [f])[..|frames|] == frames;
  }

  /** A save appended to a log of saves extends the saves by one frame. */
  lemma LogAppendWrite(folder: string, clock: nat -> nat, base: seq<DiskEffect>, log: seq<DiskEffect>,
                       saved: seq<Frame>, f: Frame)
    requires log == base + Writes(folder, saved, clock, |base|)
    ensures log + [Wrote(FramePath(folder, clock(|log|), "jpg"), f)] == base + Writes(folder, saved + [f], clock, |base|)
  {
    var ws := Writes(folder, saved, clock, |base|);
    WritesAppend(folder, saved, f, clock, |base|, |log|);
    AppendAssoc(base, ws, [Wrote(FramePath(folder, clock(|log|), "jpg"), f)]);
  }

  /** Every write lands in `folder` and saves the corresponding frame. */
  lemma {:induction false} WritesAt(folder: string, frames: seq<Frame>, clock: nat -> nat, from: nat, i: nat)
    requires i < |frames|
    ensures Writes(folder, frames, clock, from)[i] == Wrote(FramePath(folder, clock(from + i), "jpg"), frames[i])
  {
    var n := |frames| - 1;
    var w := Writes(folder, frames[..n], clock, from);
    assert Writes(folder, frames, clock, from) == w + [Wrote(FramePath(folder, clock(from + n), "jpg"), frames[n])];
    if i < n {
      WritesAt(folder, frames[..n], clock, from, i);
      assert frames[..n][i] == frames[i];
    }
  }

  /** The renames among some effects, in order. */
  function RenamesIn(effects: seq<DiskEffect>): seq<DiskEffect>
  {
    if effects == [] then []
    else RenamesIn(effects[..|effects| - 1]) + (if effects[|effects| - 1].Renamed? then [effects[|effects| - 1]] else [])
  }

  lemma {:induction false} RenamesInAppend(a: seq<DiskEffect>, b: seq<DiskEffect>)
    ensures RenamesIn(a + b) == RenamesIn(a) + RenamesIn(b)
    decreases |b|
  {
    if b == [] {
      assert a + b == a;
    } else {
      var n := |b| - 1;
      assert (a + b)[..|a + b| - 1] == a + b[..n];
      RenamesInAppend(a, b[..n]);
    }
  }

  /** Saving frames renames nothing. */
  lemma {:induction false} NoRenamesInWrites(folder: string, frames: seq<Frame>, clock: nat -> nat, from: nat)
    ensures RenamesIn(Writes(folder, frames, clock, from)) == []
  {
    if frames != [] {
      var n := |frames| - 1;
      NoRenamesInWrites(folder, frames[..n], clock, from);
      var w := Writes(folder, frames, clock, from);
      assert w[..|w| - 1] == Writes(folder, frames[..n], clock, from);
    }
  }

  /** The file system the evaluators see: each directory with the names it
      holds in listing order, the other files, the decoder's view of each
      video file and of each image file, the clock, and the log of what was
      done to it. Writes and renames go to the log; they do not change the
      listings, which every run reads once before its first write. */
  class Disk {
    var dirs: map<string, seq<string>>
    const files: set<string>
    /** The video each path decodes to. */
    const media: string -> Source
    /** What `cv2.imread` gives for each path. */
    const images: string -> Option<Frame>
    /** `int(time.time() * 1000)` at the moment the disk has recorded `k` effects. */
    const clock: nat -> nat
    var log: seq<DiskEffect>

    constructor(dirs: map<string, seq<string>>, files: set<string>, media: string -> Source,
                images: string -> Option<Frame>, clock: nat -> nat)
      ensures this.dirs == dirs && this.files == files && this.media == media
      ensures this.images == images && this.clock == clock && log == []
    {
      this.dirs := dirs;
      this.files := files;
      this.media := media;
      this.images := images;
      this.clock := clock;
      log := [];
    }

    /** `os.path.exists` */
    predicate Exists(path: string)
      reads this
    {
      path in dirs || path in files
    }

    /** `_check_folder_exists`: create the folder, empty, only when nothing
        exists at that path; otherwise leave everything as it is. */
    method CheckFolderExists(path: string)
      modifies this
      ensures Exists(path)
      ensures old(Exists(path)) ==> dirs == old(dirs) && log == old(log)
      ensures !old(Exists(path)) ==> dirs == old(dirs)[path := []] && log == old(log) + [MadeDirs(path)]
    {
      if !Exists(path) {
        dirs := dirs[path := []];
        log := log + [MadeDirs(path)];
      }
    }

    /** `save_ndarray_frame`: write the frame to `best_frame_<ms>.<format>`
        inside the folder, the milliseconds read from the clock, and return
        the path written. */
    method SaveNdarrayFrame(folder: string, frame: Frame, format: string) returns (path: string)
      modifies this
      ensures path == FramePath(folder, clock(|old(log)|), format)
      ensures EndsWith(path, FrameName(clock(|old(log)|), format))
      ensures log == old(log) + [Wrote(path, frame)] && dirs == old(dirs)
    {
      var timestamp := clock(|log|);
      path := Join(folder, FrameName(timestamp, format));
      log := log + [Wrote(path, frame)];
    }

    /** `os.rename` */
    method Rename(from: string, to: string)
      modifies this
      ensures log == old(log) + [Renamed(from, to)] && dirs == old(dirs)
    {
      log := log + [Renamed(from, to)];
    }

    /** `get_files_with_specific_extension_from_folder`: the extension is
        checked first, then that the folder is a directory; then the glob
        matches, possibly none, which is not an error. */
    function GetFilesWithSpecificExtensionFromFolder(folder: string, ext: string, available: seq<string>)
      : (r: Result<seq<string>, FramesError>)
      reads this
      ensures r.Err? <==> ext !in available || folder !in dirs
      ensures ext !in available ==> r == Err(InvalidExtension(ext, available))
      ensures ext in available && folder !in dirs ==> r == Err(FolderNotFound(folder))
      ensures r.Ok? ==> forall p :: p in r.value <==>
                exists n :: n in dirs[folder] && GlobStarMatch(n, ext) && p == Join(folder, n)
    {
      match CheckExtensionIsValid(ext, available)
      case Err(e) => Err(e)
      case Ok(_) =>
        if folder !in dirs then Err(FolderNotFound(folder))
        else Ok(Glob(folder, dirs[folder], ext))
    }
  }
}
