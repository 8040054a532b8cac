/** The upload gate and the file names derived from an upload: which
    file names are accepted as videos, where the upload is stored, and the
    audio and subtitle files that sit beside it. */
module Upload {
  import opened Wrappers
  import opened Text

  const UploadFolder: string := "uploads"

  /** The accepted video extensions, compared in lower case. */
  const AllowedExtensions: set<string> := {"mp4", "avi", "mov", "mkv"}

  /** Position of the last '.' in `s`, if there is one. */
  function LastDot(s: string): Option<nat>
  {
    if |s| == 0 then None
    else if s[|s| - 1] == '.' then Some(|s| - 1)
    else LastDot(s[..|s| - 1])
  }

  /** There is a last dot exactly when there is a dot, and nothing after it
      is a dot. */
  lemma {:induction false} LastDotSpec(s: string)
    ensures LastDot(s).None? <==> '.' !in s
    ensures LastDot(s).Some? ==>
      LastDot(s).value < |s| && s[LastDot(s).value] == '.' && '.' !in s[LastDot(s).value + 1..]
  {
    if |s| > 0 && s[|s| - 1] != '.' {
      var init := s[..|s| - 1];
      LastDotSpec(init);
      assert s == init + [s[|s| - 1]];
      if LastDot(s).Some? {
        assert s[LastDot(s).value + 1..] == init[LastDot(s).value + 1..] + [s[|s| - 1]];
      }
    }
  }

  /** A dot with no dot after it is the last dot. */
  lemma LastDotUnique(s: string, k: nat)
    requires k < |s| && s[k] == '.' && '.' !in s[k + 1..]
    ensures LastDot(s) == Some(k)
  {
    LastDotSpec(s);
  }

  /** `s.rsplit('.', 1)`: the whole string when it holds no dot, otherwise
      the text before and the text after its last dot. */
  function RSplitDot(s: string): seq<string>
  {
    match LastDot(s)
    case None => [s]
    case Some(k) => LastDotSpec(s); [s[..k], s[k + 1..]]
  }

  lemma RSplitDotSpec(s: string)
    ensures var parts := RSplitDot(s);
      && (|parts| == 2 <==> '.' in s)
      && (|parts| == 1 <==> '.' !in s)
      && (|parts| == 1 ==> parts[0] == s)
      && (|parts| == 2 ==> parts[0] + "." + parts[1] == s && '.' !in parts[1])
  {
    LastDotSpec(s);
    if LastDot(s).Some? {
      var k := LastDot(s).value;
      assert s == s[..k] + "." + s[k + 1..];
    }
  }

  /** `allowed_file`: the name holds a dot and the text after its last dot,
      lower-cased, is an accepted extension. */
  function AllowedFile(filename: string): bool
  {
    '.' in filename && (RSplitDotSpec(filename); Lower(RSplitDot(filename)[1]) in AllowedExtensions)
  }

  /** Lower-casing neither creates nor removes a dot. */
  lemma LowerKeepsDots(s: string)
    ensures '.' in Lower(s) <==> '.' in s
  {
    if '.' in s {
      var i :| 0 <= i < |s| && s[i] == '.';
      assert Lower(s)[i] == '.';
    }
    if '.' in Lower(s) {
      var i :| 0 <= i < |s| && Lower(s)[i] == '.';
      assert s[i] == '.';
    }
  }

  /** `filename` ends in a dot followed by `ext` in any letter case. */
  predicate EndsWithExtension(filename: string, ext: string)
  {
    |ext| < |filename| && filename[|filename| - |ext| - 1] == '.'
      && Lower(filename[|filename| - |ext|..]) == ext
  }

  lemma AllowedFileHasExtension(filename: string)
    requires AllowedFile(filename)
    ensures (RSplitDotSpec(filename); EndsWithExtension(filename, Lower(RSplitDot(filename)[1])))
  {
    LastDotSpec(filename);
    var k := LastDot(filename).value;
    assert RSplitDot(filename)[1] == filename[k + 1..];
  }

  lemma ExtensionAllowsFile(filename: string, ext: string)
    requires ext in AllowedExtensions && EndsWithExtension(filename, ext)
    ensures AllowedFile(filename)
  {
    var k := |filename| - |ext| - 1;
    assert '.' !in ext;
    LowerKeepsDots(filename[k + 1..]);
    LastDotUnique(filename, k);
    assert RSplitDot(filename)[1] == filename[k + 1..];
  }

  /** A name is accepted exactly when it ends in a dot followed by some
      accepted extension, in any letter case. */
  lemma AllowedFileIff(filename: string)
    ensures AllowedFile(filename) <==>
      exists ext :: ext in AllowedExtensions && EndsWithExtension(filename, ext)
  {
    if AllowedFile(filename) {
      AllowedFileHasExtension(filename);
    }
    if exists ext :: ext in AllowedExtensions && EndsWithExtension(filename, ext) {
      var ext :| ext in AllowedExtensions && EndsWithExtension(filename, ext);
      ExtensionAllowsFile(filename, ext);
    }
  }

  /** The gate ignores letter case: a name and its lower case are
      accepted or refused together. */
  lemma AllowedFileIgnoresCase(filename: string)
    ensures AllowedFile(Lower(filename)) == AllowedFile(filename)
  {
    var low := Lower(filename);
    LowerKeepsDots(filename);
    if '.' in filename {
      LastDotSpec(filename);
      var k := LastDot(filename).value;
      var ext := filename[k + 1..];
      assert low[k] == '.' && low[k + 1..] == Lower(ext);
      LowerKeepsDots(ext);
      LastDotUnique(low, k);
      assert RSplitDot(low)[1] == Lower(ext);
      assert RSplitDot(filename)[1] == ext;
      LowerIdempotent(ext);
    }
  }

  /** Names the gate accepts: the last extension decides, in any case. */
  lemma AcceptedExamples()
    ensures AllowedFile("a.tar.MP4") && AllowedFile(".mkv") && AllowedFile("clip.m\U{212A}v")
  {
    assert Lower("MP4") == "mp4";
    ExtensionAllowsFile("a.tar.MP4", "mp4");
    assert Lower("mkv") == "mkv";
    ExtensionAllowsFile(".mkv", "mkv");
    assert Lower("m\U{212A}v") == "mkv";
    ExtensionAllowsFile("clip.m\U{212A}v", "mkv");
  }

  /** Names the gate refuses: no dot, or a last extension that is not a video's. */
  lemma RefusedExamples()
    ensures !AllowedFile("mp4") && !AllowedFile("a.mp4.txt") && !AllowedFile("movie.")
  {
    LastDotUnique("a.mp4.txt", 5);
    assert RSplitDot("a.mp4.txt")[1] == "txt";
    assert Lower("txt") == "txt";
    LastDotUnique("movie.", 5);
    assert RSplitDot("movie.")[1] == "";
  }

  /** `path.rsplit('.', 1)[0]`: the path up to its last dot, or all of it. */
  function Stem(path: string): string
  {
    RSplitDotSpec(path);
    RSplitDot(path)[0]
  }

  /** The stem is a prefix of the path; it is the whole path when there is
      no dot, and otherwise stops at the last dot. */
  lemma StemSpec(path: string)
    ensures var stem := Stem(path);
      && |stem| <= |path| && stem == path[..|stem|]
      && (|stem| == |path| <==> '.' !in path)
      && (|stem| < |path| ==> path[|stem|] == '.' && '.' !in path[|stem| + 1..])
  {
    LastDotSpec(path);
  }

  /** `path.rsplit('.', 1)[0] + ext`: the path with everything from its last
      dot replaced by `ext`. */
  function WithExtension(path: string, ext: string): string
  {
    Stem(path) + ext
  }

  /** The extracted audio file beside a video (app.py line 73). */
  function AudioPath(videoPath: string): string { WithExtension(videoPath, ".wav") }

  /** The subtitle file beside a video (app.py line 58). */
  function SubtitlePath(videoPath: string): string { WithExtension(videoPath, ".ass") }

  /** The audio and subtitle files share the video's stem, each ends in its
      own extension, and the two are never the same file. */
  lemma SiblingPaths(videoPath: string)
    ensures var audio, subtitle := AudioPath(videoPath), SubtitlePath(videoPath);
      && |audio| == |subtitle| == |Stem(videoPath)| + 4
      && audio[..|audio| - 4] == subtitle[..|subtitle| - 4] == Stem(videoPath)
      && audio[|audio| - 4..] == ".wav" && subtitle[|subtitle| - 4..] == ".ass"
      && audio != subtitle
  {
    var audio, subtitle := AudioPath(videoPath), SubtitlePath(videoPath);
    StemSpec(videoPath);
    assert audio[|audio| - 1] != subtitle[|subtitle| - 1];
  }

  /** `os.path.join('uploads', filename)`: an absolute name replaces the
      folder, any other is placed inside it. */
  function UploadPath(filename: string): string
  {
    if |filename| > 0 && filename[0] == '/' then filename else UploadFolder + "/" + filename
  }

  predicate EndsWith(s: string, suffix: string)
  {
    |suffix| <= |s| && s[|s| - |suffix|..] == suffix
  }

  /** The stored upload ends with the name it was given; it is that name
      exactly when the name is absolute. A relative name is stored in the
      upload folder, and so are the audio and subtitle files made from it. */
  lemma UploadPathSpec(filename: string)
    ensures var path := UploadPath(filename);
      && EndsWith(path, filename)
      && (path == filename <==> |filename| > 0 && filename[0] == '/')
      && (!(|filename| > 0 && filename[0] == '/') ==>
            && StartsWith(path, UploadFolder + "/")
            && StartsWith(AudioPath(path), UploadFolder + "/")
            && StartsWith(SubtitlePath(path), UploadFolder + "/"))
  {
    var path := UploadPath(filename);
    var folder := UploadFolder + "/";
    if !(|filename| > 0 && filename[0] == '/') {
      assert path[..|folder|] == folder;
      StemSpec(path);
      var stem := Stem(path);
      assert forall i :: 0 <= i < |folder| ==> path[i] == folder[i] != '.';
      assert stem[..|folder|] == folder;
      assert AudioPath(path)[..|folder|] == stem[..|folder|];
      assert SubtitlePath(path)[..|folder|] == stem[..|folder|];
    }
  }
}
