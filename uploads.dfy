/**
 * `allowed_file`: an uploaded video is accepted when its name has a dot and
 * the text after the last dot, lower-cased, is one of the video extensions.
 */
module Uploads {
  /** `ALLOWED_EXTENSIONS`. */
  const AllowedExtensions: set<string> := {"mp4", "avi", "mov", "mkv"}

  /**
   * `str.lower` as far as it can matter for the extension test: A-Z become
   * a-z and the Kelvin sign (U+212A) becomes k; any other character is left
   * as it is.
   */
  function LowerChar(ch: char): (r: char)
    ensures 'a' <= r <= 'z' && r != ch ==> 'A' <= ch <= 'Z' || ch == '\U{212A}'
  {
    if 'A' <= ch <= 'Z' then (ch as int + 32) as char
    else if ch == '\U{212A}' then 'k'
    else ch
  }

  function Lower(s: string): (r: string)
    ensures |r| == |s| && forall i :: 0 <= i < |s| ==> r[i] == LowerChar(s[i])
  {
    seq(|s|, i requires 0 <= i < |s| => LowerChar(s[i]))
  }

  /** `s.rsplit(".", 1)[-1]`: the text after the last dot, or all of `s` when it has none. */
  function AfterLastDot(s: string): (ext: string)
    ensures '.' !in ext && |ext| <= |s| && ext == s[|s| - |ext|..]
    ensures '.' in s ==> |ext| < |s| && s[|s| - |ext| - 1] == '.'
    ensures '.' !in s ==> ext == s
    decreases |s|
  {
    if s == [] then []
    else if s[|s| - 1] == '.' then []
    else
      var front := s[..|s| - 1];
      assert s == front + [s[|s| - 1]];
      AfterLastDot(front) + [s[|s| - 1]]
  }

  /** The extension, lower-cased, is one of the allowed ones. */
  predicate VideoExtension(ext: string) {
    Lower(ext) in AllowedExtensions
  }

  /** `"." in filename and filename.rsplit(".", 1)[1].lower() in ALLOWED_EXTENSIONS`. */
  predicate AllowedFile(filename: string) {
    '.' in filename && VideoExtension(AfterLastDot(filename))
  }

  /** Splitting at a dot followed by dot-free text is splitting at the last dot. */
  lemma {:induction false} LastDotSplit(stem: string, ext: string)
    requires '.' !in ext
    ensures AfterLastDot(stem + "." + ext) == ext
    decreases |ext|
  {
    var s := stem + "." + ext;
    if ext == [] {
      assert s[|s| - 1] == '.';
    } else {
      var front := ext[..|ext| - 1];
      assert s[..|s| - 1] == stem + "." + front;
      assert ext[|ext| - 1] in ext;
      LastDotSplit(stem, front);
      assert ext == front + [ext[|ext| - 1]];
    }
  }

  /**
   * A name is allowed exactly when it is some stem, a dot, and a dot-free
   * extension that lower-cases to one of the allowed ones.
   */
  lemma AllowedFileIff(filename: string)
    ensures AllowedFile(filename) <==>
            exists stem: string, ext: string ::
              filename == stem + "." + ext && '.' !in ext && VideoExtension(ext)
  {
    if AllowedFile(filename) {
      var stem, ext := AllowedFileSplit(filename);
    }
    if exists stem: string, ext: string ::
         filename == stem + "." + ext && '.' !in ext && VideoExtension(ext) {
      var stem: string, ext: string :|
        filename == stem + "." + ext && '.' !in ext && VideoExtension(ext);
      LastDotSplit(stem, ext);
      assert filename[|stem|] == '.';
    }
  }

  /** An allowed name splits at its last dot into a stem and a video extension. */
  lemma AllowedFileSplit(filename: string) returns (stem: string, ext: string)
    requires AllowedFile(filename)
    ensures filename == stem + "." + ext && '.' !in ext && VideoExtension(ext)
  {
    ext := AfterLastDot(filename);
    var m := |filename| - |ext| - 1;
    stem := filename[..m];
    assert filename[m..] == [filename[m]] + filename[m + 1..];
    assert filename == stem + filename[m..];
  }

  /** Upper case does not matter. */
  lemma UpperCaseAllowed()
    ensures AllowedFile("clip.MP4")
  {
    assert "clip" + "." + "MP4" == "clip.MP4";
    LastDotSplit("clip", "MP4");
    LowerOfThree('M', 'P', '4');
  }

  /** Only the last extension counts: earlier dots do not matter. */
  lemma LastExtensionAllowed()
    ensures AllowedFile("archive.tar.mkv")
  {
    assert "archive.tar" + "." + "mkv" == "archive.tar.mkv";
    LastDotSplit("archive.tar", "mkv");
    LowerOfThree('m', 'k', 'v');
  }

  /** A video extension followed by another one is judged by the last one. */
  lemma LastExtensionRefused()
    ensures !AllowedFile("video.mp4.txt")
  {
    assert "video.mp4" + "." + "txt" == "video.mp4.txt";
    LastDotSplit("video.mp4", "txt");
    assert Lower("txt")[0] == 't';
    ExtensionInitials();
  }

  /** Every allowed extension starts with m or a. */
  lemma ExtensionInitials()
    ensures forall e :: e in AllowedExtensions ==> |e| == 3 && (e[0] == 'm' || e[0] == 'a')
  {
  }

  lemma LowerOfThree(a: char, b: char, c: char)
    ensures Lower([a, b, c]) == [LowerChar(a), LowerChar(b), LowerChar(c)]
  {
  }

  /** A name without a dot, or ending in one, is refused. */
  lemma DotRequired()
    ensures !AllowedFile("mp4")
    ensures !AllowedFile("movie.")
  {
    assert "movie" + "." + "" == "movie.";
    LastDotSplit("movie", "");
    assert |Lower("")| == 0;
  }

  /** The Kelvin sign lower-cases to k, so "m\U{212A}v" is the extension mkv. */
  lemma KelvinSignIsK()
    ensures AllowedFile("clip.m\U{212A}v")
  {
    assert "clip" + "." + "m\U{212A}v" == "clip.m\U{212A}v";
    LastDotSplit("clip", "m\U{212A}v");
    LowerOfThree('m', '\U{212A}', 'v');
  }
}
