/**
 * Name helpers shared by the pages and the API (src/lib/General.ts): the
 * status code of a response, the clipping of long names for display, and the
 * classification of file names by extension.
 */
module General {
  import opened Wrappers
  import opened Builtins

  /** The two kinds of response `getResponse` builds. */
  datatype ResponseType = Success | Error

  /**
   * The status of `getResponse(type, message, status_code)`: `status_code`
   * when it is given and truthy, otherwise 200 for a success and 400 for an
   * error. An explicit 0 is falsy and is replaced.
   */
  function ResponseStatus(kind: ResponseType, statusCode: Option<int>): (r: int)
    ensures r != 0
    ensures statusCode.Some? && statusCode.value != 0 ==> r == statusCode.value
    ensures statusCode == None || statusCode == Some(0) ==> r == (if kind == Success then 200 else 400)
  {
    if statusCode.Some? && statusCode.value != 0 then statusCode.value
    else if kind == Success then 200
    else 400
  }

  /** Passing the computed status back in changes nothing. */
  lemma ResponseStatusIdempotent(kind: ResponseType, statusCode: Option<int>)
    ensures ResponseStatus(kind, Some(ResponseStatus(kind, statusCode))) == ResponseStatus(kind, statusCode)
  {
  }

  /** The ellipsis a clipped name carries. */
  const Ellipsis: string := "..."

  /**
   * `clipName(name, length, reverse)`: a name of at most `length` characters
   * is returned as it is; a longer one keeps its first `length - 3`
   * characters followed by `...`, or with `reverse`, `...` followed by its
   * last `length - 3` characters. `slice` clamps its indices, so a `length`
   * below 3 is accepted too.
   */
  function ClipName(name: string, length: int, reverse: bool): (r: string)
    ensures |name| <= length ==> r == name
    ensures |name| > length >= 3 ==> |r| == length
    ensures |name| > length >= 3 && !reverse ==> r[..length - 3] == name[..length - 3] && r[length - 3..] == Ellipsis
    ensures |name| > length >= 3 && reverse ==> r[..3] == Ellipsis && r[3..] == name[|name| - (length - 3)..]
  {
    if |name| <= length then name
    else if reverse then Ellipsis + Slice(name, |name| - length + 3, |name|)
    else Slice(name, 0, length - 3) + Ellipsis
  }

  /** Clipping to a length of at least 3 never gives more than `length` characters, and a clipped name is clipped no further. */
  lemma ClipNameIdempotent(name: string, length: int, reverse: bool)
    requires length >= 3
    ensures |ClipName(name, length, reverse)| <= length || ClipName(name, length, reverse) == name
    ensures ClipName(ClipName(name, length, reverse), length, reverse) == ClipName(name, length, reverse)
  {
  }

  /** `file.split('.').pop()`: the last `.`-field of the name, the whole name when it has no dot. */
  function Extension(file: string): (r: string)
    ensures '.' !in r
  {
    var fields := Split(file, '.');
    fields[|fields| - 1]
  }

  /** A name without a dot is its own extension. */
  lemma ExtensionWithoutDot(file: string)
    requires '.' !in file
    ensures Extension(file) == file
  {
    SplitNoSeparator(file, '.');
  }

  /** The extension is the text after the last dot. */
  lemma ExtensionAt(file: string, j: int)
    requires 0 <= j < |file| && file[j] == '.' && '.' !in file[j + 1..]
    ensures Extension(file) == file[j + 1..]
  {
    LastField(file, '.', j);
  }

  /** The extension is exactly the text after the last dot, or the whole name when there is none. */
  lemma ExtensionAfterLastDot(file: string)
    ensures '.' !in file ==> Extension(file) == file
    ensures forall j :: 0 <= j < |file| && file[j] == '.' && '.' !in file[j + 1..] ==> Extension(file) == file[j + 1..]
  {
    if '.' !in file {
      ExtensionWithoutDot(file);
    }
    forall j | 0 <= j < |file| && file[j] == '.' && '.' !in file[j + 1..]
      ensures Extension(file) == file[j + 1..]
    {
      ExtensionAt(file, j);
    }
  }

  /** `toLowerCase` on the alphabet the names use: ASCII letters and the umlauts. */
  function LowerChar(c: char): (r: char)
    ensures r == '.' <==> c == '.'
  {
    if 'A' <= c <= 'Z' then (c as int + 32) as char
    else if c == 'Ä' then 'ä'
    else if c == 'Ö' then 'ö'
    else if c == 'Ü' then 'ü'
    else c
  }

  /** `toLowerCase`: each character is lower-cased on its own. */
  function ToLower(s: string): (r: string)
    ensures |r| == |s|
    ensures forall i :: 0 <= i < |s| ==> r[i] == LowerChar(s[i])
  {
    if s == [] then [] else [LowerChar(s[0])] + ToLower(s[1..])
  }

  /** Lower-casing a concatenation lower-cases both parts. */
  lemma ToLowerAppend(a: string, b: string)
    ensures ToLower(a + b) == ToLower(a) + ToLower(b)
  {
    var whole, left, right := ToLower(a + b), ToLower(a), ToLower(b);
    forall i | 0 <= i < |a + b|
      ensures whole[i] == (left + right)[i]
    {
      if i < |a| {
        assert (a + b)[i] == a[i];
      } else {
        assert (a + b)[i] == b[i - |a|];
      }
    }
  }

  /** Lower-casing twice is lower-casing once. */
  lemma {:induction false} ToLowerIdempotent(s: string)
    ensures ToLower(ToLower(s)) == ToLower(s)
    decreases |s|
  {
    if s != [] {
      ToLowerIdempotent(s[1..]);
      var low := ToLower(s);
      assert low[0] == LowerChar(s[0]);
      assert low[1..] == ToLower(s[1..]);
    }
  }

  /** Lower-casing neither adds nor removes dots. */
  lemma {:induction false} LowerKeepsDots(t: string)
    ensures '.' in ToLower(t) <==> '.' in t
    decreases |t|
  {
    if t != [] {
      LowerKeepsDots(t[1..]);
      assert t == [t[0]] + t[1..];
    }
  }

  /** Lower-casing commutes with taking a suffix. */
  lemma ToLowerSuffix(s: string, i: nat)
    requires i <= |s|
    ensures ToLower(s)[i..] == ToLower(s[i..])
  {
    assert s == s[..i] + s[i..];
    ToLowerAppend(s[..i], s[i..]);
  }

  /** The extension of a lower-cased name is the lower-cased extension. */
  lemma ExtensionOfLower(file: string)
    ensures Extension(ToLower(file)) == ToLower(Extension(file))
  {
    var low := ToLower(file);
    LowerKeepsDots(file);
    if '.' in file {
      var k := LastIndexOf(file, '.');
      var tail := file[k + 1..];
      ToLowerSuffix(file, k + 1);
      LowerKeepsDots(tail);
      ExtensionAt(file, k);
      ExtensionAt(low, k);
    } else {
      ExtensionWithoutDot(file);
      ExtensionWithoutDot(low);
    }
  }

  const VideoExtensions: seq<string> := ["mp4", "webm", "ogg"]
  const ImageExtensions: seq<string> := ["jpg", "jpeg", "png", "gif", "webp"]
  const AudioExtensions: seq<string> := ["mp3", "wav", "ogg"]
  const ZipExtensions: seq<string> := ["zip", "rar", "7z"]
  const PdfExtensions: seq<string> := ["pdf"]

  /**
   * The body shared by the classifiers: a non-empty extension whose
   * lower-cased form is listed. So a classifier holds exactly when the
   * lower-cased text after the last dot (the whole name when there is none)
   * is non-empty and listed; a name ending in a dot is never classified.
   */
  function HasExtensionIn(file: string, extensions: seq<string>): (r: bool)
    ensures '.' !in file ==> (r <==> file != [] && ToLower(file) in extensions)
    ensures forall j :: 0 <= j < |file| && file[j] == '.' && '.' !in file[j + 1..] ==>
      (r <==> j < |file| - 1 && ToLower(file[j + 1..]) in extensions)
  {
    ExtensionAfterLastDot(file);
    var extension := Extension(file);
    extension != "" && ToLower(extension) in extensions
  }

  /** `isAudio`: every audio extension has three letters. */
  function IsAudio(file: string): (r: bool)
    ensures r ==> |Extension(file)| == 3
  {
    HasExtensionIn(file, AudioExtensions)
  }

  /** `isPdf`: the lower-cased extension is `pdf`, so it is never an audio file. */
  function IsPdf(file: string): (r: bool)
    ensures r <==> ToLower(Extension(file)) == "pdf"
    ensures r ==> !IsAudio(file)
  {
    HasExtensionIn(file, PdfExtensions)
  }

  /** `isZip`: an archive is neither an audio file nor a PDF. */
  function IsZip(file: string): (r: bool)
    ensures r ==> !IsAudio(file) && !IsPdf(file)
  {
    HasExtensionIn(file, ZipExtensions)
  }

  /** `isVideo`: a video is no archive and no PDF, and is also an audio file exactly for `ogg`. */
  function IsVideo(file: string): (r: bool)
    ensures r ==> !IsZip(file) && !IsPdf(file)
    ensures r ==> (IsAudio(file) <==> ToLower(Extension(file)) == "ogg")
  {
    HasExtensionIn(file, VideoExtensions)
  }

  /** `isImage`: an image falls in no other class. */
  function IsImage(file: string): (r: bool)
    ensures r ==> !IsVideo(file) && !IsAudio(file) && !IsZip(file) && !IsPdf(file)
  {
    HasExtensionIn(file, ImageExtensions)
  }

  /** A classifier ignores letter case. */
  lemma ClassificationIgnoresCase(file: string, extensions: seq<string>)
    ensures HasExtensionIn(ToLower(file), extensions) <==> HasExtensionIn(file, extensions)
  {
    ExtensionOfLower(file);
    ToLowerIdempotent(Extension(file));
  }

  /** `A.PNG` is an image. */
  lemma UpperCaseImage()
    ensures IsImage("A.PNG")
  {
    LastField("A.PNG", '.', 1);
    assert "A.PNG"[2..] == "PNG";
    assert ToLower("PNG") == "png";
  }

  /** A name with the extension `ogg`, in any case, is both a video and an audio file. */
  lemma OggIsVideoAndAudio(file: string)
    requires |file| >= 4 && file[|file| - 4] == '.'
    requires ToLower(file[|file| - 3..]) == "ogg"
    ensures IsVideo(file) && IsAudio(file)
  {
    var j := |file| - 4;
    LowerKeepsDots(file[j + 1..]);
    ExtensionAfterLastDot(file);
  }
}
