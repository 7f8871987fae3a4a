/** The upload middleware's admission rules: a file is admitted by the extension of its
    original name alone, and each file is capped in size. */
module UploadFilter {
  import opened JsText

  /** The per-file size cap, 10 MiB. */
  const MaxFileSize: nat := 10 * 1024 * 1024

  /** The message of the error the filter hands to the upload library for a refused file. */
  const RejectMessage := "Apenas arquivos .csv e .pdf são permitidos"

  /** A file's size is within the cap; a larger file makes the upload library fail the request
      with the code `LIMIT_FILE_SIZE`. */
  predicate WithinSizeLimit(size: nat) {
    size <= MaxFileSize
  }

  lemma MaxFileSizeValue()
    ensures MaxFileSize == 10485760
    ensures WithinSizeLimit(10485760) && !WithinSizeLimit(10485761)
  {
  }

  /** `s` with its trailing `/` characters removed. */
  function StripTrailingSlashes(s: string): (r: string)
    ensures |r| <= |s| && r == s[..|r|]
    ensures r == [] || r[|r| - 1] != '/'
    ensures forall i :: |r| <= i < |s| ==> s[i] == '/'
  {
    if s != [] && s[|s| - 1] == '/' then StripTrailingSlashes(s[..|s| - 1]) else s
  }

  /** The part of `s` after its last `/` (all of `s` when it has none). */
  function LastSegment(s: string): (r: string)
    ensures |r| <= |s| && r == s[|s| - |r|..]
    ensures '/' !in r
    ensures '/' !in s ==> r == s
  {
    var k := LastIndexOf(s, '/');
    s[k + 1..]
  }

  /** The extension of a path component: from its last `.` to its end, or empty when it has no
      `.`, when its only `.` opens it (a dotfile such as `.csv`), or when it is `..`. */
  function SegmentExt(seg: string): (r: string)
    ensures r == [] || (r[0] == '.' && '.' !in r[1..])
    ensures |r| <= |seg| && r == seg[|seg| - |r|..]
    ensures r != [] ==> |r| < |seg|
    ensures r == [] <==> seg == ".." || forall k :: 0 < k < |seg| ==> seg[k] != '.'
  {
    var k := LastIndexOf(seg, '.');
    if k <= 0 || (|seg| == 2 && seg[0] == '.' && seg[1] == '.') then []
    else
      assert seg[k..][1..] == seg[k + 1..];
      seg[k..]
  }

  /** Node's `path.extname` on POSIX: the extension of the last component once trailing
      slashes are removed. */
  function ExtName(path: string): (r: string)
    ensures '/' !in r
    ensures var seg := LastSegment(StripTrailingSlashes(path));
      && |r| <= |seg| && r == seg[|seg| - |r|..]
      && (r != [] ==> r[0] == '.' && '.' !in r[1..] && |r| < |seg|)
      && (r == [] <==> seg == ".." || forall k :: 0 < k < |seg| ==> seg[k] != '.')
  {
    var seg := LastSegment(StripTrailingSlashes(path));
    SegmentExt(seg)
  }

  /** The filter's test: the lower-cased extension is `.csv` or `.pdf`. Lower-casing only the
      ASCII letters decides this exactly, since no other character lower-cases to one of the
      letters of these two extensions. */
  predicate AcceptsName(originalName: string) {
    IsAllowedExt(ExtName(originalName))
  }

  /** `ext`, ASCII letters lower-cased, is `.csv` or `.pdf`. */
  predicate IsAllowedExt(ext: string) {
    ToLowerAscii(ext) == ".csv" || ToLowerAscii(ext) == ".pdf"
  }

  /** The filter's verdict passed to the upload library's callback. */
  datatype Verdict = Accept | Reject(message: string)

  /** The file filter. It is given the original name only: the declared mimetype and the
      contents play no part in the verdict. */
  function FileFilter(originalName: string): (v: Verdict)
    ensures v.Accept? <==> AcceptsName(originalName)
    ensures v.Reject? ==> v.message == RejectMessage
  {
    if AcceptsName(originalName) then Accept else Reject(RejectMessage)
  }

  /** The last four characters, ASCII letters lower-cased, are one of the two extensions. */
  predicate HasAllowedSuffix(name: string) {
    |name| >= 4 && IsAllowedExt(name[|name| - 4..])
  }

  /** An allowed extension, character by character: a dot and then `csv` or `pdf`, each
      letter in either case. */
  lemma {:induction false} AllowedExtChars(ext: string)
    ensures IsAllowedExt(ext) <==>
      && |ext| == 4 && ext[0] == '.'
      && ((LowerAscii(ext[1]) == 'c' && LowerAscii(ext[2]) == 's' && LowerAscii(ext[3]) == 'v')
       || (LowerAscii(ext[1]) == 'p' && LowerAscii(ext[2]) == 'd' && LowerAscii(ext[3]) == 'f'))
  {
    var low := ToLowerAscii(ext);
    if |ext| == 4 {
      assert low == [low[0], low[1], low[2], low[3]];
    }
  }

  /** For a plain file name (no `/`), the filter accepts exactly the names longer than four
      characters that end in `.csv` or `.pdf` in any letter case. */
  lemma {:induction false} AcceptsPlainName(name: string)
    requires '/' !in name
    ensures AcceptsName(name) <==> |name| > 4 && HasAllowedSuffix(name)
  {
    assert StripTrailingSlashes(name) == name;
    assert LastSegment(name) == name;
    assert ExtName(name) == SegmentExt(name);
    if AcceptsName(name) {
      AcceptedExtIsSuffix(name);
    }
    if |name| > 4 && HasAllowedSuffix(name) {
      SuffixIsExt(name);
    }
  }

  lemma {:induction false} AcceptedExtIsSuffix(seg: string)
    requires IsAllowedExt(SegmentExt(seg))
    ensures |seg| > 4 && HasAllowedSuffix(seg)
  {
    var ext := SegmentExt(seg);
    AllowedExtChars(ext);
    assert seg[|seg| - 4..] == ext;
  }

  lemma {:induction false} SuffixIsExt(seg: string)
    requires |seg| > 4 && HasAllowedSuffix(seg)
    ensures SegmentExt(seg) == seg[|seg| - 4..]
  {
    var tail := seg[|seg| - 4..];
    AllowedExtChars(tail);
    assert tail[1] != '.' && tail[2] != '.' && tail[3] != '.';
    var k := LastIndexOf(seg, '.');
    assert seg[|seg| - 4] == '.';
    assert seg[|seg| - 3] == tail[1] && seg[|seg| - 2] == tail[2] && seg[|seg| - 1] == tail[3];
    assert k == |seg| - 4;
  }

  /** Appending an accepted extension to any plain, non-empty name makes it accepted, whatever
      the name already ends with. */
  lemma {:induction false} AppendedExtensionAccepted(stem: string, ext: string)
    requires stem != [] && '/' !in stem
    requires ext == ".csv" || ext == ".pdf" || ext == ".CSV" || ext == ".PDF"
    ensures AcceptsName(stem + ext)
  {
    var name := stem + ext;
    assert name[|name| - 4..] == ext;
    AllowedExtChars(ext);
    assert HasAllowedSuffix(name);
    assert '/' !in ext by {
      assert ext[0] == '.' && ext[1] != '/' && ext[2] != '/' && ext[3] != '/';
      assert ext == [ext[0], ext[1], ext[2], ext[3]];
    }
    assert '/' !in name;
    AcceptsPlainName(name);
  }

  /** A name ending in `.exe` is refused, so `a.pdf.exe` is refused. */
  lemma {:induction false} ExeRejected(stem: string)
    requires '/' !in stem
    ensures !AcceptsName(stem + ".exe")
  {
    var name := stem + ".exe";
    assert name[|name| - 4..] == ".exe";
    AllowedExtChars(".exe");
    assert '/' !in ".exe";
    assert '/' !in name;
    AcceptsPlainName(name);
  }

  /** A dotfile whose name is a dot and one word, such as `.csv`, has no extension and is refused. */
  lemma {:induction false} DotfileRejected(word: string)
    requires '.' !in word && '/' !in word
    ensures !AcceptsName("." + word)
  {
    var name := "." + word;
    assert name[1..] == word;
    assert '/' !in name;
    assert StripTrailingSlashes(name) == name;
    assert LastSegment(name) == name;
    assert LastIndexOf(name, '.') == 0;
  }

  /** A plain name without a dot has no extension and is refused. */
  lemma {:induction false} NoExtensionRejected(name: string)
    requires '.' !in name && '/' !in name
    ensures !AcceptsName(name)
  {
    assert StripTrailingSlashes(name) == name;
    assert LastSegment(name) == name;
  }
}
