/** The upload filter of the web front end: a file name is accepted only when
    its last extension, lower-cased, is one of the allowed extensions. */
module Upload {

  /** The extensions an uploaded video may carry. */
  const AllowedExtensions: set<string> := {"mp4"}

  /** ASCII lower-casing of one character; every other character is kept. */
  function LowerChar(c: char): (d: char)
    ensures 'A' <= c <= 'Z' ==> 'a' <= d <= 'z'
    ensures !('A' <= c <= 'Z') ==> d == c
    ensures !('A' <= d <= 'Z')
  {
    if 'A' <= c <= 'Z' then (c as int - 'A' as int + 'a' as int) as char else c
  }

  /** ASCII lower-casing of a string, character by character. */
  function Lower(s: string): (t: string)
    ensures |t| == |s|
    ensures forall i :: 0 <= i < |s| ==> (t[i] == '.' <==> s[i] == '.')
  {
    seq(|s|, i requires 0 <= i < |s| => LowerChar(s[i]))
  }

  /** The position of the last occurrence of `c` in `s`. */
  function LastIndexOf(s: string, c: char): (k: nat)
    requires c in s
    ensures k < |s| && s[k] == c
    ensures forall j :: k < j < |s| ==> s[j] != c
    decreases |s|
  {
    if s[|s| - 1] == c then |s| - 1
    else
      assert c in s[..|s| - 1] by {
        var j :| 0 <= j < |s| && s[j] == c;
        assert s[..|s| - 1][j] == c;
      }
      LastIndexOf(s[..|s| - 1], c)
  }

  /** `s.rsplit(sep, 1)`: the whole string when `sep` does not occur in it,
      otherwise the text before and the text after its last occurrence. */
  function RSplitOnce(s: string, sep: char): (parts: seq<string>)
    ensures sep !in s ==> parts == [s]
    ensures sep in s ==> |parts| == 2 && s == parts[0] + [sep] + parts[1] && sep !in parts[1]
  {
    if sep in s then
      var k := LastIndexOf(s, sep);
      assert s == s[..k] + [sep] + s[k + 1..];
      [s[..k], s[k + 1..]]
    else
      [s]
  }

  /** `allowed_file`: the name holds a dot and the text after the last dot,
      lower-cased, is an allowed extension. */
  predicate AllowedFile(filename: string)
    ensures AllowedFile(filename) ==> '.' in filename
  {
    '.' in filename && Lower(RSplitOnce(filename, '.')[1]) in AllowedExtensions
  }

  /** Lower-casing keeps the dots, and only the dots, where they were. */
  lemma LowerCharDot(c: char)
    ensures LowerChar(c) == '.' <==> c == '.'
  {
  }

  /** Lower-casing commutes with taking a suffix. */
  lemma LowerSuffix(s: string, i: nat)
    requires i <= |s|
    ensures Lower(s[i..]) == Lower(s)[i..]
  {
  }

  /** A text that lower-cases to an allowed extension holds no dot. */
  lemma NoDotInExtension(ext: string)
    requires Lower(ext) in AllowedExtensions
    ensures '.' !in ext
  {
    forall j | 0 <= j < |ext|
      ensures ext[j] != '.'
    {
      LowerCharDot(ext[j]);
      assert Lower(ext)[j] == LowerChar(ext[j]);
    }
  }

  /** A name is accepted exactly when it ends in a dot followed by three
      characters that lower-case to "mp4": only the final extension counts,
      and since "mp4" holds no dot that extension starts four characters
      before the end. */
  lemma AllowedFileIffSuffix(f: string)
    ensures AllowedFile(f) <==> |f| >= 4 && f[|f| - 4] == '.' && Lower(f[|f| - 3..]) == "mp4"
  {
    if AllowedFile(f) {
      var k := LastIndexOf(f, '.');
      assert RSplitOnce(f, '.')[1] == f[k + 1..];
      assert |f[k + 1..]| == 3;
    }
    if |f| >= 4 && f[|f| - 4] == '.' && Lower(f[|f| - 3..]) == "mp4" {
      assert '.' in f;
      var k := LastIndexOf(f, '.');
      NoDotInExtension(f[|f| - 3..]);
      assert forall j :: |f| - 3 <= j < |f| ==> f[j] == f[|f| - 3..][j - (|f| - 3)];
      assert k == |f| - 4;
      assert RSplitOnce(f, '.')[1] == f[|f| - 3..];
    }
  }

  /** Two names that differ only in ASCII letter case are accepted or refused
      together: the check does not depend on case. */
  lemma AllowedFileIgnoresCase(f: string, g: string)
    requires Lower(f) == Lower(g)
    ensures AllowedFile(f) == AllowedFile(g)
  {
    assert |f| == |Lower(f)| == |Lower(g)| == |g|;
    AllowedFileIffSuffix(f);
    AllowedFileIffSuffix(g);
    if |f| >= 4 {
      assert LowerChar(f[|f| - 4]) == Lower(f)[|f| - 4] == Lower(g)[|g| - 4] == LowerChar(g[|g| - 4]);
      LowerCharDot(f[|f| - 4]);
      LowerCharDot(g[|g| - 4]);
      LowerSuffix(f, |f| - 3);
      LowerSuffix(g, |g| - 3);
    }
  }

  /** A name whose last four characters are a dot and a three-character
      extension that lower-cases to "mp4" is accepted. */
  lemma AcceptedByExtension(f: string, ext: string)
    requires |f| >= 4 && f[|f| - 4] == '.' && f[|f| - 3..] == ext && Lower(ext) == "mp4"
    ensures AllowedFile(f)
  {
    AllowedFileIffSuffix(f);
  }

  lemma LowerMP4()
    ensures Lower("MP4") == "mp4" && Lower("mp4") == "mp4"
  {
    assert LowerChar('M') == 'm' && LowerChar('P') == 'p' && LowerChar('4') == '4';
  }

  /** Any name ending in ".mp4" or ".MP4" passes, the bare ".mp4" (empty stem)
      included: case does not matter. */
  lemma Mp4ExtensionAccepted(stem: string)
    ensures AllowedFile(stem + ".mp4") && AllowedFile(stem + ".MP4")
  {
    LowerMP4();
    var f, g := stem + ".mp4", stem + ".MP4";
    assert f[|f| - 4] == '.' && f[|f| - 3..] == "mp4";
    assert g[|g| - 4] == '.' && g[|g| - 3..] == "MP4";
    AcceptedByExtension(f, "mp4");
    AcceptedByExtension(g, "MP4");
  }

  /** A name ending in ".mp4.exe" is refused: only the last extension counts. */
  lemma InnerExtensionRefused(stem: string)
    ensures !AllowedFile(stem + ".mp4.exe")
  {
    var f := stem + ".mp4.exe";
    assert f[|f| - 3..] == "exe";
    assert Lower("exe")[0] == 'e';
    AllowedFileIffSuffix(f);
  }

  /** A name ending in a dot is refused: its last extension is empty. */
  lemma EmptyExtensionRefused(stem: string)
    ensures !AllowedFile(stem + ".")
  {
    var f := stem + ".";
    if |f| >= 4 {
      assert f[|f| - 3..][2] == '.';
      assert Lower(f[|f| - 3..])[2] == '.';
    }
    AllowedFileIffSuffix(f);
  }
}
