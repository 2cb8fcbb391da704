/** The upload check: which file names the service accepts for analysis. */
module FileIntake {
  import opened Wrappers
  import opened Strings

  /** Membership in the accepted extensions, all lower case:
      png, jpg, jpeg and pdf. */
  predicate IsAllowedExtension(ext: string)
  {
    ext == "png" || ext == "jpg" || ext == "jpeg" || ext == "pdf"
  }

  /** The position of the last `.` in `s`, if there is one. */
  function LastDot(s: string): (r: Option<nat>)
    ensures r.None? <==> '.' !in s
    ensures r.Some? ==> r.value < |s| && s[r.value] == '.' && '.' !in s[r.value + 1..]
  {
    if s == [] then None
    else if s[|s| - 1] == '.' then Some(|s| - 1)
    else
      var r := LastDot(s[..|s| - 1]);
      assert s == s[..|s| - 1] + [s[|s| - 1]];
      assert r.Some? ==> s[r.value + 1..] == s[..|s| - 1][r.value + 1..] + [s[|s| - 1]];
      r
  }

  /** A dot with no dot after it is the last dot. */
  lemma LastDotAt(s: string, j: nat)
    requires j < |s| && s[j] == '.' && '.' !in s[j + 1..]
    ensures LastDot(s) == Some(j)
  {
    var i := LastDot(s).value;
    assert forall k :: j < k < |s| ==> s[k] != '.' by {
      forall k | j < k < |s| ensures s[k] != '.' { assert s[j + 1..][k - j - 1] == s[k]; }
    }
    assert forall k :: i < k < |s| ==> s[k] != '.' by {
      forall k | i < k < |s| ensures s[k] != '.' { assert s[i + 1..][k - i - 1] == s[k]; }
    }
  }

  /** `i` is the position of the last dot in `s`. */
  predicate IsLastDot(s: string, i: int)
  {
    0 <= i < |s| && s[i] == '.' && '.' !in s[i + 1..]
  }

  /** The upload filter: the name must contain a dot, and the part after the
      last dot, lower-cased, must be an accepted extension. */
  function AllowedFile(filename: string): bool
  {
    match LastDot(filename)
    case None => false
    case Some(i) => IsAllowedExtension(Lower(filename[i + 1..]))
  }

  /** A name is accepted exactly when it has a dot and the text after its
      last dot, lower-cased, is one of the accepted extensions. */
  lemma AllowedFileMeaning(filename: string)
    ensures AllowedFile(filename) <==>
      exists i :: IsLastDot(filename, i) && IsAllowedExtension(Lower(filename[i + 1..]))
  {
    match LastDot(filename)
    case None =>
      forall i | 0 <= i < |filename| ensures filename[i] != '.' {
        assert filename[i] in filename;
      }
    case Some(j) =>
      assert IsLastDot(filename, j);
      forall i | IsLastDot(filename, i) ensures i == j {
        LastDotAt(filename, i);
      }
  }

  /** A name without a dot, or whose last character is the dot, is refused. */
  lemma NoExtensionRejected(filename: string)
    requires '.' !in filename || (filename != [] && filename[|filename| - 1] == '.')
    ensures !AllowedFile(filename)
  {
    if '.' in filename {
      assert LastDot(filename) == Some(|filename| - 1);
      assert Lower(filename[|filename|..]) == "";
    }
  }

  /** A name with a non-matching extension is refused. */
  lemma TextFileRejected()
    ensures !AllowedFile("report.txt")
  {
    assert LastDot("report.txt") == Some(6);
  }

  /** The extension is compared without regard to case. */
  lemma UpperCaseExtensionAccepted()
    ensures AllowedFile("Scan.PDF")
  {
    assert LastDot("Scan.PDF") == Some(4);
    assert Lower("PDF") == "pdf";
  }

  /** Lower-casing a name never changes the verdict. */
  lemma AllowedFileIgnoresCase(filename: string)
    ensures AllowedFile(Lower(filename)) == AllowedFile(filename)
  {
    match LastDot(filename)
    case None =>
      assert LastDot(Lower(filename)) == None;
    case Some(i) =>
      LowerKeepsLastDot(filename, i);
  }

  /** Lower-casing keeps the last dot where it is, and the extension after it
      lower-cases to the same text. */
  lemma LowerKeepsLastDot(filename: string, i: nat)
    requires LastDot(filename) == Some(i)
    ensures LastDot(Lower(filename)) == Some(i)
    ensures Lower(Lower(filename)[i + 1..]) == Lower(filename[i + 1..])
  {
    var low := Lower(filename);
    var ext, lowExt := filename[i + 1..], low[i + 1..];
    assert forall k :: 0 <= k < |ext| ==> lowExt[k] == LowerChar(ext[k]);
    assert '.' !in lowExt by {
      assert forall k :: 0 <= k < |ext| ==> ext[k] != '.';
    }
    LastDotAt(low, i);
    LowerTwice(ext, lowExt);
  }

  /** Lower-casing twice is lower-casing once. */
  lemma LowerTwice(s: string, t: string)
    requires |t| == |s| && forall k :: 0 <= k < |s| ==> t[k] == LowerChar(s[k])
    ensures Lower(t) == Lower(s)
  {
  }
}
