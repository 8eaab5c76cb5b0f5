// os.path.splitext on a POSIX system: the part of Python's standard library
// that get_unique_filename uses to take a path apart before probing names.

module PosixPath {

  const Sep: char := '/'
  const ExtSep: char := '.'

  /** str.rfind for one character: the last index of c in s, or -1 when c does not occur. */
  function RFind(s: string, c: char): (r: int)
    ensures -1 <= r < |s|
    ensures r >= 0 ==> s[r] == c
    ensures forall k :: r < k < |s| ==> s[k] != c
  {
    if s == [] then -1
    else if s[|s| - 1] == c then |s| - 1
    else RFind(s[..|s| - 1], c)
  }

  /** Some character of p[lo..hi] is not a dot. */
  predicate HasNonDot(p: string, lo: int, hi: int)
    requires 0 <= lo <= hi <= |p|
  {
    exists k :: lo <= k < hi && p[k] != ExtSep
  }

  /**
    The extension of p starts at index i: p[i] is a dot, no dot or separator
    follows it, and the final path component holds some character other than
    a dot before it (so a leading-dot name such as ".bashrc" has no extension).
  */
  predicate IsExtensionAt(p: string, i: int) {
    && 0 <= i < |p|
    && p[i] == ExtSep
    && (forall k :: i < k < |p| ==> p[k] != ExtSep && p[k] != Sep)
    && (exists k :: 0 <= k < i && p[k] != ExtSep && forall m :: k <= m < i ==> p[m] != Sep)
  }

  /** A path has at most one extension position. */
  lemma ExtensionAtUnique(p: string, i: int, j: int)
    requires IsExtensionAt(p, i) && IsExtensionAt(p, j)
    ensures i == j
  {
  }

  /** The extension position is the last dot, it follows the last separator, and a non-dot precedes it in the final component. */
  lemma ExtensionAtIsLastDot(p: string, i: int)
    requires IsExtensionAt(p, i)
    ensures i == RFind(p, ExtSep) && RFind(p, Sep) < i
    ensures HasNonDot(p, RFind(p, Sep) + 1, i)
  {
  }

  /**
    os.path.splitext(p) == (root, ext): root + ext == p, and ext is the suffix
    from the extension position when there is one, otherwise empty.
  */
  function SplitExt(p: string): (parts: (string, string))
    ensures parts.0 + parts.1 == p
    ensures || (exists i :: IsExtensionAt(p, i) && parts == (p[..i], p[i..]))
            || (parts == (p, "") && forall i :: !IsExtensionAt(p, i))
  {
    var sepIndex := RFind(p, Sep);
    var dotIndex := RFind(p, ExtSep);
    if dotIndex > sepIndex && HasNonDot(p, sepIndex + 1, dotIndex) then
      assert IsExtensionAt(p, dotIndex);
      (p[..dotIndex], p[dotIndex..])
    else
      assert forall i :: !IsExtensionAt(p, i) by {
        forall i | IsExtensionAt(p, i) ensures false {
          ExtensionAtIsLastDot(p, i);
        }
      }
      (p, "")
  }

  /** Only the last suffix is the extension. */
  lemma SplitExtLastSuffix()
    ensures SplitExt("archive.tar.gz") == ("archive.tar", ".gz")
  {
    var p := "archive.tar.gz";
    var stem := "archive.tar";
    assert p == stem + ".gz" && Sep !in stem;
    assert IsExtensionAt(p, 11) by {
      assert forall m :: 0 <= m < 11 ==> p[m] == stem[m] && p[m] != Sep;
      assert p[0] != ExtSep;
      assert forall m :: 11 < m < |p| ==> p[m] != ExtSep && p[m] != Sep;
    }
    var (name, ext) := SplitExt(p);
    ExtensionAtUnique(p, 11, |name|);
  }

  /** A name whose only dot is leading has no extension. */
  lemma SplitExtLeadingDot()
    ensures SplitExt(".bashrc") == (".bashrc", "")
  {
    var p := ".bashrc";
    assert forall i :: 0 < i < |p| ==> p[i] != ExtSep;
  }

  /** A dot in a directory name is not an extension. */
  lemma SplitExtDottedDirectory()
    ensures SplitExt("logs.d/run") == ("logs.d/run", "")
  {
    var p := "logs.d/run";
    assert p[6] == Sep;
    assert forall i :: 0 <= i < |p| && i != 4 ==> p[i] != ExtSep;
  }
}
