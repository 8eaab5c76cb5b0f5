// py_utils/utils.py: the markup detector, the Python-filename predicate and
// the unique-filename resolver. ScriptHelper, from the same file, is in
// module ScriptHelpers.

module Utils {
  import opened PosixPath
  import opened UniqueFilename

  // ---------------------------------------------------------------------------
  // _contains_html

  /** The pattern <[^>]*> matches content[i..j + 1]: a '<', then no '>', then a '>'. */
  predicate TagMatchAt(content: string, i: int, j: int) {
    && 0 <= i < j < |content|
    && content[i] == '<'
    && content[j] == '>'
    && forall k :: i < k < j ==> content[k] != '>'
  }

  /**
    _contains_html(content): re.search(r"<[^>]*>", content) finds a match,
    which happens exactly when some '<' comes before some '>'.
  */
  predicate ContainsHtml(content: string): (found: bool)
    ensures found <==> exists i, j :: 0 <= i < j < |content| && content[i] == '<' && content[j] == '>'
  {
    TagMatchIff(content);
    exists i, j | 0 <= i < j < |content| :: TagMatchAt(content, i, j)
  }

  /** A '<' followed somewhere later by a '>' always yields a match that starts at that '<'. */
  lemma {:induction false} TagMatchFrom(content: string, i: int, j: int)
    requires 0 <= i < j < |content| && content[i] == '<' && content[j] == '>'
    ensures exists j' :: i < j' <= j && TagMatchAt(content, i, j')
    decreases j
  {
    if exists k :: i < k < j && content[k] == '>' {
      var k :| i < k < j && content[k] == '>';
      TagMatchFrom(content, i, k);
    } else {
      assert TagMatchAt(content, i, j);
    }
  }

  /** The pattern matches somewhere exactly when some '<' comes before some '>'. */
  lemma TagMatchIff(content: string)
    ensures (exists i, j | 0 <= i < j < |content| :: TagMatchAt(content, i, j)) <==>
            exists i, j :: 0 <= i < j < |content| && content[i] == '<' && content[j] == '>'
  {
    if i, j :| 0 <= i < j < |content| && content[i] == '<' && content[j] == '>' {
      TagMatchFrom(content, i, j);
    }
  }

  /** Markup is found in an HTML fragment. */
  lemma ContainsHtmlOfMarkup()
    ensures ContainsHtml("<html><p></p></html>")
  {
    var s := "<html><p></p></html>";
    assert TagMatchAt(s, 6, 8);
  }

  /** Without any '>' there is no markup. */
  lemma NoHtmlWithoutClose(content: string)
    requires '>' !in content
    ensures !ContainsHtml(content)
  {
  }

  /** A '<' with no '>' after it is not markup (the test's sentence, written in two pieces). */
  lemma NoHtmlWithoutClosingBracket()
    ensures !ContainsHtml("This is a sentence with " + "special characters, < ? ! . '")
  {
    var front, back := "This is a sentence with ", "special characters, < ? ! . '";
    assert '>' !in front;
    assert '>' !in back;
    NoHtmlWithoutClose(front + back);
  }

  // ---------------------------------------------------------------------------
  // is_python_file

  /** Python's $ without MULTILINE matches at position k: the end, or just before a final newline. */
  predicate DollarAt(s: string, k: int) {
    k == |s| || (0 <= k == |s| - 1 && s[k] == '\n')
  }

  /** The pattern \.py$ matches at position i. */
  predicate PyMatchAt(filename: string, i: int) {
    0 <= i <= |filename| - 3 && filename[i..i + 3] == ".py" && DollarAt(filename, i + 3)
  }

  predicate EndsWith(s: string, suffix: string) {
    |suffix| <= |s| && s[|s| - |suffix|..] == suffix
  }

  /**
    is_python_file(filename): re.search(r"\.py$", filename) finds a match,
    which happens exactly when the name ends in ".py", or in ".py" and one
    final newline.
  */
  predicate IsPythonFile(filename: string): (found: bool)
    ensures found <==> EndsWith(filename, ".py") || EndsWith(filename, ".py\n")
  {
    PyMatchIff(filename);
    exists i | 0 <= i <= |filename| - 3 :: PyMatchAt(filename, i)
  }

  /** The pattern \.py$ matches somewhere exactly when the name ends in ".py" or ".py\n". */
  lemma PyMatchIff(filename: string)
    ensures (exists i | 0 <= i <= |filename| - 3 :: PyMatchAt(filename, i)) <==>
            EndsWith(filename, ".py") || EndsWith(filename, ".py\n")
  {
    var n := |filename|;
    if i :| 0 <= i <= n - 3 && PyMatchAt(filename, i) {
      if i + 3 == n - 1 {
        assert filename[n - 4..] == filename[i..i + 3] + [filename[n - 1]];
      }
    }
    if EndsWith(filename, ".py\n") {
      var i := n - 4;
      assert filename[i..i + 3] == filename[i..][..3] == ".py";
      assert PyMatchAt(filename, i);
    }
    if EndsWith(filename, ".py") {
      var i := n - 3;
      assert filename[i..i + 3] == filename[i..] == ".py";
      assert PyMatchAt(filename, i);
    }
  }

  lemma IsPythonFileExamples()
    ensures IsPythonFile("script.py")
    ensures IsPythonFile("script.py\n")
    ensures !IsPythonFile("script.pyc")
    ensures !IsPythonFile("script.py\n\n")
  {
  }

  // ---------------------------------------------------------------------------
  // get_unique_filename

  /**
    get_unique_filename(path_to_file), with the filesystem given as the set of
    existing paths: the probing loop computes ResolvedName.
  */
  method GetUniqueFilename(existing: set<string>, pathToFile: string) returns (newFilename: string)
    ensures newFilename == ResolvedName(existing, pathToFile)
  {
    if pathToFile !in existing {
      return pathToFile;
    }

    var (name, extension) := SplitExt(pathToFile);

    var count := 1;

    newFilename := Candidate(name, extension, count);
    while newFilename in existing
      invariant 1 <= count
      invariant newFilename == Candidate(name, extension, count)
      invariant AllTaken(existing, name, extension, count)
      decreases |existing| + 1 - count
    {
      AllTakenBound(existing, name, extension, count);
      count := count + 1;
      newFilename := Candidate(name, extension, count);
    }

    LeastFreeUnique(existing, name, extension, count, LeastFreeFrom(existing, name, extension, 1));
  }

  /** os.path.splitext on the unit tests' file name. */
  lemma TestFileSplit()
    ensures SplitExt("get_unique_filename_test.file") == ("get_unique_filename_test", ".file")
  {
    var original := "get_unique_filename_test.file";
    var stem := "get_unique_filename_test";
    assert original == stem + ".file" && '/' !in stem;
    assert IsExtensionAt(original, 24) by {
      assert forall m :: 0 <= m < 24 ==> original[m] == stem[m] && original[m] != Sep;
      assert original[0] != ExtSep;
      assert forall m :: 24 < m < 29 ==> original[m] != ExtSep && original[m] != Sep;
    }
    var (name, ext) := SplitExt(original);
    ExtensionAtUnique(original, 24, |name|);
  }

  /** The names the unit tests expect for counters 1 and 2. */
  lemma TestFileCandidates()
    ensures Candidate("get_unique_filename_test", ".file", 1) == "get_unique_filename_test (1).file"
    ensures Candidate("get_unique_filename_test", ".file", 2) == "get_unique_filename_test (2).file"
  {
  }

  /** The unit tests' scenario: a free path is kept, then " (1)", then " (2)" is chosen. */
  method UniqueFilenameScenario() returns (base: string, first: string, second: string)
    ensures base == "get_unique_filename_test.file"
    ensures first == "get_unique_filename_test (1).file"
    ensures second == "get_unique_filename_test (2).file"
  {
    var original := "get_unique_filename_test.file";
    var firstTaken := "get_unique_filename_test (1).file";
    var name, ext := "get_unique_filename_test", ".file";
    TestFileSplit();
    TestFileCandidates();

    base := GetUniqueFilename({}, original);

    first := GetUniqueFilename({original}, original);
    assert IsLeastFree({original}, name, ext, 1);

    second := GetUniqueFilename({original, firstTaken}, original);
    assert IsLeastFree({original, firstTaken}, name, ext, 2);
  }
}
