// src/py_utils/utils.py: the earlier revision of get_unique_filename. Its
// loop is the same as the later one; it is kept as its own member because it
// is its own code.

module LegacyUtils {
  import opened PosixPath
  import opened UniqueFilename

  /**
    get_unique_filename(path_to_file), with the filesystem given as the set of
    existing paths: a free path is returned as it is; otherwise the result is
    the least-numbered free candidate, and every lower-numbered one exists.
  */
  method GetUniqueFilename(existing: set<string>, pathToFile: string) returns (newFilename: string)
    ensures newFilename !in existing
    ensures pathToFile !in existing ==> newFilename == pathToFile
    ensures pathToFile in existing ==>
              exists count :: IsLeastFree(existing, SplitExt(pathToFile).0, SplitExt(pathToFile).1, count)
                              && newFilename == Candidate(SplitExt(pathToFile).0, SplitExt(pathToFile).1, count)
  {
    if pathToFile !in existing {
      return pathToFile;
    }

    var (name, extension) := SplitExt(pathToFile);

    var count := 1;

    newFilename := Candidate(name, extension, count);
    while newFilename in existing
      invariant 1 <= count
      invariant newFilename == Candidate(name, extension, count)
      invariant AllTaken(existing, name, extension, count)
      decreases |existing| + 1 - count
    {
      AllTakenBound(existing, name, extension, count);
      count := count + 1;
      newFilename := Candidate(name, extension, count);
    }
  }

  /** Both revisions of get_unique_filename return the same name for every filesystem and path. */
  lemma RevisionsAgree(existing: set<string>, pathToFile: string, newFilename: string)
    requires newFilename !in existing
    requires pathToFile !in existing ==> newFilename == pathToFile
    requires pathToFile in existing ==>
               exists count :: IsLeastFree(existing, SplitExt(pathToFile).0, SplitExt(pathToFile).1, count)
                               && newFilename == Candidate(SplitExt(pathToFile).0, SplitExt(pathToFile).1, count)
    ensures newFilename == ResolvedName(existing, pathToFile)
  {
  }
}
