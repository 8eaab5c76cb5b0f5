// What get_unique_filename computes, stated over an abstract filesystem: the
// set of paths for which os.path.exists answers True.

module UniqueFilename {
  import opened Decimal
  import opened PosixPath

  /** The name probed for counter n: f'{name} ({n}){extension}'. */
  function Candidate(name: string, ext: string, n: nat): string {
    name + " (" + ToDecimal(n) + ")" + ext
  }

  /** The text between " (" and the ")" before the extension of a candidate name. */
  function CounterText(name: string, ext: string, c: string): string
    requires |c| >= |name| + |ext| + 3
  {
    c[|name| + 2..|c| - |ext| - 1]
  }

  /**
    A candidate starts with the name and " (", ends with ")" and the extension,
    is longer than the original path, and the counter reads back from the
    digits in between.
  */
  lemma CandidateParts(name: string, ext: string, n: nat)
    ensures var c := Candidate(name, ext, n);
            && |c| > |name| + |ext| + 3
            && c[..|name| + 2] == name + " (" && c[|c| - |ext| - 1..] == ")" + ext
            && IsDigits(CounterText(name, ext, c)) && ParseDecimal(CounterText(name, ext, c)) == n
  {
    var c := Candidate(name, ext, n);
    var digits := ToDecimal(n);
    assert c == (name + " (") + digits + (")" + ext);
    assert CounterText(name, ext, c) == digits;
    ParseToDecimal(n);
  }

  /** Different counters give different candidate names for the same split. */
  lemma CandidateInjective(name: string, ext: string, a: nat, b: nat)
    requires Candidate(name, ext, a) == Candidate(name, ext, b)
    ensures a == b
  {
    var ca, cb := Candidate(name, ext, a), Candidate(name, ext, b);
    var da, db := ToDecimal(a), ToDecimal(b);
    assert |da| == |db|;
    var lo := |name| + 2;
    assert ca[lo..lo + |da|] == da;
    assert cb[lo..lo + |db|] == db;
    ToDecimalInjective(a, b);
  }

  /** The candidates for counters 1..m. */
  function Probed(name: string, ext: string, m: nat): (s: set<string>)
    ensures forall x :: x in s ==> exists k :: 1 <= k <= m && x == Candidate(name, ext, k)
    ensures forall k :: 1 <= k <= m ==> Candidate(name, ext, k) in s
    ensures |s| == m
  {
    if m == 0 then {}
    else
      var before := Probed(name, ext, m - 1);
      assert Candidate(name, ext, m) !in before by {
        if Candidate(name, ext, m) in before {
          var k :| 1 <= k <= m - 1 && Candidate(name, ext, m) == Candidate(name, ext, k);
          CandidateInjective(name, ext, m, k);
        }
      }
      before + {Candidate(name, ext, m)}
  }

  /** Every candidate with a counter below n exists already. */
  predicate AllTaken(existing: set<string>, name: string, ext: string, n: nat) {
    forall k :: 1 <= k < n ==> Candidate(name, ext, k) in existing
  }

  /** n is the counter the probing loop stops at: its candidate is free, all lower ones are taken. */
  predicate IsLeastFree(existing: set<string>, name: string, ext: string, n: nat) {
    1 <= n && Candidate(name, ext, n) !in existing && AllTaken(existing, name, ext, n)
  }

  /** A finite filesystem holds at most |existing| taken candidates. */
  lemma {:induction false} AllTakenBound(existing: set<string>, name: string, ext: string, n: nat)
    requires AllTaken(existing, name, ext, n + 1)
    ensures n <= |existing|
  {
    var probed := Probed(name, ext, n);
    assert probed <= existing;
    SubsetCard(probed, existing);
  }

  lemma {:induction false} SubsetCard(a: set<string>, b: set<string>)
    requires a <= b
    ensures |a| <= |b|
  {
    if a != {} {
      var x :| x in a;
      SubsetCard(a - {x}, b - {x});
    }
  }

  /** The least free counter is unique. */
  lemma LeastFreeUnique(existing: set<string>, name: string, ext: string, n: nat, m: nat)
    requires IsLeastFree(existing, name, ext, n) && IsLeastFree(existing, name, ext, m)
    ensures n == m
  {
  }

  /** The least free counter at or above n, given that all counters below n are taken. */
  function LeastFreeFrom(existing: set<string>, name: string, ext: string, n: nat): (m: nat)
    requires 1 <= n && AllTaken(existing, name, ext, n)
    ensures n <= m && IsLeastFree(existing, name, ext, m)
    decreases |existing| + 1 - n
  {
    AllTakenBound(existing, name, ext, n - 1);
    if Candidate(name, ext, n) !in existing then n
    else
      AllTakenBound(existing, name, ext, n);
      LeastFreeFrom(existing, name, ext, n + 1)
  }

  /**
    get_unique_filename(path): the path itself when it does not exist, otherwise
    the candidate with the least counter whose name does not exist.
  */
  function ResolvedName(existing: set<string>, path: string): (r: string)
    ensures r !in existing
    ensures path !in existing ==> r == path
    ensures path in existing ==>
              exists n :: IsLeastFree(existing, SplitExt(path).0, SplitExt(path).1, n)
                          && r == Candidate(SplitExt(path).0, SplitExt(path).1, n)
  {
    if path !in existing then path
    else
      var (name, ext) := SplitExt(path);
      Candidate(name, ext, LeastFreeFrom(existing, name, ext, 1))
  }

  /**
    When the path exists, the counter that resolves it is at most |existing|:
    the path itself and the n - 1 taken candidates are distinct members of the set.
  */
  lemma {:induction false} ResolvedCounterBound(existing: set<string>, name: string, ext: string, n: nat)
    requires name + ext in existing
    requires IsLeastFree(existing, name, ext, n)
    ensures n <= |existing|
  {
    var probed := Probed(name, ext, n - 1);
    assert name + ext !in probed;
    assert probed + {name + ext} <= existing;
    SubsetCard(probed + {name + ext}, existing);
  }

  /** The first name tried is " (1)" inserted before the extension, and it wins when free. */
  lemma FirstCandidateWhenFree(existing: set<string>, path: string)
    requires path in existing
    requires Candidate(SplitExt(path).0, SplitExt(path).1, 1) !in existing
    ensures ResolvedName(existing, path) == SplitExt(path).0 + " (1)" + SplitExt(path).1
  {
    var (name, ext) := SplitExt(path);
    var n :| IsLeastFree(existing, name, ext, n) && ResolvedName(existing, path) == Candidate(name, ext, n);
    LeastFreeUnique(existing, name, ext, n, 1);
    FirstCandidate(name, ext);
  }

  lemma FirstCandidate(name: string, ext: string)
    ensures Candidate(name, ext, 1) == name + " (1)" + ext
  {
    assert ToDecimal(1) == "1";
  }
}
