/** parse_args: the scan of the command line for "--directory <dir>",
    which assigns the global files_directory. */
module Args {
  import opened CLib

  const DIRECTORY_FLAG := "--directory"

  /** argv[i] is the flag and an argument follows it. */
  predicate FlagAt(argv: seq<string>, i: int)
  {
    1 <= i && i + 1 < |argv| && argv[i] == DIRECTORY_FLAG
  }

  /** The directory after the loop has looked at argv[1..n]: each flag
      with a successor overwrites the previous value, so the value is the
      argument after the last such flag, or `init` when there is none. */
  function DirectoryAfter(argv: seq<string>, n: nat, init: Option<string>): (d: Option<string>)
    requires n <= |argv|
    ensures d == init || exists i :: 1 <= i < n && FlagAt(argv, i) && d == Some(argv[i + 1])
  {
    if n <= 1 then init
    else if FlagAt(argv, n - 1) then Some(argv[n])
    else DirectoryAfter(argv, n - 1, init)
  }

  /** The last flag with an argument after it decides. */
  lemma {:induction false} LastFlagWins(argv: seq<string>, n: nat, init: Option<string>, i: nat)
    requires n <= |argv| && 1 <= i < n && FlagAt(argv, i)
    requires forall j :: i < j < n ==> !FlagAt(argv, j)
    ensures DirectoryAfter(argv, n, init) == Some(argv[i + 1])
  {
    if i < n - 1 {
      assert !FlagAt(argv, n - 1);
      LastFlagWins(argv, n - 1, init, i);
    }
  }

  /** With no flag that has an argument after it, the global keeps its
      value. */
  lemma {:induction false} NoFlagKeepsValue(argv: seq<string>, n: nat, init: Option<string>)
    requires n <= |argv|
    requires forall i :: 1 <= i < n ==> !FlagAt(argv, i)
    ensures DirectoryAfter(argv, n, init) == init
  {
    if n > 1 {
      NoFlagKeepsValue(argv, n - 1, init);
    }
  }

  /** The process's global settings. */
  class Settings {
    var filesDirectory: Option<string>

    constructor ()
      ensures filesDirectory == None
    {
      filesDirectory := None;
    }

    /** The loop over argv[1..argc]. */
    method ParseArgs(argv: seq<string>)
      requires |argv| >= 1
      modifies this
      ensures filesDirectory == DirectoryAfter(argv, |argv|, old(filesDirectory))
    {
      var i := 1;
      while i < |argv|
        invariant 1 <= i <= |argv|
        invariant filesDirectory == DirectoryAfter(argv, i, old(filesDirectory))
      {
        if argv[i] == DIRECTORY_FLAG && i + 1 < |argv| {
          filesDirectory := Some(argv[i + 1]);
        }
        i := i + 1;
      }
    }
  }
}
