/** The two path operations the selection pass uses: the base name of a
    candidate's path (reported and used in output file names) and the join
    that places an output file in the results folder. */
module Paths {

  /** Folder the per-candidate and best-match renderings are written to. */
  const OutputFolder: string := "matching_results"

  /** Prefix of a per-candidate rendering's file name. */
  const MatchesPrefix: string := "matches_"

  /** Prefix of the best candidate's rendering's file name. */
  const BestMatchPrefix: string := "best_match_"

  /** POSIX `os.path.basename`: the part of `path` after its last '/'
      (all of it when there is none, empty when it ends in '/'). */
  function BaseName(path: string): (r: string)
    ensures '/' !in r
    ensures |r| <= |path| && path[|path| - |r|..] == r
    ensures |r| == |path| || path[|path| - |r| - 1] == '/'
  {
    if path == [] then []
    else if path[|path| - 1] == '/' then []
    else BaseName(path[..|path| - 1]) + [path[|path| - 1]]
  }

  /** `os.path.join(OutputFolder, prefix + name)` for a name that does not start
      with '/' (a base name never contains one). */
  function OutputPath(prefix: string, name: string): (r: string)
    ensures |r| == |OutputFolder| + 1 + |prefix| + |name|
    ensures r[..|OutputFolder| + 1] == OutputFolder + "/"
    ensures '/' !in prefix + name ==> BaseName(r) == prefix + name
  {
    BaseNameAfterSlash(OutputFolder, prefix + name);
    OutputFolder + "/" + (prefix + name)
  }

  /** The base name of `dir/tail` is `tail` when `tail` holds no '/'. */
  lemma {:induction false} BaseNameAfterSlash(dir: string, tail: string)
    ensures '/' !in tail ==> BaseName(dir + "/" + tail) == tail
  {
    if '/' in tail || tail == [] {
      assert tail == [] ==> (dir + "/" + tail)[|dir + "/" + tail| - 1] == '/';
    } else {
      var path := dir + "/" + tail;
      var last := tail[|tail| - 1];
      assert tail == tail[..|tail| - 1] + [last];
      assert path[..|path| - 1] == dir + "/" + tail[..|tail| - 1];
      assert last in tail;
      BaseNameAfterSlash(dir, tail[..|tail| - 1]);
    }
  }
}
