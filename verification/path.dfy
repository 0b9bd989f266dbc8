/** `find_exec_function`: the search of the `PATH` directories for an
    executable file. The file system is a parameter: a map from every path
    that exists to its permission bits, or to `None` when its metadata
    cannot be read. */
module PathSearch {
  import opened Wrappers
  import opened Strings

  type FileSystem = map<string, Option<bv32>>

  /** The execute bits for owner, group and others (octal 111). */
  const ExecBits: bv32 := 0x49

  /** `p` exists, its metadata can be read, and some execute bit is set. */
  predicate IsExecutable(fs: FileSystem, p: string) {
    p in fs && fs[p].Some? && fs[p].value & ExecBits != 0
  }

  /** The path tried in directory `dir`. */
  function Candidate(dir: string, name: string): string {
    dir + "/" + name
  }

  /** The first directory of `dirs` holding an executable `name`, as the path
      tried there; empty when there is none. */
  function Resolve(dirs: seq<string>, name: string, fs: FileSystem): string {
    if dirs == [] then []
    else if IsExecutable(fs, Candidate(dirs[0], name)) then Candidate(dirs[0], name)
    else Resolve(dirs[1..], name, fs)
  }

  /** The search finds nothing exactly when no directory holds an
      executable `name`, and otherwise the path in the first that does. */
  lemma {:induction false} ResolveFirst(dirs: seq<string>, name: string, fs: FileSystem)
    ensures var r := Resolve(dirs, name, fs);
            (r == [] <==> forall i :: 0 <= i < |dirs| ==> !IsExecutable(fs, Candidate(dirs[i], name))) &&
            (r != [] ==> exists k :: 0 <= k < |dirs| && r == Candidate(dirs[k], name) && IsExecutable(fs, r) &&
                          forall j :: 0 <= j < k ==> !IsExecutable(fs, Candidate(dirs[j], name)))
    decreases |dirs|
  {
    if dirs != [] && !IsExecutable(fs, Candidate(dirs[0], name)) {
      ResolveFirst(dirs[1..], name, fs);
      var r := Resolve(dirs, name, fs);
      forall i | 0 < i < |dirs| ensures dirs[1..][i - 1] == dirs[i] { }
      if r != [] {
        var k :| 0 <= k < |dirs[1..]| && r == Candidate(dirs[1..][k], name) && IsExecutable(fs, r) &&
                 forall j :: 0 <= j < k ==> !IsExecutable(fs, Candidate(dirs[1..][j], name));
        assert r == Candidate(dirs[k + 1], name);
      }
    } else if dirs != [] {
      assert Candidate(dirs[0], name) == Resolve(dirs, name, fs);
    }
  }

  /** The directories named by the `PATH` value; an unset `PATH` reads as
      empty, which names the one directory `""`. */
  function SearchDirs(pathEnv: Option<string>): (dirs: seq<string>)
    ensures dirs != [] && Join(dirs, ':') == pathEnv.GetOr("")
    ensures forall i :: 0 <= i < |dirs| ==> ':' !in dirs[i]
  {
    Split(pathEnv.GetOr(""), ':')
  }

  /** The search loop, returning as soon as an executable is found. */
  method FindExec(pathEnv: Option<string>, name: string, fs: FileSystem) returns (r: string)
    ensures r == Resolve(SearchDirs(pathEnv), name, fs)
  {
    var dirs := SearchDirs(pathEnv);
    for i := 0 to |dirs|
      invariant Resolve(dirs, name, fs) == Resolve(dirs[i..], name, fs)
    {
      var full := Candidate(dirs[i], name);
      ResolveAt(dirs, i, name, fs);
      if full in fs {
        match fs[full]
        case Some(mode) =>
          if mode & ExecBits != 0 {
            assert IsExecutable(fs, full);
            return full;
          }
        case None =>
      }
      assert !IsExecutable(fs, full);
    }
    r := [];
  }

  lemma ResolveAt(dirs: seq<string>, i: nat, name: string, fs: FileSystem)
    requires i < |dirs|
    ensures Resolve(dirs[i..], name, fs) ==
            if IsExecutable(fs, Candidate(dirs[i], name)) then Candidate(dirs[i], name)
            else Resolve(dirs[i + 1..], name, fs)
  {
    assert dirs[i..][0] == dirs[i] && dirs[i..][1..] == dirs[i + 1..];
  }

  /** Directories searched later only matter when the earlier ones hold no
      executable of that name. */
  lemma {:induction false} ResolveAppend(ds1: seq<string>, ds2: seq<string>, name: string, fs: FileSystem)
    ensures Resolve(ds1 + ds2, name, fs) ==
            (var r := Resolve(ds1, name, fs); if r != [] then r else Resolve(ds2, name, fs))
    decreases |ds1|
  {
    if ds1 == [] {
      assert ds1 + ds2 == ds2;
    } else {
      assert (ds1 + ds2)[0] == ds1[0];
      assert (ds1 + ds2)[1..] == ds1[1..] + ds2;
      ResolveAppend(ds1[1..], ds2, name, fs);
    }
  }

  /** For `PATH=P1:P2`, a match in `P1` shadows any match in `P2`. */
  lemma EarlierEntryWins(p1: string, p2: string, name: string, fs: FileSystem)
    ensures Resolve(SearchDirs(Some(p1 + ":" + p2)), name, fs) ==
            (var r := Resolve(SearchDirs(Some(p1)), name, fs); if r != [] then r else Resolve(SearchDirs(Some(p2)), name, fs))
  {
    SplitAppend(p1, p2, ':');
    ResolveAppend(Split(p1, ':'), Split(p2, ':'), name, fs);
  }

  /** With `PATH` unset the only candidate is `/NAME`. */
  lemma UnsetPath(name: string, fs: FileSystem)
    ensures Resolve(SearchDirs(None), name, fs) == (if IsExecutable(fs, "/" + name) then "/" + name else [])
  {
    assert SearchDirs(None) == [[]];
    assert Candidate([], name) == "/" + name;
  }
}
