/** The upward search for the directory holding `.mvn`, written twice: as a shell
    loop in `mvnw` and as a goto loop in `mvnw.cmd`. */
module BaseDirectory {
  import opened Wrappers

  /** An absolute path: its components below the root, which is []. */
  type Path = seq<string>

  /** What a directory holds under the name `.mvn`. */
  datatype Entry = Absent | File | Directory

  type Placement = Path -> Entry

  function Parent(p: Path): Path {
    if p == [] then [] else p[..|p| - 1]
  }

  /** The shell tests `-d`, and never at the root. */
  function ShellHit(mvn: Placement): Path -> bool {
    q => q != [] && mvn(q).Directory?
  }

  /** The batch file tests `IF EXIST`, at the root too. */
  function BatchHit(mvn: Placement): Path -> bool {
    q => !mvn(q).Absent?
  }

  /** The nearest ancestor-or-self that is a hit. */
  function Nearest(p: Path, hit: Path -> bool): Option<Path> {
    if hit(p) then Some(p) else if p == [] then None else Nearest(Parent(p), hit)
  }

  function OrElse(found: Option<Path>, start: Path): Path {
    if found.Some? then found.value else start
  }

  /** q is a hit on the way up from p, with no hit below it. */
  ghost predicate IsNearest(p: Path, hit: Path -> bool, q: Path) {
    q <= p && hit(q) && forall k | |q| < k <= |p| :: !hit(p[..k])
  }

  /** Nearest means nearest, and None means that no ancestor-or-self is a hit. */
  lemma {:induction false} NearestExact(p: Path, hit: Path -> bool, q: Path)
    ensures Nearest(p, hit) == Some(q) <==> IsNearest(p, hit, q)
    ensures Nearest(p, hit).None? <==> forall k | 0 <= k <= |p| :: !hit(p[..k])
  {
    assert p[..|p|] == p;
    if hit(p) {
      assert IsNearest(p, hit, p);
      assert IsNearest(p, hit, q) ==> |q| == |p|;
      assert q <= p && |q| == |p| ==> q == p;
    } else if p != [] {
      NearestExact(Parent(p), hit, q);
      assert forall k | 0 <= k <= |p| - 1 :: Parent(p)[..k] == p[..k];
      assert q <= p && |q| < |p| ==> q <= Parent(p);
      assert q <= p && |q| == |p| ==> q == p;
    }
  }

  /** The deepest directory on the path, from depth `least` on, that holds `.mvn` as
      one of these kinds of entries; the start if there is none. */
  ghost predicate IsBase(start: Path, mvn: Placement, least: nat, files: bool, base: Path) {
    if exists k | least <= k <= |start| :: mvn(start[..k]).Directory? || (files && mvn(start[..k]).File?)
    then exists k | least <= k <= |start| ::
           && base == start[..k]
           && (mvn(start[..k]).Directory? || (files && mvn(start[..k]).File?))
           && forall m | k < m <= |start| :: mvn(start[..m]).Absent? || (!files && mvn(start[..m]).File?)
    else base == start
  }

  lemma ShellFindsBase(start: Path, mvn: Placement)
    ensures IsBase(start, mvn, 1, false, OrElse(Nearest(start, ShellHit(mvn)), start))
  {
    var found := Nearest(start, ShellHit(mvn));
    NearestExact(start, ShellHit(mvn), OrElse(found, start));
    if found.Some? {
      assert found.value == start[..|found.value|];
    }
  }

  lemma BatchFindsBase(start: Path, mvn: Placement)
    ensures IsBase(start, mvn, 0, true, OrElse(Nearest(start, BatchHit(mvn)), start))
  {
    var found := Nearest(start, BatchHit(mvn));
    NearestExact(start, BatchHit(mvn), OrElse(found, start));
    if found.Some? {
      assert found.value == start[..|found.value|];
    }
  }

  /** `find_maven_basedir`; None for the error on an empty argument. It climbs at
      most as many times as the path is deep. */
  method FindMavenBasedir(start: Option<Path>, mvn: Placement) returns (basedir: Option<Path>)
    ensures basedir.None? <==> start.None?
    ensures start.Some? ==> basedir == Some(OrElse(Nearest(start.value, ShellHit(mvn)), start.value))
    ensures start.Some? ==> IsBase(start.value, mvn, 1, false, basedir.value)
  {
    if start.None? {
      return None;
    }
    ShellFindsBase(start.value, mvn);
    var found := start.value;
    var wdir := start.value;
    while wdir != []
      invariant found == start.value
      invariant OrElse(Nearest(wdir, ShellHit(mvn)), found) ==
                OrElse(Nearest(start.value, ShellHit(mvn)), start.value)
      decreases |wdir|
    {
      if mvn(wdir) == Directory {
        return Some(wdir);
      }
      wdir := Parent(wdir);
    }
    return Some(found);
  }

  class CommandShell {
    var cd: Path

    constructor (cd: Path)
      ensures this.cd == cd
    {
      this.cd := cd;
    }

    /** The search of `mvnw.cmd`: it climbs by changing the current directory, and
        leaves the current directory as it found it. A preset MAVEN_BASEDIR skips
        the search. */
    method FindBaseDir(mavenBasedir: Option<Path>, mvn: Placement) returns (projectBasedir: Path)
      modifies this
      ensures cd == old(cd)
      ensures projectBasedir ==
              if mavenBasedir.Some? then mavenBasedir.value
              else OrElse(Nearest(cd, BatchHit(mvn)), cd)
      ensures mavenBasedir.None? ==> IsBase(cd, mvn, 0, true, projectBasedir)
    {
      if mavenBasedir.Some? {
        return mavenBasedir.value;
      }
      BatchFindsBase(cd, mvn);
      var execDir := cd;
      var wdir := execDir;
      while mvn(wdir).Absent?
        invariant cd == wdir
        invariant OrElse(Nearest(wdir, BatchHit(mvn)), execDir) == OrElse(Nearest(execDir, BatchHit(mvn)), execDir)
        decreases |wdir|
      {
        cd := Parent(cd);
        if wdir == cd {
          cd := execDir;
          return execDir;
        }
        wdir := cd;
      }
      projectBasedir := wdir;
      cd := execDir;
    }
  }

  // When the searches agree, in terms of what the batch file finds.
  lemma SearchesAgreeByResult(start: Path, mvn: Placement)
    ensures var any := Nearest(start, BatchHit(mvn));
            OrElse(Nearest(start, ShellHit(mvn)), start) == OrElse(any, start) <==>
            || any.None?
            || (any.value != [] && mvn(any.value).Directory?)
            || (any.value == start && forall k | 0 < k <= |start| :: !mvn(start[..k]).Directory?)
  {
    var any := Nearest(start, BatchHit(mvn));
    var shell := Nearest(start, ShellHit(mvn));
    NearestExact(start, BatchHit(mvn), OrElse(any, []));
    NearestExact(start, ShellHit(mvn), OrElse(shell, []));
    NearestExact(start, ShellHit(mvn), OrElse(any, []));
    assert forall k | 0 <= k <= |start| :: ShellHit(mvn)(start[..k]) ==> BatchHit(mvn)(start[..k]);
    assert start[..|start|] == start;
    if shell.Some? {
      assert start[..|shell.value|] == shell.value;
    }
  }

  /** When `.mvn` is always a directory, the two searches differ exactly when the
      start is below the root and the root is the only directory on the path
      holding `.mvn`. */
  lemma SearchesAgree(start: Path, mvn: Placement)
    requires forall k | 0 <= k <= |start| :: !mvn(start[..k]).File?
    ensures OrElse(Nearest(start, ShellHit(mvn)), start) == OrElse(Nearest(start, BatchHit(mvn)), start) <==>
            !(start != [] && mvn([]).Directory? && forall k | 0 < k <= |start| :: mvn(start[..k]).Absent?)
  {
    SearchesAgreeByResult(start, mvn);
    var any := Nearest(start, BatchHit(mvn));
    assert start[..0] == [];
    if any.Some? {
      NearestExact(start, BatchHit(mvn), any.value);
      assert any.value == start[..|any.value|];
    } else {
      NearestExact(start, BatchHit(mvn), []);
    }
  }

  /** The deepest `.mvn` on the path is a directory, and not at the root. */
  ghost predicate DeepestIsDirectory(start: Path, mvn: Placement) {
    exists k | 0 < k <= |start| ::
      mvn(start[..k]).Directory? && forall m | k < m <= |start| :: mvn(start[..m]).Absent?
  }

  /** For every placement, files included: the searches agree if and only if there
      is nothing on the path, or the deepest `.mvn` on it is a directory below the
      root, or the start has one and no directory below the root does. */
  lemma SearchesAgreeExact(start: Path, mvn: Placement)
    ensures OrElse(Nearest(start, ShellHit(mvn)), start) == OrElse(Nearest(start, BatchHit(mvn)), start) <==>
            || (forall k | 0 <= k <= |start| :: mvn(start[..k]).Absent?)
            || DeepestIsDirectory(start, mvn)
            || (!mvn(start).Absent? && forall k | 0 < k <= |start| :: !mvn(start[..k]).Directory?)
  {
    SearchesAgreeByResult(start, mvn);
    var any := Nearest(start, BatchHit(mvn));
    NearestExact(start, BatchHit(mvn), OrElse(any, []));
    NearestExact(start, BatchHit(mvn), start);
    assert start[..|start|] == start;
    if any.Some? {
      assert start[..|any.value|] == any.value;
    }
    if DeepestIsDirectory(start, mvn) {
      var k :| 0 < k <= |start| &&
               mvn(start[..k]).Directory? && forall m | k < m <= |start| :: mvn(start[..m]).Absent?;
      NearestExact(start, BatchHit(mvn), start[..k]);
      assert IsNearest(start, BatchHit(mvn), start[..k]);
    }
  }
}
