/**
  Where rule intelligence scans (internal/cli/rulesroot.go). A clean absolute path is its
  components from the filesystem root; the root itself has none.
*/
module RulesRoot {
  import opened Basics

  type Path = seq<string>

  /** `filepath.Dir`: the root is its own parent. */
  function Parent(dir: Path): Path { if dir == [] then dir else dir[..|dir| - 1] }

  /** The home directory as the environment gives it. */
  datatype Home = Unset | Relative | At(path: Path)

  /** How many leading components two paths share. */
  function Shared(a: Path, b: Path): nat {
    if a != [] && b != [] && a[0] == b[0] then 1 + Shared(a[1..], b[1..]) else 0
  }

  function Ups(n: nat): Path { if n == 0 then [] else [".."] + Ups(n - 1) }

  /** `filepath.Rel` between absolute paths: up to what they share, then down. */
  function Rel(from: Path, to: Path): Path {
    var shared := Shared(from, to);
    SharedIsShort(from, to);
    Ups(|from| - shared) + to[shared..]
  }

  lemma {:induction false} SharedIsShort(a: Path, b: Path)
    ensures Shared(a, b) <= |a| && Shared(a, b) <= |b| && a[..Shared(a, b)] == b[..Shared(a, b)]
    ensures Shared(a, b) == |a| <==> a <= b
  {
    if a != [] && b != [] && a[0] == b[0] {
      SharedIsShort(a[1..], b[1..]);
      assert a == [a[0]] + a[1..] && b == [b[0]] + b[1..];
    }
  }

  /** `filepath.IsLocal` of a relative path `Rel` returned: it does not begin by going up. */
  predicate IsLocal(rel: Path) { rel == [] || rel[0] != ".." }

  /** `isUnscannableRoot`, branch by branch. */
  predicate IsUnscannableRoot(dir: Path, home: Home) {
    if dir == Parent(dir) then true
    else match home
      case Unset => false
      case Relative => false
      case At(h) =>
        if dir == h then true
        else
          var rel := Rel(dir, h);
          rel != [".."] && IsLocal(rel)
  }

  /** A path no component of which is a parent reference, as a clean absolute path has none. */
  predicate Clean(p: Path) { forall i | 0 <= i < |p| :: p[i] != ".." }

  /** At or above home. */
  predicate AtOrAbove(dir: Path, home: Home) { home.At? && dir <= home.path }

  lemma UnscannableIsTooBroad(dir: Path, home: Home)
    requires home.At? ==> Clean(home.path)
    ensures IsUnscannableRoot(dir, home) <==> dir == [] || AtOrAbove(dir, home)
  {
    if dir != [] && home.At? {
      var h := home.path;
      SharedIsShort(dir, h);
      var up := |dir| - Shared(dir, h);
      if dir <= h {
        assert Ups(up) == [] && (dir != h ==> Rel(dir, h)[0] == h[|dir|]);
      } else {
        assert Ups(up)[0] == ".." && Rel(dir, h)[0] == "..";
      }
    }
  }

  /** `findRepoRoot`, with the presence of a .git entry given. */
  function RepoRoot(dir: Path, isRepo: Path -> bool): Option<Path> {
    if isRepo(dir) then Some(dir) else if dir == [] then None else RepoRoot(Parent(dir), isRepo)
  }

  method FindRepoRoot(start: Path, isRepo: Path -> bool) returns (root: Option<Path>)
    ensures root == RepoRoot(start, isRepo)
  {
    var dir := start;
    while true
      invariant RepoRoot(dir, isRepo) == RepoRoot(start, isRepo)
      decreases |dir|
    {
      if isRepo(dir) {
        return Some(dir);
      }
      var parent := Parent(dir);
      if parent == dir {
        return None;
      }
      dir := parent;
    }
  }

  datatype Decision = Scan(root: Path) | Off

  /** `resolveRulesRoot` without an override, down to the directory chosen. */
  function ResolveRulesRoot(cwd: Path, home: Home, isRepo: Path -> bool): Decision {
    var root := RepoRoot(cwd, isRepo);
    if root.Some? && !IsUnscannableRoot(root.value, home) then Scan(root.value)
    else if IsUnscannableRoot(cwd, home) then Off
    else Scan(cwd)
  }

  /** What it is called: the override, or the directory's own name. */
  function RepoId(root: Path, repoOverride: string): string {
    if repoOverride != "" then repoOverride else if root == [] then "/" else root[|root| - 1]
  }

  datatype Result = Result(enabled: bool, root: Path, repoId: string)

  /** An explicit root is taken as given, wherever it points. */
  method Resolve(cwd: Path, home: Home, rootOverride: Option<Path>, repoOverride: string, isRepo: Path -> bool)
    returns (r: Result)
    ensures rootOverride.Some? ==> r == Result(true, rootOverride.value, RepoId(rootOverride.value, repoOverride))
    ensures r.enabled ==> r.repoId == if repoOverride != "" then repoOverride else if r.root == [] then "/" else r.root[|r.root| - 1]
    ensures rootOverride.None? ==>
              match ResolveRulesRoot(cwd, home, isRepo)
              case Scan(root) => r == Result(true, root, RepoId(root, repoOverride))
              case Off => !r.enabled
  {
    if rootOverride.Some? {
      return Result(true, rootOverride.value, RepoId(rootOverride.value, repoOverride));
    }
    var root := FindRepoRoot(cwd, isRepo);
    if root.Some? && !IsUnscannableRoot(root.value, home) {
      return Result(true, root.value, RepoId(root.value, repoOverride));
    }
    if IsUnscannableRoot(cwd, home) {
      return Result(false, [], "");
    }
    return Result(true, cwd, RepoId(cwd, repoOverride));
  }

  // ----- what is never scanned ---------------------------------------------

  /** The repository found is the nearest: at or above the start, with none between. */
  lemma {:induction false} RepoRootIsNearest(dir: Path, isRepo: Path -> bool)
    ensures match RepoRoot(dir, isRepo)
            case Some(root) => root <= dir && isRepo(root) && forall k | |root| < k <= |dir| :: !isRepo(dir[..k])
            case None => forall k | 0 <= k <= |dir| :: !isRepo(dir[..k])
    decreases dir
  {
    assert dir[..|dir|] == dir;
    if !isRepo(dir) && dir != [] {
      RepoRootIsNearest(Parent(dir), isRepo);
      forall k | 0 <= k < |dir|
        ensures dir[..k] == Parent(dir)[..k]
      {
      }
    }
  }

  /** The nearest scannable repository at or above a directory, if there is one. */
  ghost predicate NearestScannable(root: Path, cwd: Path, home: Home, isRepo: Path -> bool) {
    root <= cwd && isRepo(root) && !IsUnscannableRoot(root, home)
    && forall k | |root| < k <= |cwd| :: !(isRepo(cwd[..k]) && !IsUnscannableRoot(cwd[..k], home))
  }

  /**
    Without an override: off exactly when the working directory is a filesystem root or at or
    above home; otherwise the nearest scannable repository, or the working directory when there
    is none. Nothing at or above home is ever chosen.
  */
  lemma ScansTheProject(cwd: Path, home: Home, isRepo: Path -> bool)
    requires home.At? ==> Clean(home.path)
    ensures ResolveRulesRoot(cwd, home, isRepo).Off? <==> cwd == [] || AtOrAbove(cwd, home)
    ensures var d := ResolveRulesRoot(cwd, home, isRepo);
            d.Scan? ==>
              d.root != [] && !AtOrAbove(d.root, home) && d.root <= cwd
              && (NearestScannable(d.root, cwd, home, isRepo)
                  || (d.root == cwd && forall k | 0 <= k <= |cwd| :: !(isRepo(cwd[..k]) && !IsUnscannableRoot(cwd[..k], home))))
  {
    RepoRootIsNearest(cwd, isRepo);
    UnscannableIsTooBroad(cwd, home);
    var root := RepoRoot(cwd, isRepo);
    if root.Some? {
      UnscannableIsTooBroad(root.value, home);
      if IsUnscannableRoot(root.value, home) {
        forall k | 0 <= k <= |root.value|
          ensures IsUnscannableRoot(cwd[..k], home)
        {
          UnscannableIsTooBroad(cwd[..k], home);
          assert cwd[..k] <= root.value;
        }
      }
    }
  }
}
