/** Finding the enclosing package.json of a file, with a cache of the folders walked through. */
module PackageFinder {
  import opened Wrappers

  /** A folder or file: the names that lead to it from the root. */
  type Path = seq<string>

  /** The folders there are, and the text of the package.json of those that have one. */
  datatype FileSystem = FileSystem(folders: set<Path>, packages: map<Path, string>)

  function Dirname(p: Path): Path {
    if p == [] then [] else p[..|p| - 1]
  }

  function StartFolder(fs: FileSystem, from: Path): Path {
    if from in fs.folders then from else Dirname(from)
  }

  /** The nearest folder upwards that has a package.json. */
  function Nearest(fs: FileSystem, d: Path): Option<Path>
    decreases |d|
  {
    if d in fs.packages then Some(d) else if d == [] then None else Nearest(fs, Dirname(d))
  }

  /** The nearest one encloses the folder, and no folder between has a package.json. */
  lemma {:induction false} NearestEncloses(fs: FileSystem, d: Path, e: Path)
    ensures Nearest(fs, d) == Some(e) ==> e <= d && e in fs.packages
    ensures Nearest(fs, d) == Some(e) ==> forall k | |e| < k <= |d| :: d[..k] !in fs.packages
    ensures Nearest(fs, d) == None && e <= d ==> e !in fs.packages
    decreases |d|
  {
    assert d[..|d|] == d;
    if d !in fs.packages && d != [] {
      var up := Dirname(d);
      NearestEncloses(fs, up, e);
      assert forall k | 0 <= k < |d| :: d[..k] == up[..k];
      if e <= d && e != d {
        assert e <= up;
      }
    }
  }

  /** A folder with a package.json of its own is its own answer, and so it is for the files in it. */
  lemma OwnPackage(fs: FileSystem, folder: Path, name: string)
    requires folder in fs.packages
    ensures folder in fs.folders ==> Nearest(fs, StartFolder(fs, folder)) == Some(folder)
    ensures folder + [name] !in fs.folders ==> Nearest(fs, StartFolder(fs, folder + [name])) == Some(folder)
  {
    assert (folder + [name])[..|folder|] == folder;
  }

  /** Any other folder has the answer of the folder above it, and a file that of the folder it lies in. */
  lemma AnswerFromAbove(fs: FileSystem, folder: Path, name: string)
    requires folder in fs.folders && folder + [name] !in fs.packages
    ensures Nearest(fs, StartFolder(fs, folder + [name])) == Nearest(fs, StartFolder(fs, folder))
  {
    assert (folder + [name])[..|folder|] == folder;
  }

  class FoundPackageJson {
    const text: string
    var filename: Path

    constructor (text: string)
      ensures this.text == text
    {
      this.text := text;
    }
  }

  type Cache = map<Path, FoundPackageJson>

  /** The cache with one object for all these folders. */
  ghost function Filled(c: Cache, ds: seq<Path>, p: FoundPackageJson): Cache {
    map d | d in c.Keys + (set x | x in ds) :: if d in ds then p else c[d]
  }

  lemma FilledNext(c: Cache, ds: seq<Path>, i: nat, p: FoundPackageJson)
    requires i < |ds|
    ensures Filled(c, ds[..i + 1], p) == Filled(c, ds[..i], p)[ds[i] := p]
  {
    assert ds[..i + 1] == ds[..i] + [ds[i]];
  }

  class Finder {
    const fs: FileSystem
    var cache: Cache

    constructor (fs: FileSystem)
      ensures Valid() && this.fs == fs && cache == map[]
    {
      this.fs := fs;
      cache := map[];
    }

    /** The object holds the package.json of the folder. */
    ghost predicate Holds(p: FoundPackageJson, folder: Path)
      reads p
    {
      folder in fs.packages && p.text == fs.packages[folder] && p.filename == folder + ["package.json"]
    }

    /** Every cached folder leads to the package.json that is nearest to it. */
    ghost predicate Valid()
      reads this, cache.Values
    {
      forall d | d in cache :: Nearest(fs, d).Some? && Holds(cache[d], Nearest(fs, d).value)
    }

    /** Started below some package.json, the walk ends and finds the nearest one. */
    method FindPackageJson(from: Path) returns (r: FoundPackageJson?)
      requires Valid() && (from == [] || Nearest(fs, StartFolder(fs, from)).Some?)
      modifies this
      ensures Valid() && (forall d | d in old(cache) :: d in cache && cache[d] == old(cache[d]))
      ensures from == [] ==> r == null && cache == old(cache)
      ensures from != [] ==> r != null && Holds(r, Nearest(fs, StartFolder(fs, from)).value)
    {
      var current := StartFolder(fs, from);
      var tried := [current];
      ghost var nearest := Nearest(fs, current);
      while from != []
        invariant cache == old(cache) && Valid() && |tried| > 0
        invariant Nearest(fs, current) == nearest && (from != [] ==> nearest.Some?)
        invariant forall d | d in tried :: Nearest(fs, d) == nearest && (d !in cache || d == current)
        decreases |current|
      {
        if current in cache {
          return cache[current];
        }
        if current in fs.packages {
          hide Nearest;
          var packageJson := new FoundPackageJson(fs.packages[current]);
          for i := 0 to |tried|
            invariant cache == Filled(old(cache), tried[..i], packageJson)
          {
            FilledNext(old(cache), tried, i, packageJson);
            hide Filled;
            cache := cache[tried[i] := packageJson];
          }
          assert tried[..|tried|] == tried;
          packageJson.filename := current + ["package.json"];
          return packageJson;
        }
        current := Dirname(current);
        tried := tried + [current];
      }
      return null;
    }
  }

  // ---------- when the walk ends ----------

  /** The folder whose package.json is answered within n rounds, if any; at the root the walk stays. */
  function Rounds(fs: FileSystem, cached: set<Path>, current: Path, n: nat): Option<Path> {
    if n == 0 then None
    else if current in cached then Nearest(fs, current)
    else if current in fs.packages then Some(current)
    else Rounds(fs, cached, Dirname(current), n - 1)
  }

  lemma {:induction false} RoundsAgree(fs: FileSystem, cached: set<Path>, current: Path, n: nat)
    requires forall d | d in cached :: Nearest(fs, d).Some?
    ensures Rounds(fs, cached, current, n).Some? ==> Rounds(fs, cached, current, n) == Nearest(fs, current)
    ensures n > |current| && Nearest(fs, current).Some? ==> Rounds(fs, cached, current, n).Some?
    decreases n
  {
    if n > 0 && current !in cached && current !in fs.packages {
      RoundsAgree(fs, cached, Dirname(current), n - 1);
      assert current == [] ==> Nearest(fs, current) == None == Nearest(fs, Dirname(current));
    }
  }

  /** The walk ends iff some folder upwards has a package.json: the guard of the loop looks at the start
      only, so at the root it goes on for ever. */
  lemma EndsExactly(fs: FileSystem, cached: set<Path>, current: Path)
    requires forall d | d in cached :: Nearest(fs, d).Some?
    ensures (exists n: nat :: Rounds(fs, cached, current, n).Some?) <==> Nearest(fs, current).Some?
  {
    if n: nat :| Rounds(fs, cached, current, n).Some? {
      RoundsAgree(fs, cached, current, n);
    }
    RoundsAgree(fs, cached, current, |current| + 1);
  }

  /** A file in a root folder without a package.json: the walk never ends. */
  lemma WalksForEver(n: nat)
    ensures var fs := FileSystem({[]}, map[]);
            Rounds(fs, {}, StartFolder(fs, ["file"]), n) == None
  {
    var fs := FileSystem({[]}, map[]);
    assert Nearest(fs, []) == None;
    assert StartFolder(fs, ["file"]) == [];
    EndsExactly(fs, {}, []);
    assert !Rounds(fs, {}, [], n).Some?;
  }
}
