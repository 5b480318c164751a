/** The decisions `main` takes on the command line: help, a missing path,
    an unusable directory, or a run rooted at the normalised directory.
    `getopt` is replaced by the map of option keys it returns, and
    `realpath` followed by `is_dir` by a function from the given path to the
    directory it names, if any. */
module Cli {
  import opened Wrappers
  import Paths

  /** What `main` ends up doing. */
  datatype Action =
    | ShowHelp
    | PathRequired
    | NoDirectory(given: string)
    | Start(root: string, silent: bool)

  /** True when any of the spellings of an option was given
      (`array_intersect` with the option keys is non-empty). */
  predicate Given(options: map<string, string>, short: string, long: string) {
    short in options || long in options
  }

  /** `rtrim($path, DIRECTORY_SEPARATOR) . DIRECTORY_SEPARATOR`: strip
      trailing separators, then add exactly one. */
  function NormalizeRoot(path: string): (r: string)
    ensures |r| >= 1 && r[|r| - 1] == Paths.Sep
    ensures |r| == 1 || r[|r| - 2] != Paths.Sep
    ensures |r| - 1 <= |path|
    ensures r[..|r| - 1] + Paths.Repeat(Paths.Sep, |path| - (|r| - 1)) == path
  {
    Paths.TrimRightShape(path, Paths.Sep);
    Paths.TrimRight(path, Paths.Sep) + [Paths.Sep]
  }

  /** `main()`: `-h`/`--help` first, then the path requirement, then the
      directory check; `-p` wins over `--path`. The help branch is taken
      whenever help is asked for, the missing-path branch only when help
      was not asked for, and a run starts only on a resolved directory, silent
      exactly when `-s`/`--silent` was given, rooted at that directory
      with exactly one trailing separator. */
  function Main(options: map<string, string>, realDir: string -> Option<string>): (a: Action)
    ensures a == ShowHelp <==> Given(options, "h", "help")
    ensures a == PathRequired <==> !Given(options, "h", "help") && !Given(options, "p", "path")
    ensures a.NoDirectory? ==>
      && !Given(options, "h", "help") && Given(options, "p", "path")
      && a.given == (if "p" in options then options["p"] else options["path"])
      && realDir(a.given).None?
    ensures a.Start? ==>
      && !Given(options, "h", "help") && Given(options, "p", "path")
      && a.silent == Given(options, "s", "silent")
      && var given := if "p" in options then options["p"] else options["path"];
         realDir(given).Some? && a.root == NormalizeRoot(realDir(given).value)
  {
    if Given(options, "h", "help") then ShowHelp
    else if !Given(options, "p", "path") then PathRequired
    else
      var silent := Given(options, "s", "silent");
      var given := if "p" in options then options["p"] else options["path"];
      match realDir(given)
      case None => NoDirectory(given)
      case Some(dir) => Start(NormalizeRoot(dir), silent)
  }

  /** Asking for help overrides everything else on the command line. */
  lemma HelpFirst(options: map<string, string>, key: string, realDir: string -> Option<string>)
    requires key == "h" || key == "help"
    ensures Main(options[key := ""], realDir) == ShowHelp
  {
  }

  /** `-p` takes precedence: adding or changing `--path` beside it makes no
      difference. */
  lemma ShortPathWins(options: map<string, string>, other: string, realDir: string -> Option<string>)
    requires "p" in options
    ensures Main(options["path" := other], realDir) == Main(options, realDir)
  {
    assert Given(options["path" := other], "p", "path");
    assert options["path" := other]["p"] == options["p"];
  }

  /** Normalising twice is normalising once. */
  lemma NormalizeRootIdempotent(path: string)
    ensures NormalizeRoot(NormalizeRoot(path)) == NormalizeRoot(path)
  {
    var t := Paths.TrimRight(path, Paths.Sep);
    var r := t + [Paths.Sep];
    assert r == t + Paths.Repeat(Paths.Sep, 1);
    Paths.TrimRightUnique(r, Paths.Sep, 1, t);
  }

  /** The loader the constructor requires sits directly under the root:
      joining the normalised root with "wp-load.php" puts exactly one
      separator between them. */
  lemma LoaderPath(dir: string)
    ensures Paths.MakePath([NormalizeRoot(dir), "wp-load.php"]) == NormalizeRoot(dir) + "wp-load.php"
  {
    var root := NormalizeRoot(dir);
    var names := ["wp-load.php"];
    Paths.MakePathUnderRoot(root, names);
    assert [root] + names == [root, "wp-load.php"];
  }

  /** The image functions the constructor requires are found at
      `<root>wp-admin/includes/image.php`. */
  lemma ImageFunctionsPath(dir: string)
    ensures Paths.MakePath([NormalizeRoot(dir), "wp-admin", "includes", "image.php"])
            == NormalizeRoot(dir) + "wp-admin/includes/image.php"
  {
    var root := NormalizeRoot(dir);
    var names := ["wp-admin", "includes", "image.php"];
    Paths.MakePathUnderRoot(root, names);
    assert [root] + names == [root, "wp-admin", "includes", "image.php"];
    assert names[1..] == ["includes", "image.php"];
    assert names[1..][1..] == ["image.php"];
    var tail := Paths.Join(["includes", "image.php"], Paths.Sep);
    assert tail == "includes" + [Paths.Sep] + "image.php";
    assert Paths.Join(names, Paths.Sep) == "wp-admin" + [Paths.Sep] + tail;
    assert "wp-admin" + [Paths.Sep] + ("includes" + [Paths.Sep] + "image.php") == "wp-admin/includes/image.php";
  }
}
