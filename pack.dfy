/** The pack command's own decisions: the fixed packignore templates it offers,
    the lookup of the chosen one, and the name of the archive it writes. */
module Pack {
  import opened PathText
  import opened Packignore
  import opened ZipWalk
  import opened ZipWalkProperties

  datatype Option<T> = None | Some(value: T)

  /** The choices offered when a template is selected. */
  const TemplateNames: seq<string> := ["replit-python", "none"]

  /** The `replit-python` template: the Replit and virtual-environment
      directories under a tree root written with a trailing '/' (the prefix
      test adds no separator, see `PrefixRuleNeedsTrailingSlash`), `__pycache__` anywhere, and the
      project files of a Replit Python workspace in the tree root. */
  function ReplitPython(): Rules
  {
    Rules(
      [".config", "venv", ".upm", ".cache"],
      ["__pycache__"],
      [],
      ["poetry.lock", "pyproject.toml", ".replit", "replit.nix", ".breakpoints"],
      [])
  }

  /** The `none` template: every list empty. */
  function NoneTemplate(): Rules
  {
    Rules([], [], [], [], [])
  }

  /** Looks a selection up in the template table. A selection outside the
      table (the prompt was cancelled) fails the lookup, and with it the pack. */
  function Template(name: string): (r: Option<Rules>)
    ensures r.Some? <==> name in TemplateNames
  {
    if name == "replit-python" then Some(ReplitPython())
    else if name == "none" then Some(NoneTemplate())
    else None
  }

  /** With the `none` template every file the walk lists is written, in walk
      order, except the one at the self path `folder + zipPath`. */
  lemma NoneTemplateWritesAllButSelf(folder: string, zipPath: string, walk: seq<WalkEntry>)
    ensures Template("none").Some?
    ensures Packed(folder, zipPath, Template("none").value, walk)
         == AllButSelf(folder, folder + zipPath, Visits(walk))
  {
    WalkWithNoRules(folder, zipPath, NoneTemplate(), walk);
  }

  /** Names of the name lists are bare names, free of '/'; only the
      full-path list may hold paths. */
  predicate BareNames(rules: Rules)
  {
    (forall n :: n in rules.dirs ==> '/' !in n)
    && (forall n :: n in rules.anyPosDirs ==> '/' !in n)
    && (forall n :: n in rules.anyDirFiles ==> '/' !in n)
    && (forall n :: n in rules.topDirFiles ==> '/' !in n)
  }

  lemma TemplatesUseBareNames(name: string)
    requires name in TemplateNames
    ensures Template(name).Some? && BareNames(Template(name).value)
  {
  }

  /** The lists of `replit-python` that the lemmas below rely on. */
  lemma ReplitPythonLists()
    ensures ".config" in ReplitPython().dirs && "venv" in ReplitPython().dirs
    ensures "__pycache__" in ReplitPython().anyPosDirs && '/' !in "__pycache__"
    ensures ".replit" in ReplitPython().topDirFiles
    ensures ReplitPython().anyDirFiles == [] && ReplitPython().fullDirFiles == []
  {
  }

  /** Under `replit-python` the prefix `.config` excludes every path starting
      with `folder + ".config"`: for a tree root ending in '/' that is also
      `.configs` and any other directory whose name starts with `.config`. */
  lemma ReplitPythonConfigPrefix(folder: string, suffix: string)
    ensures RootExcluded(folder, folder + ".config" + suffix, ReplitPython())
  {
    ReplitPythonLists();
    PrefixRuleIsTextual(folder, ".config", suffix, ReplitPython());
  }

  /** Under `replit-python` a `__pycache__` directory is excluded below any
      directory, together with its whole subtree. */
  lemma ReplitPythonPycache(folder: string, dir: string, root: string)
    requires Within(dir + "/__pycache__", root)
    ensures RootExcluded(folder, root, ReplitPython())
  {
    ReplitPythonLists();
    assert dir + "/__pycache__" == dir + "/" + "__pycache__";
    AnyPositionBelow(folder, dir, "__pycache__", root, ReplitPython());
  }

  /** Under `replit-python` a `.replit` file is skipped in the tree root and
      written in every other directory that is not excluded, unless its path is
      the self path `folder + zipPath`. */
  lemma ReplitPythonTopLevelFile(folder: string, zipPath: string, root: string)
    requires Join(root, ".replit") != folder + zipPath
    ensures Verdict(folder, zipPath, ReplitPython(), root, ".replit") == Ignore <==> root == folder
    ensures Verdict(folder, zipPath, ReplitPython(), root, ".replit") == Write <==> root != folder
  {
    ReplitPythonLists();
    TopDirFileOnlyInTreeRoot(folder, zipPath, ReplitPython(), root, ".replit");
  }

  /** The self check is a text comparison with `folder + zipPath`: it
      recognises the archive in the tree root "./", but in "." (without the
      trailing '/') the archive's own path "./" + zipPath differs from
      "." + zipPath and the archive is written like any other file. */
  lemma SelfCheckIsTextual(zipPath: string)
    requires zipPath != "" && zipPath[0] != '/'
    ensures Verdict("./", zipPath, NoneTemplate(), "./", zipPath) == SkipSelf
    ensures Join(".", zipPath) == "./" + zipPath
    ensures Verdict(".", zipPath, NoneTemplate(), ".", zipPath) == Write
  {
    SlashEnds("./");
    SlashEnds(".");
    SlashEnds(zipPath);
    JoinShape("./", zipPath);
    JoinShape(".", zipPath);
    assert "./" + zipPath == "." + "/" + zipPath;
    assert ("./" + zipPath)[1] != ("." + zipPath)[1];
  }

  /** The prefix test joins `folder` and `d` without a separator, so for a
      tree root that does not end in '/' no directory the walk reaches matches
      a relative prefix, and the prefix list excludes nothing. */
  lemma PrefixRuleNeedsTrailingSlash(folder: string, d: string, root: string)
    requires folder != "" && !EndsWith(folder, "/") && d != "" && d[0] != '/'
    requires WalkWithin(folder, root)
    ensures !StartsWith(root, folder + d)
  {
    SlashEnds(folder);
    assert (folder + d)[|folder|] == d[0];
    if root != folder {
      assert root[..|folder| + 1] == folder + "/";
      assert root[|folder|] == '/';
    }
  }

  /** The token `str(uuid4()).split('-')[0]` taken from the rendering of a
      UUID: the text before its first '-'. */
  function UuidToken(uuid: string): (t: string)
    ensures '-' !in t
    ensures StartsWith(uuid, t)
    ensures |t| < |uuid| ==> uuid[|t|] == '-'
  {
    SplitHead(uuid, '-');
    Split(uuid, '-')[0]
  }

  /** The archive name: `<name>.zip` when the unique suffix is disabled,
      `<name>-<token>.zip` otherwise. The UUID text is a parameter. */
  function PackFileName(name: string, disableUuid: bool, uuid: string): (fn: string)
    ensures StartsWith(fn, name) && EndsWith(fn, ".zip")
    ensures disableUuid ==> |fn| == |name| + 4
    ensures !disableUuid ==> |fn| == |name| + |UuidToken(uuid)| + 5
    ensures !disableUuid ==> fn[|name|] == '-' && fn[|name| + 1..|fn| - 4] == UuidToken(uuid)
  {
    var fn := if disableUuid then name + ".zip" else name + "-" + UuidToken(uuid) + ".zip";
    assert fn[..|name|] == name;
    assert fn[|fn| - 4..] == ".zip";
    fn
  }

  /** Two different tokens give two different archive names. */
  lemma UniqueNamesDiffer(name: string, uuidA: string, uuidB: string)
    requires UuidToken(uuidA) != UuidToken(uuidB)
    ensures PackFileName(name, false, uuidA) != PackFileName(name, false, uuidB)
  {
    var a, b := PackFileName(name, false, uuidA), PackFileName(name, false, uuidB);
    assert a[|name| + 1..|a| - 4] != b[|name| + 1..|b| - 4];
  }
}
