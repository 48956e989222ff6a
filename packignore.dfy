/** A packignore rule set and the two decisions the walk takes with it: whether
    a directory visited by the walk is excluded, and what happens to one file
    of a directory that is not. */
module Packignore {
  import opened PathText

  /** The five lists of a packignore template, under the keys the packer uses:
      `dirs` (directory prefixes under the tree root), `any_pos_dirs`
      (directory names excluded wherever they occur), `any_dir_files` (file
      names excluded everywhere), `top_dir_files` (file names excluded only in
      the tree root) and `full_dir_files` (exact joined paths). */
  datatype Rules = Rules(
    dirs: seq<string>,
    anyPosDirs: seq<string>,
    anyDirFiles: seq<string>,
    topDirFiles: seq<string>,
    fullDirFiles: seq<string>)

  /** A rule set that excludes nothing: all five lists are empty. */
  predicate NoRules(rules: Rules)
  {
    rules.dirs == [] && rules.anyPosDirs == [] && rules.anyDirFiles == []
    && rules.topDirFiles == [] && rules.fullDirFiles == []
  }

  /** The directory rule: `root` starts with `folder + d` for a listed prefix
      `d`, or one of its '/'-separated segments is a listed any-position name.
      The prefix test is textual and the segments are those of the whole
      `root`, the tree root's own segments included. */
  predicate RootExcluded(folder: string, root: string, rules: Rules)
  {
    (exists d :: d in rules.dirs && StartsWith(root, folder + d))
    || (exists item :: item in rules.anyPosDirs && item in Split(root, '/'))
  }

  /** What the walk does with one file of a directory that is not excluded. */
  datatype FileVerdict =
    | SkipSelf  // the file at the self path `folder + zipPath`; skipped without a report
    | Ignore    // matched a file rule; skipped and reported
    | Write     // written into the archive

  /** The file rule. The self test compares the joined path with the plain
      concatenation `folder + zipPath`, the self path, and comes first. The
      archive itself is opened at `zipPath` relative to the working
      directory, so the self path names it only when `folder` names the
      working directory and ends in '/'. Then come the three file
      lists, the top-level list only when `root` is the tree root itself. */
  function Verdict(folder: string, zipPath: string, rules: Rules, root: string, file: string): FileVerdict
  {
    var path := Join(root, file);
    if path == folder + zipPath then SkipSelf
    else if (file in rules.topDirFiles && root == folder)
         || path in rules.fullDirFiles
         || file in rules.anyDirFiles
    then Ignore
    else Write
  }

  /** A directory inside `dir`, at any depth: `dir` itself or a path that
      continues it after a '/'. This is how the walk reaches the directories
      below any directory whose path does not end in '/', which is every
      directory it yields except possibly the tree root. */
  predicate Within(dir: string, root: string)
  {
    root == dir || StartsWith(root, dir + "/")
  }

  /** A directory the walk reaches from a starting path `dir`: `dir` itself,
      or `dir` joined with a relative path, so that no '/' is added after a
      `dir` that already ends in one (`os.walk("a/")` yields "a/b"). */
  predicate WalkWithin(dir: string, root: string)
  {
    root == dir || StartsWith(root, dir + JoinSep(dir))
  }

  /** Excluding a directory excludes everything inside it: the prefix carries
      over to longer paths, and a descendant's segments extend the ancestor's. */
  lemma ExcludedDescendant(folder: string, dir: string, root: string, rules: Rules)
    requires RootExcluded(folder, dir, rules)
    requires Within(dir, root)
    ensures RootExcluded(folder, root, rules)
  {
    if root != dir {
      var rest := root[|dir| + 1..];
      assert root == dir + ['/'] + rest by {
        assert root[..|dir| + 1] == dir + "/";
      }
      if d :| d in rules.dirs && StartsWith(dir, folder + d) {
        assert root[..|folder + d|] == dir[..|folder + d|];
        assert StartsWith(root, folder + d);
      } else {
        var item :| item in rules.anyPosDirs && item in Split(dir, '/');
        SplitAtSeparator(dir, '/', rest);
        assert item in Split(root, '/');
      }
    }
  }

  /** A non-empty segment of a path stays a segment of every directory the
      walk reaches from that path, whether or not the path ends in '/'. */
  lemma SegmentWithinWalk(dir: string, root: string, item: string)
    requires item != "" && item in Split(dir, '/')
    requires WalkWithin(dir, root)
    ensures item in Split(root, '/')
  {
    assert dir != "";
    if root != dir {
      SlashEnds(dir);
      if EndsWith(dir, "/") {
        var a, rest := dir[..|dir| - 1], root[|dir|..];
        assert dir == a + ['/'] + "";
        SplitAtSeparator(a, '/', "");
        assert item in Split(a, '/');
        assert root == a + ['/'] + rest by {
          assert root[..|dir|] == dir;
        }
        SplitAtSeparator(a, '/', rest);
      } else {
        var rest := root[|dir| + 1..];
        assert root == dir + ['/'] + rest by {
          assert root[..|dir| + 1] == dir + "/";
        }
        SplitAtSeparator(dir, '/', rest);
      }
    }
  }

  /** The empty segment that ends a path written with a trailing '/' is not
      a segment of the directories below it, so an empty any-position name
      would exclude such a tree root but not its sub-directories. */
  lemma TrailingEmptySegmentNotInherited(a: string, name: string)
    requires a != "" && '/' !in a && name != "" && '/' !in name
    ensures "" in Split(a + "/", '/')
    ensures "" !in Split(a + "/" + name, '/')
  {
    assert a + "/" == a + ['/'] + "";
    assert a + "/" + name == a + ['/'] + name;
    SplitAtSeparator(a, '/', "");
    SplitAtSeparator(a, '/', name);
    SplitWithoutSeparator(a, '/');
    SplitWithoutSeparator(name, '/');
  }

  /** A listed non-empty any-position name among the tree root's own
      segments excludes the tree root and every directory the walk reaches
      from it. */
  lemma FolderSegmentExcludesTree(folder: string, root: string, rules: Rules, item: string)
    requires item in rules.anyPosDirs && item != "" && item in Split(folder, '/')
    requires WalkWithin(folder, root)
    ensures RootExcluded(folder, root, rules)
  {
    SegmentWithinWalk(folder, root, item);
  }

  /** A listed any-position name excludes a directory of that name below any
      directory, and everything inside it. */
  lemma AnyPositionBelow(folder: string, dir: string, item: string, root: string, rules: Rules)
    requires item in rules.anyPosDirs && '/' !in item
    requires Within(dir + "/" + item, root)
    ensures RootExcluded(folder, root, rules)
  {
    var sub := dir + "/" + item;
    assert sub == dir + ['/'] + item;
    SplitAtSeparator(dir, '/', item);
    SplitWithoutSeparator(item, '/');
    var parts := Split(sub, '/');
    assert parts[|parts| - 1] == item;
    ExcludedDescendant(folder, sub, root, rules);
  }

  /** The prefix rule is a text prefix, not a path prefix: for a tree root
      ending in '/', a listed `d` also excludes sibling directories whose
      names merely begin with `d`. */
  lemma PrefixRuleIsTextual(folder: string, d: string, suffix: string, rules: Rules)
    requires d in rules.dirs
    ensures RootExcluded(folder, folder + d + suffix, rules)
  {
    assert (folder + d + suffix)[..|folder + d|] == folder + d;
  }

  /** A top-level file name is ignored exactly in the tree root; elsewhere the
      same name is written unless another rule or the self test applies. */
  lemma TopDirFileOnlyInTreeRoot(folder: string, zipPath: string, rules: Rules, root: string, file: string)
    requires file in rules.topDirFiles
    requires Join(root, file) != folder + zipPath
    requires Join(root, file) !in rules.fullDirFiles && file !in rules.anyDirFiles
    ensures Verdict(folder, zipPath, rules, root, file) == Write <==> root != folder
    ensures root == folder ==> Verdict(folder, zipPath, rules, root, file) == Ignore
  {
  }
}
