/** What the exclusion walk guarantees about the archive it produces, stated
    against a flat reference reading: list every (directory, file) pair the
    walk visits, in walk order, and keep the ones the rules let through. */
module ZipWalkProperties {
  import opened PathText
  import opened Packignore
  import opened ZipWalk

  /** A file as the walk lists it: its directory and its bare name. */
  datatype Visit = Visit(root: string, file: string)

  /** The files of one directory, in listing order. */
  function FileVisits(root: string, files: seq<string>): (vs: seq<Visit>)
    ensures |vs| == |files|
    ensures forall k :: 0 <= k < |files| ==> vs[k] == Visit(root, files[k])
  {
    if files == [] then []
    else FileVisits(root, files[..|files| - 1]) + [Visit(root, files[|files| - 1])]
  }

  /** Every file the walk lists, directory by directory, in walk order. */
  function Visits(walk: seq<WalkEntry>): seq<Visit>
  {
    if walk == [] then []
    else Visits(walk[..|walk| - 1]) + FileVisits(walk[|walk| - 1].root, walk[|walk| - 1].files)
  }

  /** A visited file is written: its directory passes the directory rule and
      the file passes the self check and the file rules. */
  predicate Kept(folder: string, zipPath: string, rules: Rules, v: Visit)
  {
    !RootExcluded(folder, v.root, rules) && Verdict(folder, zipPath, rules, v.root, v.file) == Write
  }

  /** The members for the kept visits, in order. */
  function Keep(folder: string, zipPath: string, rules: Rules, vs: seq<Visit>): seq<Entry>
  {
    if vs == [] then []
    else
      (if Kept(folder, zipPath, rules, vs[0]) then [EntryFor(folder, vs[0].root, vs[0].file)] else [])
        + Keep(folder, zipPath, rules, vs[1..])
  }

  /** The members for every visit except the one whose path is `self`. */
  function AllButSelf(folder: string, self: string, vs: seq<Visit>): seq<Entry>
  {
    if vs == [] then []
    else
      (if Join(vs[0].root, vs[0].file) == self then [] else [EntryFor(folder, vs[0].root, vs[0].file)])
        + AllButSelf(folder, self, vs[1..])
  }

  /** File names as the walk lists them never hold a '/'. */
  ghost predicate PlainNames(walk: seq<WalkEntry>)
  {
    forall i, f :: 0 <= i < |walk| && f in walk[i].files ==> '/' !in f
  }

  /** `walk` with every step inside `dir` removed. */
  function Prune(walk: seq<WalkEntry>, dir: string): seq<WalkEntry>
  {
    if walk == [] then []
    else
      Prune(walk[..|walk| - 1], dir) + (if Within(dir, walk[|walk| - 1].root) then [] else [walk[|walk| - 1]])
  }

  lemma {:induction false} KeepConcat(folder: string, zipPath: string, rules: Rules, a: seq<Visit>, b: seq<Visit>)
    ensures Keep(folder, zipPath, rules, a + b) == Keep(folder, zipPath, rules, a) + Keep(folder, zipPath, rules, b)
    decreases |a|
  {
    if a == [] {
      assert a + b == b;
    } else {
      var ab := a + b;
      assert ab[0] == a[0];
      assert ab[1..] == a[1..] + b;
      KeepConcat(folder, zipPath, rules, a[1..], b);
      var head := if Kept(folder, zipPath, rules, a[0]) then [EntryFor(folder, a[0].root, a[0].file)] else [];
      assert Keep(folder, zipPath, rules, ab) == head + Keep(folder, zipPath, rules, ab[1..]);
      assert Keep(folder, zipPath, rules, a) == head + Keep(folder, zipPath, rules, a[1..]);
    }
  }

  /** The files of an excluded directory are never kept. */
  lemma {:induction false} ExcludedKeepsNothing(folder: string, zipPath: string, rules: Rules, root: string, files: seq<string>)
    requires RootExcluded(folder, root, rules)
    ensures Keep(folder, zipPath, rules, FileVisits(root, files)) == []
    decreases |files|
  {
    if files != [] {
      var last := Visit(root, files[|files| - 1]);
      ExcludedKeepsNothing(folder, zipPath, rules, root, files[..|files| - 1]);
      KeepConcat(folder, zipPath, rules, FileVisits(root, files[..|files| - 1]), [last]);
    }
  }

  /** The inner loop keeps exactly the files the rules let through. */
  lemma {:induction false} FilesPackedIsKeep(folder: string, zipPath: string, rules: Rules, root: string, files: seq<string>)
    requires !RootExcluded(folder, root, rules)
    ensures FilesPacked(folder, zipPath, rules, root, files) == Keep(folder, zipPath, rules, FileVisits(root, files))
    decreases |files|
  {
    if files != [] {
      var last := Visit(root, files[|files| - 1]);
      FilesPackedIsKeep(folder, zipPath, rules, root, files[..|files| - 1]);
      KeepConcat(folder, zipPath, rules, FileVisits(root, files[..|files| - 1]), [last]);
    }
  }

  /** The archive is exactly the kept files, each once per listing, in walk
      order: the nested loops with their early `continue`s amount to one
      filter over everything the walk lists. */
  lemma {:induction false} PackedIsFilteredWalk(folder: string, zipPath: string, rules: Rules, walk: seq<WalkEntry>)
    ensures Packed(folder, zipPath, rules, walk) == Keep(folder, zipPath, rules, Visits(walk))
    decreases |walk|
  {
    if walk != [] {
      var init, e := walk[..|walk| - 1], walk[|walk| - 1];
      PackedIsFilteredWalk(folder, zipPath, rules, init);
      KeepConcat(folder, zipPath, rules, Visits(init), FileVisits(e.root, e.files));
      if RootExcluded(folder, e.root, rules) {
        ExcludedKeepsNothing(folder, zipPath, rules, e.root, e.files);
      } else {
        FilesPackedIsKeep(folder, zipPath, rules, e.root, e.files);
      }
    }
  }

  lemma {:induction false} KeepMember(folder: string, zipPath: string, rules: Rules, vs: seq<Visit>, e: Entry)
    ensures e in Keep(folder, zipPath, rules, vs)
        <==> exists v :: v in vs && Kept(folder, zipPath, rules, v) && e == EntryFor(folder, v.root, v.file)
    decreases |vs|
  {
    if vs != [] {
      KeepMember(folder, zipPath, rules, vs[1..], e);
      assert forall v :: v in vs <==> v == vs[0] || v in vs[1..];
    }
  }

  /** A member is in the archive exactly when some listed file that the rules
      let through produces it. */
  lemma PackedMember(folder: string, zipPath: string, rules: Rules, walk: seq<WalkEntry>, e: Entry)
    ensures e in Packed(folder, zipPath, rules, walk)
        <==> exists v :: v in Visits(walk) && Kept(folder, zipPath, rules, v) && e == EntryFor(folder, v.root, v.file)
  {
    PackedIsFilteredWalk(folder, zipPath, rules, walk);
    KeepMember(folder, zipPath, rules, Visits(walk), e);
  }

  /** The visits are exactly the files listed in the walk's steps. */
  lemma {:induction false} VisitsMember(walk: seq<WalkEntry>, v: Visit)
    ensures v in Visits(walk) <==> exists i :: 0 <= i < |walk| && v.root == walk[i].root && v.file in walk[i].files
    decreases |walk|
  {
    if walk != [] {
      var init, e := walk[..|walk| - 1], walk[|walk| - 1];
      VisitsMember(init, v);
      var fv := FileVisits(e.root, e.files);
      assert v in fv <==> v.root == e.root && v.file in e.files by {
        if v in fv {
          var k :| 0 <= k < |fv| && fv[k] == v;
        }
        if v.root == e.root && v.file in e.files {
          var k :| 0 <= k < |e.files| && e.files[k] == v.file;
          assert fv[k] == v;
        }
      }
      assert forall i :: 0 <= i < |init| ==> init[i] == walk[i];
    }
  }

  /** The archive never holds the file whose path is `folder + zipPath`. */
  lemma NeverWritesSelfPath(folder: string, zipPath: string, rules: Rules, walk: seq<WalkEntry>)
    ensures forall e :: e in Packed(folder, zipPath, rules, walk) ==> e.source != folder + zipPath
  {
    forall e | e in Packed(folder, zipPath, rules, walk)
      ensures e.source != folder + zipPath
    {
      PackedMember(folder, zipPath, rules, walk, e);
    }
  }

  /** No member's source path is listed in `full_dir_files`. */
  lemma NeverWritesFullPathRule(folder: string, zipPath: string, rules: Rules, walk: seq<WalkEntry>)
    ensures forall e :: e in Packed(folder, zipPath, rules, walk) ==> e.source !in rules.fullDirFiles
  {
    forall e | e in Packed(folder, zipPath, rules, walk)
      ensures e.source !in rules.fullDirFiles
    {
      PackedMember(folder, zipPath, rules, walk, e);
    }
  }

  /** No member's file name is listed in `any_dir_files`, in any directory. */
  lemma NeverWritesAnyDirName(folder: string, zipPath: string, rules: Rules, walk: seq<WalkEntry>)
    requires PlainNames(walk)
    ensures forall e :: e in Packed(folder, zipPath, rules, walk) ==> Basename(e.source) !in rules.anyDirFiles
  {
    forall e | e in Packed(folder, zipPath, rules, walk)
      ensures Basename(e.source) !in rules.anyDirFiles
    {
      PackedMember(folder, zipPath, rules, walk, e);
      var v :| v in Visits(walk) && Kept(folder, zipPath, rules, v) && e == EntryFor(folder, v.root, v.file);
      VisitsMember(walk, v);
      BasenameOfJoin(v.root, v.file);
    }
  }

  /** Every listed file of a directory that is not excluded, that is not at
      the self path and that matches no file rule, is in the archive. */
  lemma WritesEveryUnmatchedFile(folder: string, zipPath: string, rules: Rules, walk: seq<WalkEntry>, i: nat, file: string)
    requires i < |walk| && file in walk[i].files
    requires Kept(folder, zipPath, rules, Visit(walk[i].root, file))
    ensures EntryFor(folder, walk[i].root, file) in Packed(folder, zipPath, rules, walk)
  {
    var v := Visit(walk[i].root, file);
    VisitsMember(walk, v);
    PackedMember(folder, zipPath, rules, walk, EntryFor(folder, walk[i].root, file));
  }

  /** A `top_dir_files` name that sits in another directory that is not
      excluded is written, unless the self check or another rule applies. */
  lemma TopDirNameWrittenElsewhere(folder: string, zipPath: string, rules: Rules, walk: seq<WalkEntry>, i: nat, file: string)
    requires i < |walk| && file in walk[i].files
    requires file in rules.topDirFiles && walk[i].root != folder
    requires !RootExcluded(folder, walk[i].root, rules)
    requires Join(walk[i].root, file) != folder + zipPath
    requires Join(walk[i].root, file) !in rules.fullDirFiles && file !in rules.anyDirFiles
    ensures EntryFor(folder, walk[i].root, file) in Packed(folder, zipPath, rules, walk)
  {
    TopDirFileOnlyInTreeRoot(folder, zipPath, rules, walk[i].root, file);
    WritesEveryUnmatchedFile(folder, zipPath, rules, walk, i, file);
  }

  /** An excluded directory's subtree adds nothing at any depth: the archive
      is the same as if the walk had skipped every directory inside it, even
      though the walk visits them all. */
  lemma {:induction false} ExcludedSubtreeAddsNothing(folder: string, zipPath: string, rules: Rules, walk: seq<WalkEntry>, dir: string)
    requires RootExcluded(folder, dir, rules)
    ensures Packed(folder, zipPath, rules, walk) == Packed(folder, zipPath, rules, Prune(walk, dir))
    decreases |walk|
  {
    if walk != [] {
      var init, e := walk[..|walk| - 1], walk[|walk| - 1];
      ExcludedSubtreeAddsNothing(folder, zipPath, rules, init, dir);
      if Within(dir, e.root) {
        ExcludedDescendant(folder, dir, e.root, rules);
        assert RootPacked(folder, zipPath, rules, e) == [];
        assert Prune(walk, dir) == Prune(init, dir) + [] == Prune(init, dir);
        assert Packed(folder, zipPath, rules, walk) == Packed(folder, zipPath, rules, init) + [];
      } else {
        var kept := Prune(init, dir) + [e];
        WalkStep(folder, zipPath, rules, kept, |kept| - 1);
        assert kept[..|kept| - 1] == Prune(init, dir) && kept[..|kept|] == kept;
      }
    }
  }

  /** The reports of a prefix of the walk are a prefix of the walk's reports. */
  lemma {:induction false} IgnoredPrefix(folder: string, zipPath: string, rules: Rules, walk: seq<WalkEntry>, n: nat)
    requires n <= |walk|
    ensures Ignored(folder, zipPath, rules, walk[..n]) <= Ignored(folder, zipPath, rules, walk)
    decreases |walk|
  {
    if n == |walk| {
      assert walk[..n] == walk;
    } else {
      var init := walk[..|walk| - 1];
      IgnoredPrefix(folder, zipPath, rules, init, n);
      assert init[..n] == walk[..n];
    }
  }

  /** An excluded directory is reported to the "ignoring" display, alone:
      none of its files is reported or written. */
  lemma ExcludedRootReported(folder: string, zipPath: string, rules: Rules, walk: seq<WalkEntry>, i: nat)
    requires i < |walk| && RootExcluded(folder, walk[i].root, rules)
    ensures RootIgnored(folder, zipPath, rules, walk[i]) == [walk[i].root]
    ensures RootPacked(folder, zipPath, rules, walk[i]) == []
    ensures walk[i].root in Ignored(folder, zipPath, rules, walk)
  {
    IgnoredPrefix(folder, zipPath, rules, walk, i + 1);
    WalkStep(folder, zipPath, rules, walk, i);
    var reports := Ignored(folder, zipPath, rules, walk[..i + 1]);
    assert reports[|reports| - 1] == walk[i].root;
  }

  /** The self path `folder + zipPath` is skipped without a report: in a directory
      that is not excluded, the paths reported are exactly the files that
      match a file rule, and the self path is never among them. */
  lemma {:induction false} FilesIgnoredMember(folder: string, zipPath: string, rules: Rules, root: string, files: seq<string>, p: string)
    ensures p in FilesIgnored(folder, zipPath, rules, root, files)
        <==> exists f :: f in files && Verdict(folder, zipPath, rules, root, f) == Ignore && p == Join(root, f)
    ensures p == folder + zipPath ==> p !in FilesIgnored(folder, zipPath, rules, root, files)
    decreases |files|
  {
    if files != [] {
      var init, last := files[..|files| - 1], files[|files| - 1];
      FilesIgnoredMember(folder, zipPath, rules, root, init, p);
      assert forall f :: f in files <==> f in init || f == last by {
        assert files == init + [last];
      }
    }
  }

  /** With a rule set whose every list is empty, everything the walk lists is
      written, in walk order, except the one at the self path. */
  lemma {:induction false} NoRulesWriteAllButSelf(folder: string, zipPath: string, rules: Rules, vs: seq<Visit>)
    requires NoRules(rules)
    ensures Keep(folder, zipPath, rules, vs) == AllButSelf(folder, folder + zipPath, vs)
    decreases |vs|
  {
    if vs != [] {
      NoRulesWriteAllButSelf(folder, zipPath, rules, vs[1..]);
    }
  }

  lemma WalkWithNoRules(folder: string, zipPath: string, rules: Rules, walk: seq<WalkEntry>)
    requires NoRules(rules)
    ensures Packed(folder, zipPath, rules, walk) == AllButSelf(folder, folder + zipPath, Visits(walk))
  {
    PackedIsFilteredWalk(folder, zipPath, rules, walk);
    NoRulesWriteAllButSelf(folder, zipPath, rules, Visits(walk));
  }

  /** An any-position name among the tree root's own segments empties the
      archive: every directory the walk visits lies inside the tree root. */
  lemma {:induction false} FolderSegmentEmptiesArchive(folder: string, zipPath: string, rules: Rules, walk: seq<WalkEntry>, item: string)
    requires item in rules.anyPosDirs && item != "" && item in Split(folder, '/')
    requires forall i :: 0 <= i < |walk| ==> WalkWithin(folder, walk[i].root)
    ensures Packed(folder, zipPath, rules, walk) == []
    decreases |walk|
  {
    if walk != [] {
      var init, e := walk[..|walk| - 1], walk[|walk| - 1];
      assert forall i :: 0 <= i < |init| ==> init[i] == walk[i];
      FolderSegmentEmptiesArchive(folder, zipPath, rules, init, item);
      FolderSegmentExcludesTree(folder, e.root, rules, item);
    }
  }

  /** Member names mirror the tree: a file directly in the tree root is named
      by its bare name, and a file in sub-directory `sub` by `sub` joined with
      its name. */
  lemma ArchiveNameMirrorsTree(folder: string, sub: string, file: string)
    requires sub != "" && !StartsWith(sub, "/") && !StartsWith(file, "/")
    ensures EntryFor(folder, folder, file).name == file
    ensures EntryFor(folder, Join(folder, sub), file).name == Join(sub, file)
    ensures EntryFor(folder, Join(folder, sub), file).source == Join(folder, Join(sub, file))
  {
    RelPathOfJoin(folder, file);
    JoinAssociative(folder, sub, file);
    var sf := Join(sub, file);
    assert !StartsWith(sf, "/") by {
      SlashEnds(sub);
      SlashEnds(sf);
      if EndsWith(sub, "/") { assert sf == sub + file; } else { assert sf == sub + "/" + file; }
      assert sf[0] == sub[0];
    }
    RelPathOfJoin(folder, sf);
  }
}
