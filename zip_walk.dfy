/** The exclusion walk of the packer (`zip_files`): every directory the walk
    visits is tested against the directory rule, and every file of a directory
    that passes is tested against the self check and the file rules; the files
    that pass are appended to the open archive under their path relative to
    the tree root. */
module ZipWalk {
  import opened PathText
  import opened Packignore

  /** One step of the top-down walk: a visited directory and the names of the
      files directly in it, as the walk lists them. */
  datatype WalkEntry = WalkEntry(root: string, files: seq<string>)

  /** One archive member: the file read from disk and the name it gets. */
  datatype Entry = Entry(source: string, name: string)

  /** The open archive; members are only ever appended. */
  class ZipArchive {
    var entries: seq<Entry>

    constructor ()
      ensures entries == []
    {
      entries := [];
    }

    /** Adds the file at `source` under the member name `name`. */
    method Write(source: string, name: string)
      modifies this
      ensures entries == old(entries) + [Entry(source, name)]
    {
      entries := entries + [Entry(source, name)];
    }
  }

  /** The member written for `file` in directory `root`. */
  function EntryFor(folder: string, root: string, file: string): Entry
  {
    var path := Join(root, file);
    Entry(path, RelPath(path, folder))
  }

  /** The members written for the files of a directory that is not excluded. */
  function FilesPacked(folder: string, zipPath: string, rules: Rules, root: string, files: seq<string>): seq<Entry>
  {
    if files == [] then []
    else
      var file := files[|files| - 1];
      FilesPacked(folder, zipPath, rules, root, files[..|files| - 1])
        + (if Verdict(folder, zipPath, rules, root, file) == Write then [EntryFor(folder, root, file)] else [])
  }

  /** The paths reported as ignored among the files of a directory that is
      not excluded. */
  function FilesIgnored(folder: string, zipPath: string, rules: Rules, root: string, files: seq<string>): seq<string>
  {
    if files == [] then []
    else
      var file := files[|files| - 1];
      FilesIgnored(folder, zipPath, rules, root, files[..|files| - 1])
        + (if Verdict(folder, zipPath, rules, root, file) == Ignore then [Join(root, file)] else [])
  }

  /** The members one walk step contributes. */
  function RootPacked(folder: string, zipPath: string, rules: Rules, e: WalkEntry): seq<Entry>
  {
    if RootExcluded(folder, e.root, rules) then [] else FilesPacked(folder, zipPath, rules, e.root, e.files)
  }

  /** The reports one walk step makes: the directory alone when it is
      excluded, its ignored files otherwise. */
  function RootIgnored(folder: string, zipPath: string, rules: Rules, e: WalkEntry): seq<string>
  {
    if RootExcluded(folder, e.root, rules) then [e.root] else FilesIgnored(folder, zipPath, rules, e.root, e.files)
  }

  /** The archive's members after the whole walk, in walk order. */
  function Packed(folder: string, zipPath: string, rules: Rules, walk: seq<WalkEntry>): seq<Entry>
  {
    if walk == [] then []
    else Packed(folder, zipPath, rules, walk[..|walk| - 1]) + RootPacked(folder, zipPath, rules, walk[|walk| - 1])
  }

  /** Everything reported as ignored during the whole walk, in walk order. */
  function Ignored(folder: string, zipPath: string, rules: Rules, walk: seq<WalkEntry>): seq<string>
  {
    if walk == [] then []
    else Ignored(folder, zipPath, rules, walk[..|walk| - 1]) + RootIgnored(folder, zipPath, rules, walk[|walk| - 1])
  }

  /** One more walk step appends that step's members and reports. */
  lemma WalkStep(folder: string, zipPath: string, rules: Rules, walk: seq<WalkEntry>, i: nat)
    requires i < |walk|
    ensures Packed(folder, zipPath, rules, walk[..i + 1])
         == Packed(folder, zipPath, rules, walk[..i]) + RootPacked(folder, zipPath, rules, walk[i])
    ensures Ignored(folder, zipPath, rules, walk[..i + 1])
         == Ignored(folder, zipPath, rules, walk[..i]) + RootIgnored(folder, zipPath, rules, walk[i])
  {
    var w := walk[..i + 1];
    assert w[..|w| - 1] == walk[..i] && w[|w| - 1] == walk[i];
  }

  /** One more file appends that file's member or report. */
  lemma FileStep(folder: string, zipPath: string, rules: Rules, root: string, files: seq<string>, j: nat)
    requires j < |files|
    ensures FilesPacked(folder, zipPath, rules, root, files[..j + 1])
         == FilesPacked(folder, zipPath, rules, root, files[..j])
            + (if Verdict(folder, zipPath, rules, root, files[j]) == Write then [EntryFor(folder, root, files[j])] else [])
    ensures FilesIgnored(folder, zipPath, rules, root, files[..j + 1])
         == FilesIgnored(folder, zipPath, rules, root, files[..j])
            + (if Verdict(folder, zipPath, rules, root, files[j]) == Ignore then [Join(root, files[j])] else [])
  {
    var fs := files[..j + 1];
    assert fs[..|fs| - 1] == files[..j] && fs[|fs| - 1] == files[j];
  }

  /** The inner loop of the walk, over the files of one directory that is
      not excluded: the file at the self path `folder + zipPath` is skipped
      silently, a file matching a
      file rule is reported, and every other file is appended to `zipf` under
      its path relative to the tree root. Returns the reported paths. */
  method WriteFiles(zipf: ZipArchive, folder: string, zipPath: string, rules: Rules, root: string, files: seq<string>)
    returns (reports: seq<string>)
    modifies zipf
    ensures zipf.entries == old(zipf.entries) + FilesPacked(folder, zipPath, rules, root, files)
    ensures reports == FilesIgnored(folder, zipPath, rules, root, files)
  {
    reports := [];
    var j := 0;
    while j < |files|
      invariant 0 <= j <= |files|
      invariant zipf.entries == old(zipf.entries) + FilesPacked(folder, zipPath, rules, root, files[..j])
      invariant reports == FilesIgnored(folder, zipPath, rules, root, files[..j])
    {
      var file := files[j];
      var filePath := Join(root, file);
      FileStep(folder, zipPath, rules, root, files, j);
      if filePath == folder + zipPath {
        // the self path: skipped without a report
      } else if (file in rules.topDirFiles && root == folder)
             || filePath in rules.fullDirFiles
             || file in rules.anyDirFiles {
        reports := reports + [filePath];
      } else {
        zipf.Write(filePath, RelPath(filePath, folder));
      }
      j := j + 1;
    }
    assert files[..j] == files;
  }

  /** Walks the tree and fills a fresh archive. `entries` are the archive's
      members when it is closed; `ignored` are the paths handed to the
      optional "ignoring" display, which has no other effect. An excluded
      directory is reported and its files are not looked at, but the walk
      still visits the directories below it. */
  method ZipFiles(folder: string, zipPath: string, rules: Rules, walk: seq<WalkEntry>)
    returns (entries: seq<Entry>, ignored: seq<string>)
    ensures entries == Packed(folder, zipPath, rules, walk)
    ensures ignored == Ignored(folder, zipPath, rules, walk)
  {
    var zipf := new ZipArchive();
    ignored := [];
    var i := 0;
    while i < |walk|
      invariant 0 <= i <= |walk|
      invariant zipf.entries == Packed(folder, zipPath, rules, walk[..i])
      invariant ignored == Ignored(folder, zipPath, rules, walk[..i])
    {
      var root, files := walk[i].root, walk[i].files;
      WalkStep(folder, zipPath, rules, walk, i);
      if RootExcluded(folder, root, rules) {
        assert RootPacked(folder, zipPath, rules, walk[i]) == [];
        ignored := ignored + [root];
      } else {
        assert RootPacked(folder, zipPath, rules, walk[i]) == FilesPacked(folder, zipPath, rules, root, files);
        assert RootIgnored(folder, zipPath, rules, walk[i]) == FilesIgnored(folder, zipPath, rules, root, files);
        var reports := WriteFiles(zipf, folder, zipPath, rules, root, files);
        ignored := ignored + reports;
      }
      i := i + 1;
    }
    assert walk[..i] == walk;
    entries := zipf.entries;
  }
}
