# packnow in Dafny

packnow packs a directory tree into a ZIP archive. It skips what a
packignore template excludes. It can then host the archive over HTTP,
optionally behind a password, for another machine to fetch and extract.
This project models the decisions at the heart of that workflow and proves
what they guarantee:

- the walk of `zip_files`. Every directory the top-down walk visits is
  tested against the directory rules: textual prefixes under the tree
  root (which match only for a tree root ending in '/'), and names that may occur at any position. Every file of a
  directory that passes is then tested. The file at the self path
  `folder + zipPath` is skipped silently. Files matching a top-level, full-path or any-directory
  rule are reported as ignored. Everything else is appended to the
  archive under its path relative to the tree root.
- the two templates offered by `pack` (`replit-python` and `none`) and the
  lookup of the selected one;
- the archive name, `<name>.zip` or `<name>-<token>.zip`, where the token
  is the text of a UUID before its first '-';
- the host's probe (`/`) and download (`/get`) decisions, and the
  receiver's credential, download address and outcome.

Modules:

- `PathText` (`path_text.dfy`) models the Python string and POSIX path
  operations the packer uses: `startswith`, `endswith`, `split`,
  `posixpath.join`, `basename`, and `relpath` for paths under the base.
- `Packignore` (`packignore.dfy`) holds the rule set, the directory rule
  and the per-file verdict.
- `ZipWalk` (`zip_walk.dfy`) is the walk itself. It is an imperative
  method over an archive object whose member list only grows, proved
  against back-recursive specification functions.
- `ZipWalkProperties` (`zip_walk_properties.dfy`) proves what the walk
  guarantees.
- `Pack` (`pack.dfy`) holds the templates and the naming.
- `Transfer` (`transfer.dfy`) holds the HTTP decisions.

The filesystem walk is an input. It is the sequence of (directory, file
names) pairs that `os.walk(folder, topdown=True)` yields, in order. The
`ignoring` display is a returned sequence of reported paths. Whether it is
printed (`--show-ignore`) changes nothing else.

The self test is textual. The archive is opened at `zipPath` relative to
the working directory, but the walk compares each file's joined path with
`folder + zipPath`. The two coincide only when the tree root names the
working directory and ends in '/', as the default `./` does. With a tree
root of `.`, or one elsewhere such as `..`, the walk may list the archive
and hand it to `zipf.write` like any other file. The model keeps this behaviour:
`NeverWritesSelfPath` is about the self path, not about the archive's
location, and `Pack.SelfCheckIsTextual` shows the `.` case.

## Model

| member | source | states |
|---|---|---|
| Packignore.RootExcluded | packnow/main.py:32-33 | definition of the directory rule: a listed prefix under the tree root, or a listed any-position name among the directory's segments; its properties are the `Packignore` lemmas |
| Packignore.Verdict | packnow/main.py:38-46 | definition of the file rule: the self test first, then the top-level (tree root only), full-path and any-directory lists; its properties are `TopDirFileOnlyInTreeRoot` and the `ZipWalkProperties` lemmas |
| ZipWalk.EntryFor | packnow/main.py:38-49 | definition of a member: the joined path as source, its path relative to the tree root as name; described by `ArchiveNameMirrorsTree` |
| PathText.StartsWith | packnow/main.py:32 | definition of `str.startswith` |
| PathText.EndsWith | packnow/main.py:209 | definition of `str.endswith` |
| PathText.Join | packnow/main.py:38 | definition of `posixpath.join`; described by `JoinAssociative`, `RelPathOfJoin` and `BasenameOfJoin` |
| PathText.RelPath | packnow/main.py:49 | definition of `os.path.relpath` for paths under the base; described by `RelPathOfJoin` |
| PathText.Basename | packnow/main.py:37-38 | definition of the last component of a path, used to state `NeverWritesAnyDirName` about member sources; `BasenameOfJoin` shows it recovers the listed name |
| Pack.ReplitPython | packnow/main.py:160-172 | definition of the `replit-python` template's five lists; described by the `Pack.ReplitPython*` lemmas |
| Pack.NoneTemplate | packnow/main.py:173-179 | definition of the `none` template, all lists empty; described by `NoneTemplateWritesAllButSelf` |
| Transfer.HostAccepts | packnow/main.py:209 | definition of the host's file check, a ".zip" ending; described by `PackedArchiveIsHostable` |
| Transfer.Exchange | packnow/main.py:258-298 | definition of one probe, credential, `/get` and verdict round; described by `ExchangeSucceedsIffPasswordMatches` |
| ZipWalk.ZipFiles | packnow/main.py:29-49 | the archive's members and the ignored reports are exactly `Packed` and `Ignored` of the walk, in walk order |
| ZipWalk.WriteFiles | packnow/main.py:37-49 | for one directory that is not excluded, the archive grows by exactly that directory's packed members and the reports are exactly its ignored paths |
| ZipWalk.ZipArchive.Write | packnow/main.py:49 | writing appends one member (source path, archive name) and leaves the earlier members untouched |
| ZipWalk.ZipArchive.constructor | packnow/main.py:30 | a freshly opened archive has no members |
| ZipWalkProperties.PackedIsFilteredWalk | packnow/main.py:31-49 | the archive is the walk's file visits, filtered by the rules and mapped to their entries, in walk order; each passing file is written once per visit |
| ZipWalkProperties.PackedMember | packnow/main.py:31-49 | an entry is in the archive iff some visited file passes both the directory and the file rules and maps to that entry |
| ZipWalkProperties.VisitsMember | packnow/main.py:31-37 | a (directory, file) pair is visited iff the walk lists that file in that directory |
| ZipWalkProperties.WritesEveryUnmatchedFile | packnow/main.py:48-49 | every listed file that no rule excludes and that is not at the self path `folder + zipPath` is written under its relative path |
| ZipWalkProperties.NeverWritesSelfPath | packnow/main.py:39-40 | no member is read from the path `folder + zipPath` |
| ZipWalkProperties.FilesIgnoredMember | packnow/main.py:39-46 | a path is reported for a directory iff it is a listed file's joined path with verdict Ignore; the self path `folder + zipPath` is never reported |
| ZipWalkProperties.NeverWritesFullPathRule | packnow/main.py:43 | no member's source path is in the full-path list |
| ZipWalkProperties.NeverWritesAnyDirName | packnow/main.py:44 | when file names hold no '/', no member's basename is in the any-directory list |
| ZipWalkProperties.TopDirNameWrittenElsewhere | packnow/main.py:42 | a top-level name in a directory other than the tree root is written when no other rule applies |
| Packignore.TopDirFileOnlyInTreeRoot | packnow/main.py:42 | a top-level name is ignored in the tree root and written elsewhere, all else being equal, in both directions |
| Packignore.ExcludedDescendant | packnow/main.py:32-33 | a directory inside an excluded directory is excluded too, by either rule |
| Packignore.AnyPositionBelow | packnow/main.py:33 | a listed any-position name excludes a directory of that name below any directory, and its subtree |
| Packignore.PrefixRuleIsTextual | packnow/main.py:32 | a listed prefix `d` excludes every directory whose path starts with `folder + d`; for a tree root ending in '/' that includes siblings such as `.configs` for `.config` |
| Pack.PrefixRuleNeedsTrailingSlash | packnow/main.py:31-32 | for a tree root not ending in '/', no directory the walk reaches starts with `folder + d` for a relative `d`, so the prefix list excludes nothing |
| Packignore.SegmentWithinWalk | packnow/main.py:31-33 | a non-empty segment of the tree root is a segment of every directory the walk reaches from it, whether or not the root is written with a trailing '/' |
| Packignore.TrailingEmptySegmentNotInherited | packnow/main.py:33 | for a one-segment root and child, the empty segment after the root's trailing '/' is not a segment of the child, so only non-empty names carry over |
| Packignore.FolderSegmentExcludesTree | packnow/main.py:31-33 | a listed non-empty any-position name among the tree root's own segments excludes the tree root and every directory the walk reaches from it |
| ZipWalkProperties.FolderSegmentEmptiesArchive | packnow/main.py:31-35 | in that case the archive is empty, for any walk of that tree root, including roots written with a trailing '/' such as `./` |
| ZipWalkProperties.ExcludedKeepsNothing | packnow/main.py:32-35 | no file of an excluded directory passes the filter |
| ZipWalkProperties.FilesPackedIsKeep | packnow/main.py:37-49 | the inner loop's members are the directory's visits that pass the file rules |
| ZipWalkProperties.ExcludedSubtreeAddsNothing | packnow/main.py:31-35 | the archive is unchanged if every directory inside an excluded one is removed from the walk, although the walk does visit them |
| ZipWalkProperties.ExcludedRootReported | packnow/main.py:32-35 | an excluded directory contributes no member, is reported exactly once by its own step, and appears among the walk's reports |
| ZipWalkProperties.IgnoredPrefix | packnow/main.py:31-35 | the reports only grow as the walk proceeds: those of a prefix are a prefix of the whole |
| ZipWalkProperties.NoRulesWriteAllButSelf | packnow/main.py:37-49 | with every list empty, exactly the visited files other than the one at the self path `folder + zipPath` pass |
| ZipWalkProperties.WalkWithNoRules | packnow/main.py:31-49 | with every list empty, the archive holds every visited file except the one at the self path, in walk order |
| ZipWalkProperties.ArchiveNameMirrorsTree | packnow/main.py:38-49 | a member's name is the file name in the tree root, and the directory's path inside the tree joined with the file name below it |
| ZipWalkProperties.FileVisits | packnow/main.py:37 | one visit per listed file, in listing order |
| PathText.Split | packnow/main.py:33 | `str.split('/')` yields at least one segment, none holding the separator, and a single one exactly when there is no separator |
| PathText.SplitWithoutSeparator | packnow/main.py:33 | a string without the separator splits into itself alone |
| PathText.SplitHead | packnow/main.py:141 | the first segment is the prefix before the first separator |
| PathText.SplitRoundTrip | packnow/main.py:33 | joining the segments with the separator gives the string back |
| PathText.SplitAtSeparator | packnow/main.py:33 | splitting `a + sep + b` gives the segments of `a` followed by those of `b` |
| PathText.RelPathOfJoin | packnow/main.py:38-49 | relpath undoes joining a relative path onto the base |
| PathText.JoinAssociative | packnow/main.py:38 | joining relative components is associative |
| PathText.BasenameOfJoin | packnow/main.py:38-44 | the basename of a joined file path is the file name |
| Pack.Template | packnow/main.py:146-180 | the lookup succeeds exactly for the two offered names |
| Pack.TemplatesUseBareNames | packnow/main.py:159-180 | both templates hold only names without '/' in their name lists |
| Pack.NoneTemplateWritesAllButSelf | packnow/main.py:173-180 | under `none` every visited file except the one at the self path `folder + zipPath` is written, in walk order |
| Pack.ReplitPythonConfigPrefix | packnow/main.py:161 | under `replit-python`, for a tree root ending in '/', every tree-root directory whose name starts with `.config` is excluded |
| Pack.ReplitPythonPycache | packnow/main.py:162 | under `replit-python`, a `__pycache__` directory at any depth is excluded with its subtree |
| Pack.ReplitPythonTopLevelFile | packnow/main.py:164-170 | under `replit-python`, `.replit` is ignored exactly in the tree root and written in every other directory that is not excluded, unless its path is the self path |
| Pack.SelfCheckIsTextual | packnow/main.py:38-40 | for any relative archive name, the self test matches the file at "./" + name when the tree root is "./" but not when it is ".", where the joined path "./" + name differs from "." + name |
| Pack.UuidToken | packnow/main.py:141 | the token is a '-'-free prefix of the UUID text, followed in it by '-' or by nothing |
| Pack.PackFileName | packnow/main.py:139-141 | the name starts with the given name and ends in ".zip"; with the UUID the given name is followed by '-' and exactly the token |
| Pack.UniqueNamesDiffer | packnow/main.py:141 | different tokens give different archive names |
| Transfer.PackedArchiveIsHostable | packnow/main.py:193-209 | the archive a pack writes always passes the host's ".zip" check |
| Transfer.Index | packnow/main.py:242 | the probe reports a password requirement iff the password is non-empty |
| Transfer.Get | packnow/main.py:247-254 | `/get` serves the file as "packnow.zip" iff the password is empty or the Authorization header equals it; otherwise 401 with error "password" |
| Transfer.StatusOf | packnow/main.py:251-254 | the status is 200 exactly for a served file |
| Transfer.MissingHeaderIsRefused | packnow/main.py:248-251 | with a password, a request without the header is refused |
| Transfer.NoPasswordServesEveryRequest | packnow/main.py:242-247 | without a password, every request is served and no password is announced |
| Transfer.Credential | packnow/main.py:263 | the receiver sends the typed password when asked for one, the empty text otherwise |
| Transfer.FetchUrl | packnow/main.py:265 | the download address extends the given one and ends in "/get", with a '/' added only when the given address does not already end in one |
| Transfer.FetchUrlIgnoresTrailingSlash | packnow/main.py:265 | a trailing '/' on the given address yields the same download address |
| Transfer.Outcome | packnow/main.py:275-298 | the receiver extracts iff the status is 200; otherwise a wrong password iff one was asked for, else a failed fetch of the given address |
| Transfer.ExchangeSucceedsIffPasswordMatches | packnow/main.py:242-298 | a full exchange extracts iff the host has no password or the typed one matches; any failure is reported as a wrong password |

## Left out

- The filesystem and ZIP writing. The walk's listing is a parameter; file contents, compression and the archive's bytes are not modelled.
- `os.path.relpath` is modelled for paths beneath the base, which is all the walk produces. It does no normalisation of `.` or `..`.
- "Written exactly once" is stated as a filter equation (`PackedIsFilteredWalk`), not as a count. A file listed twice by the walk would be written twice, as in the source.
- Cleanup after a failed pack (lines 200-206): the archive is removed and the error printed. A failed template lookup is modelled as `None` from `Pack.Template`.
- Console output: colours, progress lines, timing and the warning about `--disable-uuid`. The `ignoring` display is modelled only as the returned reports.
- The interactive prompts: template selection, the host-after-pack question, and password entry (lines 146-149, 188-196, 263). Their answers are parameters. The switch to hosting on 0.0.0.0:8080 is not modelled.
- The HTTP server and client (FastAPI, uvicorn, `requests`): asynchronous handling, streaming in 1024-byte chunks and JSON decoding. Only the handlers' and the receiver's decisions are modelled.
- Randomness and time: `uuid.uuid4` is a parameter (its text). The receiver's temporary name (line 259) and extraction directory (line 282) are not modelled.
- Transfer.ExchangeSucceedsIffPasswordMatches: assumes the Authorization value reaches the host unchanged. The HTTP stack may strip whitespace at either end of a header value, or refuse to send a value with leading whitespace. So a password with whitespace at either end may never match, or may make the receiver fail, instead of being reported as a wrong password. It also assumes the hosted file exists: the host checks only the ".zip" ending (line 209), so a missing file fails when it is sent, and the receiver then reports a wrong password (or a failed fetch when no password is set) although the password matched.
- The address announcement (socket host lookup, `REPL_SLUG`/`REPL_OWNER`) and ZIP extraction in the receiver.
- The command-line parser and the installation script `setup.py`.
