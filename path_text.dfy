/** The few Python string and POSIX path operations the packer relies on:
    str.startswith, str.endswith, str.split with an explicit separator,
    posixpath.join, posixpath.basename, and os.path.relpath restricted to
    paths that lie under the base (a plain prefix strip). */
module PathText {

  /** Python `s.startswith(prefix)`. */
  predicate StartsWith(s: string, prefix: string)
  {
    |prefix| <= |s| && s[..|prefix|] == prefix
  }

  /** Python `s.endswith(suffix)`. */
  predicate EndsWith(s: string, suffix: string)
  {
    |suffix| <= |s| && s[|s| - |suffix|..] == suffix
  }

  /** Python `s.split(sep)` for a one-character separator: every occurrence
      of `sep` separates two segments, so empty segments are kept and the
      result is never empty (`"".split("/") == [""]`). */
  function Split(s: string, sep: char): (parts: seq<string>)
    ensures |parts| >= 1
    ensures forall k :: 0 <= k < |parts| ==> sep !in parts[k]
    ensures |parts| == 1 <==> sep !in s
    decreases |s|
  {
    if s == [] then [""]
    else
      var rest := Split(s[1..], sep);
      if s[0] == sep then [""] + rest
      else [[s[0]] + rest[0]] + rest[1..]
  }

  /** A string without the separator is its own only segment. */
  lemma {:induction false} SplitWithoutSeparator(s: string, sep: char)
    requires sep !in s
    ensures Split(s, sep) == [s]
    decreases |s|
  {
    if s != [] {
      assert sep !in s[1..];
      SplitWithoutSeparator(s[1..], sep);
      assert s == [s[0]] + s[1..];
    }
  }

  /** The first segment of a split is the text before the first separator:
      a prefix of `s` free of `sep`, followed in `s` by `sep` or by nothing. */
  lemma {:induction false} SplitHead(s: string, sep: char)
    ensures StartsWith(s, Split(s, sep)[0])
    ensures |Split(s, sep)[0]| < |s| ==> s[|Split(s, sep)[0]|] == sep
    decreases |s|
  {
    if s != [] && s[0] != sep {
      SplitHead(s[1..], sep);
      var h := Split(s[1..], sep)[0];
      assert Split(s, sep)[0] == [s[0]] + h;
      assert s[..|h| + 1] == [s[0]] + s[1..][..|h|];
    }
  }

  /** Python `sep.join(parts)`: the inverse of Split. */
  function JoinWith(parts: seq<string>, sep: char): string
  {
    if |parts| == 0 then ""
    else if |parts| == 1 then parts[0]
    else parts[0] + [sep] + JoinWith(parts[1..], sep)
  }

  /** Joining the segments of a split with the separator gives the string back. */
  lemma {:induction false} SplitRoundTrip(s: string, sep: char)
    ensures JoinWith(Split(s, sep), sep) == s
    decreases |s|
  {
    if s != [] {
      var rest := Split(s[1..], sep);
      SplitRoundTrip(s[1..], sep);
      if s[0] == sep {
        assert Split(s, sep) == [""] + rest;
        assert ([""] + rest)[1..] == rest;
      } else if |rest| == 1 {
        assert Split(s, sep) == [[s[0]] + rest[0]];
      } else {
        var parts := Split(s, sep);
        assert parts == [[s[0]] + rest[0]] + rest[1..];
        assert parts[1..] == rest[1..];
        assert JoinWith(rest, sep) == rest[0] + [sep] + JoinWith(rest[1..], sep);
      }
    }
  }

  /** Splitting at a separator that sits between `a` and `b` splits each side
      on its own: the segments of `a + [sep] + b` are those of `a` followed by
      those of `b`. */
  lemma {:induction false} SplitAtSeparator(a: string, sep: char, b: string)
    ensures Split(a + [sep] + b, sep) == Split(a, sep) + Split(b, sep)
    decreases |a|
  {
    var s := a + [sep] + b;
    if a == [] {
      assert s[0] == sep && s[1..] == b;
    } else {
      assert s[0] == a[0];
      assert s[1..] == a[1..] + [sep] + b;
      SplitAtSeparator(a[1..], sep, b);
    }
  }

  /** posixpath.join(a, b): an absolute `b` replaces `a`; otherwise `b` is
      appended, with a '/' in between unless `a` is empty or already ends
      with one. */
  function Join(a: string, b: string): string
  {
    if StartsWith(b, "/") then b
    else if a == "" || EndsWith(a, "/") then a + b
    else a + "/" + b
  }

  /** os.path.relpath(path, base) for a `path` beneath `base`: the prefix
      `base` and then one separating '/' are removed. A path that does not
      start with `base` is returned unchanged; the walk never produces one. */
  function RelPath(path: string, base: string): string
  {
    if StartsWith(path, base) then
      var rest := path[|base|..];
      if StartsWith(rest, "/") then rest[1..] else rest
    else path
  }

  /** posixpath.basename: the text after the last '/'. */
  function Basename(path: string): string
    decreases |path|
  {
    if '/' !in path then path else Basename(path[1..])
  }

  /** relpath undoes join: a relative path joined onto a base and then taken
      relative to that base again is the path itself. */
  lemma RelPathOfJoin(base: string, rel: string)
    requires !StartsWith(rel, "/")
    ensures RelPath(Join(base, rel), base) == rel
  {
    var p := Join(base, rel);
    if base == "" || EndsWith(base, "/") {
      assert p == base + rel;
      assert p[..|base|] == base && p[|base|..] == rel;
    } else {
      assert p == base + "/" + rel;
      assert p[..|base|] == base && p[|base|..] == "/" + rel;
      assert ("/" + rel)[1..] == rel;
    }
  }

  /** One-character prefix and suffix tests read as character tests. */
  lemma SlashEnds(s: string)
    ensures StartsWith(s, "/") <==> |s| >= 1 && s[0] == '/'
    ensures EndsWith(s, "/") <==> |s| >= 1 && s[|s| - 1] == '/'
  {
    if |s| >= 1 {
      assert s[..1] == [s[0]];
      assert s[|s| - 1..] == [s[|s| - 1]];
    }
  }

  /** The separator Join puts after `a`: none when `a` is empty or already
      ends with '/'. */
  function JoinSep(a: string): string
  {
    if a == "" || EndsWith(a, "/") then "" else "/"
  }

  /** Join of a relative component is concatenation with JoinSep. */
  lemma JoinShape(a: string, b: string)
    requires !StartsWith(b, "/")
    ensures Join(a, b) == a + JoinSep(a) + b
  {
  }

  /** Joining a non-empty relative `b` leaves a path that ends as `b` ends. */
  lemma JoinSepOfJoin(a: string, b: string)
    requires b != "" && !StartsWith(b, "/")
    ensures JoinSep(Join(a, b)) == JoinSep(b)
  {
    JoinShape(a, b);
    var ab := a + JoinSep(a) + b;
    SlashEnds(ab);
    SlashEnds(b);
    assert ab[|ab| - 1] == b[|b| - 1];
  }

  /** Joining onto a non-empty relative `b` gives a relative path. */
  lemma JoinStaysRelative(b: string, c: string)
    requires b != "" && !StartsWith(b, "/") && !StartsWith(c, "/")
    ensures !StartsWith(Join(b, c), "/")
  {
    JoinShape(b, c);
    var bc := b + JoinSep(b) + c;
    SlashEnds(bc);
    SlashEnds(b);
    assert bc[0] == b[0];
  }

  /** Joining is associative for relative components, so the path of a file
      in a sub-directory can be read as the directory joined with the
      file's path inside it. */
  lemma JoinAssociative(a: string, b: string, c: string)
    requires b != "" && !StartsWith(b, "/") && !StartsWith(c, "/")
    ensures Join(Join(a, b), c) == Join(a, Join(b, c))
  {
    JoinShape(a, b);
    JoinShape(b, c);
    JoinSepOfJoin(a, b);
    JoinStaysRelative(b, c);
    JoinShape(Join(a, b), c);
    JoinShape(a, Join(b, c));
    ConcatRegroup(a, JoinSep(a), b, JoinSep(b), c);
  }

  lemma ConcatRegroup(p: string, q: string, r: string, s: string, t: string)
    ensures (p + q + r) + s + t == p + q + (r + s + t)
  {
  }

  /** The basename of a path that ends in `x + name`, where `x` is empty or
      ends with '/' and `name` holds no '/', is `name`. */
  lemma {:induction false} BasenameAfterSeparator(x: string, name: string)
    requires x == "" || EndsWith(x, "/")
    requires '/' !in name
    ensures Basename(x + name) == name
    decreases |x|
  {
    if x != "" {
      assert (x + name)[|x| - 1] == '/';
      assert '/' in x + name;
      assert (x + name)[1..] == x[1..] + name;
      if |x| > 1 {
        assert x[1..][|x[1..]| - 1..] == x[|x| - 1..];
      }
      BasenameAfterSeparator(x[1..], name);
    }
  }

  /** The basename of a file's joined path is the file's own name. */
  lemma BasenameOfJoin(dir: string, name: string)
    requires '/' !in name
    ensures Basename(Join(dir, name)) == name
  {
    SlashEnds(name);
    assert !StartsWith(name, "/") by {
      if |name| >= 1 { assert name[0] in name; }
    }
    if dir == "" || EndsWith(dir, "/") {
      BasenameAfterSeparator(dir, name);
    } else {
      var d := dir + "/";
      assert Join(dir, name) == d + name;
      SlashEnds(d);
      BasenameAfterSeparator(d, name);
    }
  }
}
