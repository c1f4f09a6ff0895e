/**
 `os.path.join` as the POSIX `posixpath.join` of Python 2 does it, for the
 paths the importer writes to.
 */
module Paths {
  import opened Text

  /**
   Joins two path components: a component that starts with `/` replaces
   everything before it, and a `/` is put in between only when the first
   part is non-empty and does not already end with one.
   */
  function PathJoin(a: string, b: string): (r: string)
    ensures HasSuffix(r, b)
    ensures HasPrefix(b, "/") ==> r == b
    ensures !HasPrefix(b, "/") ==> HasPrefix(r, a)
  {
    if HasPrefix(b, "/") then b
    else if |a| == 0 || a[|a| - 1] == '/' then a + b
    else a + "/" + b
  }

  /** A relative component is appended to a directory with exactly one `/` between them. */
  lemma PathJoinRelative(a: string, b: string)
    requires |a| > 0 && a[|a| - 1] != '/'
    requires |b| == 0 || b[0] != '/'
    ensures PathJoin(a, b) == a + "/" + b
    ensures PathJoin(a, b)[..|a|] == a && PathJoin(a, b)[|a| + 1..] == b
  {
    assert !HasPrefix(b, "/") by {
      if |b| > 0 { assert b[..1] == [b[0]]; }
    }
    var r := a + "/" + b;
    assert r[..|a|] == a;
    assert r[|a| + 1..] == b;
  }

  /** `join(a, b, c)` is `join(join(a, b), c)`, as the source's three-argument call reads. */
  function PathJoin3(a: string, b: string, c: string): (r: string)
    ensures HasSuffix(r, c)
  {
    PathJoin(PathJoin(a, b), c)
  }

  /**
   A relative component is appended as it is to an empty directory or one
   that already ends with `/`: no second slash is added.
   */
  lemma PathJoinAppend(a: string, b: string)
    requires |b| == 0 || b[0] != '/'
    requires |a| == 0 || a[|a| - 1] == '/'
    ensures PathJoin(a, b) == a + b
  {
    assert !HasPrefix(b, "/") by {
      if |b| > 0 { assert b[..1] == [b[0]]; }
    }
  }

  /**
   A directory joined with two relative components that neither start nor
   end with `/` is the three parts with single slashes between them.
   */
  lemma PathJoin3Relative(a: string, b: string, c: string)
    requires |a| > 0 && a[|a| - 1] != '/'
    requires |b| > 0 && b[0] != '/' && b[|b| - 1] != '/'
    requires |c| == 0 || c[0] != '/'
    ensures PathJoin3(a, b, c) == a + "/" + b + "/" + c
  {
    PathJoinRelative(a, b);
    var ab := a + "/" + b;
    assert ab[|ab| - 1] == b[|b| - 1];
    PathJoinRelative(ab, c);
  }

  /**
   Whether Python 2 can join the directory, a byte string from the command
   line, with a text component. Appending decodes the directory as ASCII,
   which raises UnicodeDecodeError on a non-ASCII byte; a component that
   starts with `/` replaces the directory before anything is appended.
   */
  predicate JoinDecodes(dir: string, component: string) {
    IsAscii(dir) || HasPrefix(component, "/")
  }

  /** Joining one-line components gives a one-line path. */
  lemma PathJoinOneLine(a: string, b: string)
    requires '\n' !in a && '\n' !in b
    ensures '\n' !in PathJoin(a, b)
  {
  }
}
