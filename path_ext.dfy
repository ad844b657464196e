/**
  Node's `path.extname` (the POSIX variant, which is what runs on Linux),
  followed by `.slice(1)` as the upload handlers use it to guess an image
  type. `path.extname` looks only at the last path component after ignoring
  trailing `/` characters; its extension starts at the last `.` of that
  component, except that a component whose only leading text is that dot
  (`.png`) or that is exactly `..` has none.
 */
module PathExt {
  import opened Text

  /** The path without its trailing `/` characters. */
  function StripTrailingSlashes(p: string): (r: string)
    ensures |r| <= |p| && r == p[..|r|]
    ensures r == [] || r[|r| - 1] != '/'
    ensures forall j :: |r| <= j < |p| ==> p[j] == '/'
  {
    if |p| > 0 && p[|p| - 1] == '/' then StripTrailingSlashes(p[..|p| - 1]) else p
  }

  /** The last path component (after trailing slashes are ignored). */
  function Basename(p: string): (b: string)
    ensures forall j :: 0 <= j < |b| ==> b[j] != '/'
  {
    var t := StripTrailingSlashes(p);
    t[LastIndexOf(t, '/') + 1..]
  }

  /** `path.extname(p)`: empty, or a `.` followed by text without `.` or `/`,
      and in that case a suffix of the path once trailing slashes are dropped. */
  function ExtName(p: string): (r: string)
    ensures r == [] || (r[0] == '.' && forall j :: 1 <= j < |r| ==> r[j] != '.' && r[j] != '/')
    ensures var t := StripTrailingSlashes(p); |r| <= |t| && t[|t| - |r|..] == r
  {
    var t := StripTrailingSlashes(p);
    var b := Basename(p);
    var d := LastIndexOf(b, '.');
    assert t[|t| - |b|..] == b;
    if d <= 0 || b == ".." then [] else b[d..]
  }

  /** `path.extname(name).slice(1)`: the extension without its dot. */
  function Extension(name: string): (r: string)
    ensures forall j :: 0 <= j < |r| ==> r[j] != '.' && r[j] != '/'
  {
    var e := ExtName(name);
    if e == [] then [] else e[1..]
  }

  /** A name without `/` is its own last component. */
  lemma {:induction false} NoSlashIsBasename(name: string)
    requires forall j :: 0 <= j < |name| ==> name[j] != '/'
    ensures StripTrailingSlashes(name) == name && Basename(name) == name
  {
    if |name| > 0 { assert name[|name| - 1] != '/'; }
    assert LastIndexOf(name, '/') == -1;
  }

  lemma {:induction false} StemDotChars(stem: string, x: string)
    requires forall j :: 0 <= j < |stem| ==> stem[j] != '/'
    requires forall j :: 0 <= j < |x| ==> x[j] != '/' && x[j] != '.'
    ensures var name := stem + "." + x;
      && (forall j :: 0 <= j < |name| ==> name[j] != '/')
      && name[|stem|] == '.'
      && (forall j :: |stem| < j < |name| ==> name[j] != '.')
      && name[|stem|..] == "." + x
  {
    var name := stem + "." + x;
    forall j | 0 <= j < |name| ensures name[j] != '/' {
      if j < |stem| { assert name[j] == stem[j]; }
      else if j > |stem| { assert name[j] == x[j - |stem| - 1]; }
    }
    forall j | |stem| < j < |name| ensures name[j] != '.' { assert name[j] == x[j - |stem| - 1]; }
  }

  /** A file name without `/` and with a `.` after some leading text has the
      text after its last `.` as its extension (the special name `..` aside). */
  lemma {:induction false} ExtensionAfterLastDot(stem: string, x: string)
    requires stem != [] && !(stem == "." && x == [])
    requires forall j :: 0 <= j < |stem| ==> stem[j] != '/'
    requires forall j :: 0 <= j < |x| ==> x[j] != '/' && x[j] != '.'
    ensures ExtName(stem + "." + x) == "." + x
    ensures Extension(stem + "." + x) == x
  {
    var name := stem + "." + x;
    StemDotChars(stem, x);
    NoSlashIsBasename(name);
    assert LastIndexOf(name, '.') == |stem|;
    assert name != ".." by {
      if |name| == 2 { assert |stem| == 1 && x == []; assert stem != "."; assert name[0] == stem[0]; }
    }
  }

  /** A file name without `/` and without `.` has no extension. */
  lemma {:induction false} NoDotNoExtension(name: string)
    requires forall j :: 0 <= j < |name| ==> name[j] != '/' && name[j] != '.'
    ensures ExtName(name) == [] && Extension(name) == []
  {
    NoSlashIsBasename(name);
    assert LastIndexOf(name, '.') == -1;
  }

  lemma {:induction false} NoDotBeyondFirst(name: string)
    requires forall j :: 0 <= j < |name| ==> name[j] != '/'
    requires LastIndexOf(name, '.') <= 0
    ensures ExtName(name) == [] && Extension(name) == []
  {
    NoSlashIsBasename(name);
    assert LastIndexOf(Basename(name), '.') <= 0;
    assert ExtName(name) == [];
  }

  /** A file name that starts with its only `.` (a "dot file") has no extension. */
  lemma {:induction false} DotFileNoExtension(x: string)
    requires forall j :: 0 <= j < |x| ==> x[j] != '/' && x[j] != '.'
    ensures ExtName("." + x) == [] && Extension("." + x) == []
  {
    var name := "." + x;
    StemDotChars([], x);
    assert [] + "." + x == name;
    assert LastIndexOf(name, '.') == 0;
    NoDotBeyondFirst(name);
  }
}
