/** The POSIX path helpers used by the tasks: `os.path.basename`, `os.path.splitext`, `os.path.join`. */
module Paths {
  import opened Strings

  /** The final component: everything after the last `/`. */
  function Basename(p: string): (r: string)
    ensures '/' !in r
    ensures |r| <= |p| && p == p[..|p| - |r|] + r
    ensures |r| == |p| || p[|p| - |r| - 1] == '/'
  {
    var sep := LastIndexOf(p, '/');
    NoCharAfter(p, sep + 1, '/');
    p[sep + 1..]
  }

  lemma NoCharAfter(p: string, from: nat, c: char)
    requires from <= |p|
    requires forall k :: from <= k < |p| ==> p[k] != c
    ensures c !in p[from..]
    ensures p == p[..from] + p[from..]
  {
  }

  /**
   * The final component of `p` has an extension: a `.` that is preceded, inside
   * that component, by some character other than `.` (so `.bashrc` and `..` have none).
   */
  ghost predicate HasExtension(p: string) {
    exists i, j :: 0 <= j < i < |p| && p[i] == '.' && p[j] != '.' && NoSlashFrom(p, j)
  }

  ghost predicate NoSlashFrom(p: string, j: int)
    requires 0 <= j <= |p|
  {
    forall k :: j <= k < |p| ==> p[k] != '/'
  }

  /** `os.path.splitext(p)` on POSIX: leading dots of the last component never start an extension. */
  function SplitExt(p: string): (r: (string, string))
    ensures r.0 + r.1 == p
    ensures r.1 == "" || (r.1[0] == '.' && '.' !in r.1[1..] && '/' !in r.1)
    ensures r.1 != "" <==> HasExtension(p)
  {
    if DotStartsExtension(p) then
      ExtensionFound(p);
      (p[..LastIndexOf(p, '.')], p[LastIndexOf(p, '.')..])
    else
      ExtensionAbsent(p);
      (p, "")
  }

  /** The last `.` lies in the final component, after some character of it other than `.`. */
  predicate DotStartsExtension(p: string) {
    var sep := LastIndexOf(p, '/');
    var dot := LastIndexOf(p, '.');
    dot > sep && exists i :: sep + 1 <= i < dot && p[i] != '.'
  }

  lemma ExtensionFound(p: string)
    requires DotStartsExtension(p)
    ensures HasExtension(p)
    ensures var ext := p[LastIndexOf(p, '.')..];
            ext[0] == '.' && '.' !in ext[1..] && '/' !in ext
  {
    var sep := LastIndexOf(p, '/');
    var dot := LastIndexOf(p, '.');
    var j :| sep + 1 <= j < dot && p[j] != '.';
    assert NoSlashFrom(p, j);
    var ext := p[dot..];
    assert forall k :: 1 <= k < |ext| ==> ext[k] == p[dot + k];
  }

  lemma ExtensionAbsent(p: string)
    requires !DotStartsExtension(p)
    ensures !HasExtension(p)
  {
    if HasExtension(p) {
      var i, j :| 0 <= j < i < |p| && p[i] == '.' && p[j] != '.' && NoSlashFrom(p, j);
      ExtensionBounds(p, i, j);
      assert false;
    }
  }

  lemma ExtensionBounds(p: string, i: int, j: int)
    requires 0 <= j < i < |p| && p[i] == '.' && p[j] != '.' && NoSlashFrom(p, j)
    ensures LastIndexOf(p, '/') < j && i <= LastIndexOf(p, '.')
  {
  }

  /** `os.path.join(a, b)`: an absolute `b` replaces `a`; otherwise a `/` is inserted when needed. */
  function Join(a: string, b: string): (r: string)
    ensures StartsWith(b, "/") ==> r == b
    ensures !StartsWith(b, "/") ==> |r| >= |b| && r[|r| - |b|..] == b
    ensures !StartsWith(b, "/") && a != "" ==> StartsWith(r, a) && r[|a|..] in {b, "/" + b}
  {
    if StartsWith(b, "/") then b
    else if a == "" || a[|a| - 1] == '/' then a + b
    else
      assert (a + "/" + b)[|a|..] == "/" + b;
      a + "/" + b
  }
}
