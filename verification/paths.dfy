/**
 * System.IO.Path as the editor sees it on a '/'-separated file system:
 * GetFileName, GetFileNameWithoutExtension and Combine.
 */
module Paths {
  import opened Strings

  const Separator: char := '/'

  /** Path.GetFileName: the part of `p` after its last separator. */
  function GetFileName(p: string): (r: string)
    ensures Separator !in r
    ensures |r| <= |p| && r == p[|p| - |r|..]
    ensures |r| < |p| ==> p[|p| - |r| - 1] == Separator
  {
    p[LastIndexOf(p, Separator) + 1..]
  }

  /** Path.GetFileNameWithoutExtension: the file name up to (not including) its last '.'. */
  function GetFileNameWithoutExtension(p: string): (r: string)
    ensures r <= GetFileName(p)
    ensures '.' !in GetFileName(p) ==> r == GetFileName(p)
    ensures '.' in GetFileName(p) ==>
              |r| < |GetFileName(p)| && GetFileName(p)[|r|] == '.' && '.' !in GetFileName(p)[|r| + 1..]
  {
    var name := GetFileName(p);
    var dot := LastIndexOf(name, '.');
    if dot < 0 then name else name[..dot]
  }

  predicate IsRooted(p: string)
  {
    |p| > 0 && p[0] == Separator
  }

  /** Path.Combine(a, b): `b` if it is rooted; otherwise the two joined by one separator. */
  function Combine(a: string, b: string): (r: string)
    ensures IsRooted(b) ==> r == b
    ensures !IsRooted(b) && a != "" && b != "" ==> a <= r && |a| < |r|
    ensures |b| <= |r| && r[|r| - |b|..] == b
  {
    if IsRooted(b) || a == "" then b
    else if b == "" then a
    else if a[|a| - 1] == Separator then a + b
    else a + [Separator] + b
  }

  /** A name without separators that is combined onto a directory is the result's file name. */
  lemma CombineFileName(dir: string, name: string)
    requires name != "" && Separator !in name
    ensures GetFileName(Combine(dir, name)) == name
  {
    var r := Combine(dir, name);
    var cut := |r| - |name|;
    assert r[cut..] == name;
    assert forall k :: cut <= k < |r| ==> r[k] == name[k - cut];
    if dir != "" {
      if dir[|dir| - 1] == Separator {
        assert r == dir + name;
      } else {
        assert r == dir + [Separator] + name;
      }
      assert r[cut - 1] == Separator;
    }
    var last := LastIndexOf(r, Separator);
    assert last == cut - 1;
  }

  /** The part after a path's last separator is its file name. */
  lemma FileNameAfterSeparator(prefix: string, name: string)
    requires |prefix| > 0 && prefix[|prefix| - 1] == Separator && Separator !in name
    ensures GetFileName(prefix + name) == name
  {
    var p := prefix + name;
    assert p[|prefix| - 1] == Separator;
    assert forall k :: |prefix| <= k < |p| ==> p[k] == name[k - |prefix|];
    assert LastIndexOf(p, Separator) == |prefix| - 1;
    assert p[|prefix|..] == name;
  }
}
