/** Python's os.path.splitext on POSIX paths, which unique_filename uses to cut a
    name into the part before the extension and the extension itself. */
module PathNames {
  import opened Strings

  /** The extension starts at the last '.', provided that dot lies in the last path
      component and that component has a character other than '.' before it
      (so ".bashrc" and "..png" have no extension). */
  predicate HasExtension(p: string) {
    exists i, j :: 0 <= i < j < |p| && p[i] != '.' && p[j] == '.' && '/' !in p[i..]
  }

  /** os.path.splitext(p) == (root, ext). */
  function SplitExt(p: string): (r: (string, string))
    ensures r.0 + r.1 == p
    ensures r.1 != [] <==> HasExtension(p)
    ensures r.1 != [] ==> r.1[0] == '.'
    ensures forall k :: 0 < k < |r.1| ==> r.1[k] != '.' && r.1[k] != '/'
  {
    var sep := LastIndexOf(p, '/');
    var dot := LastIndexOf(p, '.');
    if dot > sep && exists i :: sep < i < dot && p[i] != '.' then
      (p[..dot], p[dot..])
    else
      (p, [])
  }

  /** An extension as os.path.splitext returns it: a dot, then no further dot and
      no path separator. */
  predicate IsExtension(e: string) {
    |e| > 0 && e[0] == '.' && forall k :: 0 < k < |e| ==> e[k] != '.' && e[k] != '/'
  }

  /** A dot in a + e where e has no dot after its first character lies within a or at
      the start of e. */
  lemma DotNotInTail(a: string, e: string, j: nat)
    requires forall k :: 0 < k < |e| ==> e[k] != '.'
    requires j < |a + e| && (a + e)[j] == '.'
    ensures j <= |a|
  {
  }

  /** Splitting a root that ends in an ordinary character, followed by an
      extension, gives back that root and that extension. */
  lemma SplitExtOfRootAndExtension(root: string, ext: string)
    requires |root| > 0 && root[|root| - 1] != '.' && root[|root| - 1] != '/'
    requires IsExtension(ext)
    ensures SplitExt(root + ext) == (root, ext)
  {
    var p := root + ext;
    var i := |root| - 1;
    assert p[i..] == [root[i]] + ext;
    assert HasExtension(p) by {
      assert p[i] != '.' && p[|root|] == '.' && '/' !in p[i..];
    }
    var r := SplitExt(p);
    var m := |r.0|;
    assert p[m] == '.';
    DotNotInTail(r.0, r.1, |root|);
    DotNotInTail(root, ext, m);
  }
}
