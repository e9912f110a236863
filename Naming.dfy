/** unique_filename: the collision-safe name for an upload. The upload folder is
    abstracted to the finite set of names os.path.exists reports inside it. */
module Naming {
  import opened Wrappers
  import opened Strings
  import opened PathNames

  /** Names os.path.exists reports inside any folder: "" and "." name the folder
      itself and ".." its parent, so they are taken even in an empty folder. */
  const FolderSelfNames: set<string> := {"", ".", ".."}

  /** The renamed candidate f"{base}({k}){ext}". */
  function Candidate(base: string, ext: string, k: nat): string {
    base + "(" + Decimal(k) + ")" + ext
  }

  /** Recovers the counter from a name of the form base(k)ext, if it has that form. */
  function CounterOf(base: string, ext: string, name: string): Option<nat> {
    if |name| >= |base| + |ext| + 3
       && name[..|base|] == base && name[|name| - |ext|..] == ext
    then
      var mid := name[|base|..|name| - |ext|];
      if mid[0] == '(' && mid[|mid| - 1] == ')' && IsDigits(mid[1..|mid| - 1])
      then Some(ParseDecimal(mid[1..|mid| - 1]))
      else None
    else None
  }

  /** Every renamed candidate can be traced back to its counter. */
  lemma {:induction false} CounterOfCandidate(base: string, ext: string, k: nat)
    ensures CounterOf(base, ext, Candidate(base, ext, k)) == Some(k)
  {
    var d := Decimal(k);
    var name := Candidate(base, ext, k);
    assert name == base + (("(" + d + ")") + ext);
    assert name[..|base|] == base;
    assert name[|name| - |ext|..] == ext;
    var mid := name[|base|..|name| - |ext|];
    assert mid == "(" + d + ")";
    assert mid[1..|mid| - 1] == d;
    ParseDecimalOfDecimal(k);
  }

  /** The k-th name unique_filename tries: the name itself first, then base(k)ext. */
  function Attempt(filename: string, k: nat): string {
    if k == 0 then filename
    else
      var (base, ext) := SplitExt(filename);
      Candidate(base, ext, k)
  }

  /** The names tried are pairwise distinct, which is why the search ends. */
  lemma AttemptsDistinct(filename: string, i: nat, j: nat)
    requires i != j
    ensures Attempt(filename, i) != Attempt(filename, j)
  {
    var (base, ext) := SplitExt(filename);
    if i != 0 && j != 0 {
      CounterOfCandidate(base, ext, i);
      CounterOfCandidate(base, ext, j);
    } else if i == 0 {
      assert |Attempt(filename, j)| > |filename|;
    } else {
      assert |Attempt(filename, i)| > |filename|;
    }
  }

  /** The first n names tried. */
  ghost function Tried(filename: string, n: nat): set<string> {
    set i | 0 <= i < n :: Attempt(filename, i)
  }

  lemma {:induction false} TriedSize(filename: string, n: nat)
    ensures |Tried(filename, n)| == n
  {
    if n > 0 {
      TriedSize(filename, n - 1);
      assert Tried(filename, n) == Tried(filename, n - 1) + {Attempt(filename, n - 1)};
      forall i | 0 <= i < n - 1
        ensures Attempt(filename, i) != Attempt(filename, n - 1)
      {
        AttemptsDistinct(filename, i, n - 1);
      }
    }
  }

  /** If the first n names are all taken, the folder holds at least n names. */
  lemma TakenAttemptsBound(existing: set<string>, filename: string, n: nat)
    requires forall i :: 0 <= i < n ==> Attempt(filename, i) in existing
    ensures n <= |existing|
  {
    TriedSize(filename, n);
    assert Tried(filename, n) <= existing;
    SubsetSize(Tried(filename, n), existing);
  }

  lemma SubsetSize<T>(a: set<T>, b: set<T>)
    requires a <= b
    ensures |a| <= |b|
  {
    assert b == a + (b - a);
  }

  /** The index of the first free name at or after attempt k, given that every
      earlier attempt is taken. */
  function FirstFreeFrom(existing: set<string>, filename: string, k: nat): (n: nat)
    requires forall i :: 0 <= i < k ==> Attempt(filename, i) in existing
    ensures k <= n <= |existing|
    ensures Attempt(filename, n) !in existing
    ensures forall i :: 0 <= i < n ==> Attempt(filename, i) in existing
    decreases |existing| - k
  {
    TakenAttemptsBound(existing, filename, k);
    if Attempt(filename, k) !in existing then k
    else
      TakenAttemptsBound(existing, filename, k + 1);
      FirstFreeFrom(existing, filename, k + 1)
  }

  /** The name unique_filename returns: the first of filename, base(1)ext,
      base(2)ext, ... that is not taken. */
  function UniqueName(existing: set<string>, filename: string): (r: string)
    ensures r !in existing
    ensures filename !in existing ==> r == filename
    ensures filename in existing ==>
      exists k :: 1 <= k <= |existing|
        && r == Candidate(SplitExt(filename).0, SplitExt(filename).1, k)
        && forall j :: 1 <= j < k ==> Candidate(SplitExt(filename).0, SplitExt(filename).1, j) in existing
  {
    var n := FirstFreeFrom(existing, filename, 0);
    var base, ext := SplitExt(filename).0, SplitExt(filename).1;
    assert forall j :: 1 <= j < n ==> Candidate(base, ext, j) == Attempt(filename, j);
    assert n > 0 ==> Attempt(filename, n) == Candidate(base, ext, n);
    Attempt(filename, n)
  }

  /** Only one index can be the first free one. */
  lemma FirstFreeUnique(existing: set<string>, filename: string, n: nat)
    requires Attempt(filename, n) !in existing
    requires forall i :: 0 <= i < n ==> Attempt(filename, i) in existing
    ensures UniqueName(existing, filename) == Attempt(filename, n)
  {
    var m := FirstFreeFrom(existing, filename, 0);
    assert !(m < n) && !(n < m);
  }

  /** unique_filename as the server runs it: probe candidates until one is free.
      The folder is only read. */
  method UniqueFilename(existing: set<string>, filename: string) returns (candidate: string)
    ensures candidate !in existing
    ensures candidate == UniqueName(existing, filename)
  {
    var (base, ext) := SplitExt(filename);
    var counter := 1;
    candidate := filename;
    while candidate in existing
      invariant 1 <= counter <= |existing| + 1
      invariant candidate == Attempt(filename, counter - 1)
      invariant forall i :: 0 <= i < counter - 1 ==> Attempt(filename, i) in existing
      decreases |existing| + 1 - counter
    {
      TakenAttemptsBound(existing, filename, counter);
      candidate := base + "(" + Decimal(counter) + ")" + ext;
      counter := counter + 1;
    }
    FirstFreeUnique(existing, filename, counter - 1);
  }

  /** The names stored by a series of uploads that all pass through unique_filename,
      each stored name joining the folder before the next upload. */
  function StoredNames(existing: set<string>, names: seq<string>): (stored: seq<string>)
    ensures |stored| == |names|
    ensures forall i :: 0 <= i < |names| ==> stored[i] !in existing
    decreases |names|
  {
    if names == [] then []
    else
      var n := UniqueName(existing, names[0]);
      [n] + StoredNames(existing + {n}, names[1..])
  }

  /** Repeated uploads never overwrite: every stored name is new to the folder and
      no two uploads of the series share a name. */
  lemma {:induction false} StoredNamesFresh(existing: set<string>, names: seq<string>)
    ensures forall i :: 0 <= i < |names| ==> StoredNames(existing, names)[i] !in existing
    ensures forall i, j :: 0 <= i < j < |names| ==>
      StoredNames(existing, names)[i] != StoredNames(existing, names)[j]
    decreases |names|
  {
    if names != [] {
      var n := UniqueName(existing, names[0]);
      StoredNamesFresh(existing + {n}, names[1..]);
      var stored := StoredNames(existing, names);
      assert stored == [n] + StoredNames(existing + {n}, names[1..]);
      forall i | 1 <= i < |names| ensures stored[i] != n && stored[i] !in existing {
        assert stored[i] == StoredNames(existing + {n}, names[1..])[i - 1];
      }
    }
  }

  /** "video.mp4" splits into "video" and ".mp4". */
  lemma SplitVideoName()
    ensures SplitExt("video.mp4") == ("video", ".mp4")
  {
    var ext := ".mp4";
    assert IsExtension(ext) by {
      assert ext[1] != '.' && ext[2] != '.' && ext[3] != '.';
    }
    assert "video" + ext == "video.mp4";
    SplitExtOfRootAndExtension("video", ext);
  }

  /** The first renamed candidate for "video.mp4" is "video(1).mp4". */
  lemma FirstRenameOfVideo()
    ensures Attempt("video.mp4", 1) == "video(1).mp4"
  {
    SplitVideoName();
    assert Decimal(1) == "1";
    assert Candidate("video", ".mp4", 1) == "video(1).mp4";
  }

  /** Uploading "video.mp4" twice into an empty folder stores "video.mp4" and then
      "video(1).mp4". */
  lemma UploadTwiceExample()
    ensures StoredNames(FolderSelfNames, ["video.mp4", "video.mp4"]) == ["video.mp4", "video(1).mp4"]
  {
    var f, g := "video.mp4", "video(1).mp4";
    var start := FolderSelfNames;
    assert |f| == 9 && |g| == 12;
    assert f !in start && g !in start + {f};
    assert UniqueName(start, f) == f;
    FirstRenameOfVideo();
    FirstFreeUnique(start + {f}, f, 1);
    assert StoredNames(start + {f}, [f]) == [g];
    assert [f, f][1..] == [f];
  }

  /** The empty name (what secure_filename makes of a name with no safe character)
      always exists, as the folder itself, so it is stored as "(k)" for some k >= 1. */
  lemma EmptyNameRenamed(existing: set<string>)
    requires FolderSelfNames <= existing
    ensures exists k :: 1 <= k <= |existing| && UniqueName(existing, "") == "(" + Decimal(k) + ")"
  {
    assert "" in existing;
    var r := UniqueName(existing, "");
    assert SplitExt("") == ("", "");
    var k :| 1 <= k <= |existing| && r == Candidate("", "", k);
    assert Candidate("", "", k) == "(" + Decimal(k) + ")";
  }

  /** In an empty folder the empty name is stored as "(1)". */
  lemma EmptyNameInEmptyFolder()
    ensures UniqueName(FolderSelfNames, "") == "(1)"
  {
    assert SplitExt("") == ("", "");
    assert Decimal(1) == "1";
    assert Attempt("", 1) == "(1)";
    FirstFreeUnique(FolderSelfNames, "", 1);
  }
}
