/** get_files: the records the index page shows, built from the upload folder's
    listing (in the order os.listdir returns it), the names present in the
    thumbnail folder and the size of each file. */
module Listing {
  import opened Wrappers
  import opened Strings
  import opened SizeFormat

  /** One row of the listing: the file's name, its size as shown, and the URL of
      its thumbnail when one exists. */
  datatype FileEntry = FileEntry(name: string, size: SizeLabel, thumbnail: Option<string>)

  /** Names skipped as hidden or system files. The ".DS_Store" test adds nothing to
      the dot-prefix test. */
  predicate IsHidden(name: string)
    ensures IsHidden(name) <==> |name| > 0 && name[0] == '.'
  {
    StartsWith(name, ".") || name == ".DS_Store"
  }

  /** The URL under which a thumbnail is served. */
  function ThumbnailUrl(name: string): string {
    "/thumbnail/" + name
  }

  /** The names of the listing that get a record, in listing order. */
  function VisibleNames(listing: seq<string>): (r: seq<string>)
    ensures |r| <= |listing|
    ensures forall n :: n in r ==> n in listing && !IsHidden(n)
  {
    if listing == [] then []
    else
      var last := listing[|listing| - 1];
      VisibleNames(listing[..|listing| - 1]) + (if IsHidden(last) then [] else [last])
  }

  /** Filtering keeps the listing's order: the names kept from two consecutive runs
      of the listing are those of the first run followed by those of the second. */
  lemma {:induction false} VisibleNamesConcat(a: seq<string>, b: seq<string>)
    ensures VisibleNames(a + b) == VisibleNames(a) + VisibleNames(b)
    decreases |b|
  {
    if b != [] {
      assert (a + b)[..|a + b| - 1] == a + b[..|b| - 1];
      VisibleNamesConcat(a, b[..|b| - 1]);
    } else {
      assert a + b == a;
    }
  }

  /** Exactly one record per occurrence of a name that is not hidden, and none for a
      hidden name. */
  lemma {:induction false} VisibleNamesCount(listing: seq<string>, n: string)
    ensures multiset(VisibleNames(listing))[n] == if IsHidden(n) then 0 else multiset(listing)[n]
  {
    if listing != [] {
      var init := listing[..|listing| - 1];
      var last := listing[|listing| - 1];
      VisibleNamesCount(init, n);
      assert listing == init + [last];
    }
  }

  /** The record get_files builds for a kept name. */
  function EntryFor(name: string, thumbnails: set<string>, sizeOf: string -> nat): FileEntry {
    FileEntry(name, SizeLabelOf(sizeOf(name)),
              if name in thumbnails then Some(ThumbnailUrl(name)) else None)
  }

  /** get_files as the server runs it: one pass over the listing, appending a record
      for every name that is not hidden. */
  method GetFiles(listing: seq<string>, thumbnails: set<string>, sizeOf: string -> nat)
    returns (files: seq<FileEntry>)
    ensures |files| == |VisibleNames(listing)|
    ensures forall i :: 0 <= i < |files| ==> files[i].name == VisibleNames(listing)[i]
    ensures forall i :: 0 <= i < |files| ==> files[i].size == SizeLabelOf(sizeOf(files[i].name))
    ensures forall i :: 0 <= i < |files| ==>
      (files[i].thumbnail.Some? <==> files[i].name in thumbnails)
    ensures forall i :: 0 <= i < |files| && files[i].thumbnail.Some? ==>
      files[i].thumbnail.value == ThumbnailUrl(files[i].name)
  {
    files := [];
    for k := 0 to |listing|
      invariant |files| == |VisibleNames(listing[..k])|
      invariant forall i :: 0 <= i < |files| ==>
        files[i] == EntryFor(VisibleNames(listing[..k])[i], thumbnails, sizeOf)
    {
      var name := listing[k];
      assert VisibleNames(listing[..k + 1])
          == VisibleNames(listing[..k]) + (if IsHidden(name) then [] else [name]) by {
        assert listing[..k + 1][..k] == listing[..k];
      }
      if IsHidden(name) {
        continue;
      }
      var size := FormatSize(sizeOf(name));
      var hasThumb := name in thumbnails;
      files := files + [FileEntry(name, size, if hasThumb then Some(ThumbnailUrl(name)) else None)];
    }
    assert listing[..|listing|] == listing;
  }
}
