/** upload_file and create_thumbnail: storing an upload under a collision-free name
    and, for images, writing a thumbnail of the same name. */
module Upload {
  import opened Wrappers
  import opened Strings
  import opened PathNames
  import opened Naming

  /** The extensions for which a thumbnail is made, in lower case. */
  const ImageExtensions: set<string> := {".png", ".jpg", ".jpeg", ".gif"}

  /** The test in upload_file: the lower-cased name ends with an image extension.
      For a name with an extension the answer depends on that extension alone. */
  predicate IsImageName(name: string)
    ensures HasExtension(name) ==> (IsImageName(name) <==> Lower(SplitExt(name).1) in ImageExtensions)
  {
    var lower := Lower(name);
    var test := EndsWith(lower, ".png") || EndsWith(lower, ".jpg")
             || EndsWith(lower, ".jpeg") || EndsWith(lower, ".gif");
    if !HasExtension(name) then test
    else
      var b, e := SplitExt(name).0, SplitExt(name).1;
      assert IsExtension(e);
      ImageSuffixes(b, e);
      test
  }

  /** The four suffix tests on a name ending in extension e together decide
      whether e, lower-cased, is an image extension. */
  lemma ImageSuffixes(x: string, e: string)
    requires IsExtension(e)
    ensures (var lower := Lower(x + e);
             EndsWith(lower, ".png") || EndsWith(lower, ".jpg")
             || EndsWith(lower, ".jpeg") || EndsWith(lower, ".gif"))
            <==> Lower(e) in ImageExtensions
  {
    SuffixMatch(x, e, ".png");
    SuffixMatch(x, e, ".jpg");
    SuffixMatch(x, e, ".jpeg");
    SuffixMatch(x, e, ".gif");
  }

  /** The suffix test does not need an extension: ".png" has none (its only dot
      starts the name) and still counts as an image. */
  lemma DotPngIsImage()
    ensures !HasExtension(".png") && IsImageName(".png")
  {
    assert Lower(".png") == ".png";
    assert EndsWith(Lower(".png"), ".png");
  }

  /** A name ending in extension e ends, once lower-cased, with the lower-case
      extension t exactly when e lower-cased is t. */
  lemma SuffixMatch(x: string, e: string, t: string)
    requires IsExtension(e) && IsExtension(t)
    ensures EndsWith(Lower(x + e), t) <==> Lower(e) == t
  {
    LowerConcat(x, e);
    var l := Lower(x + e);
    var le := Lower(e);
    assert l == Lower(x) + le;
    assert l[|l| - |le|..] == le;
  }

  /** Whether a name counts as an image depends only on its extension. */
  lemma ExtensionDecidesImage(x: string, e: string)
    requires IsExtension(e)
    ensures IsImageName(x + e) <==> Lower(e) in ImageExtensions
  {
    ImageSuffixes(x, e);
  }

  /** The test ignores case: a name and its lower-cased form are both images or
      both not. */
  lemma ImageTestIgnoresCase(name: string)
    ensures IsImageName(Lower(name)) == IsImageName(name)
  {
    assert Lower(Lower(name)) == Lower(name);
  }

  /** Renaming an upload to avoid a collision keeps its extension, so a renamed
      image still gets a thumbnail and a renamed non-image still does not. */
  lemma RenamedKeepsImage(existing: set<string>, filename: string)
    requires SplitExt(filename).1 != []
    ensures IsImageName(UniqueName(existing, filename)) == IsImageName(filename)
  {
    var base, ext := SplitExt(filename).0, SplitExt(filename).1;
    ExtensionDecidesImage(base, ext);
    var r := UniqueName(existing, filename);
    if filename in existing {
      var k :| 1 <= k <= |existing| && r == Candidate(base, ext, k);
      assert r == (base + "(" + Decimal(k) + ")") + ext;
      ExtensionDecidesImage(base + "(" + Decimal(k) + ")", ext);
    }
  }

  /** The two folders as sets of names. uploads is the set of names for which
      os.path.exists holds inside the upload folder, so besides the files it holds
      "", "." and "..". thumbnails holds only the names of the thumbnail files:
      the thumbnail folder is probed only with names os.listdir returned for the
      upload folder, which are never "", "." or "..", so those three names are
      left out of it. */
  class SharedFolders {
    var uploads: set<string>
    var thumbnails: set<string>

    /** Once the upload folder exists, os.path.exists holds inside it for the names
        of the folder itself and of its parent. */
    ghost predicate Valid()
      reads this
    {
      FolderSelfNames <= uploads
    }

    /** At startup both folders are created if absent and otherwise kept as they
        are; files holds the names of the files already in the upload folder. */
    constructor (files: set<string>, thumbnails: set<string>)
      ensures Valid()
      ensures this.uploads == files + FolderSelfNames && this.thumbnails == thumbnails
    {
      this.uploads := files + FolderSelfNames;
      this.thumbnails := thumbnails;
    }

    /** create_thumbnail: decoding, shrinking and saving the image is outside the
        model; decodes says whether it succeeds. A failure is swallowed and leaves
        the thumbnail folder as it was. */
    method CreateThumbnail(name: string, decodes: bool) returns (ok: bool)
      requires Valid()
      modifies this`thumbnails
      ensures Valid()
      ensures ok == decodes
      ensures thumbnails == if decodes then old(thumbnails) + {name} else old(thumbnails)
    {
      if decodes {
        thumbnails := thumbnails + {name};
        return true;
      }
      return false;
    }

    /** upload_file: clientName is the file part's filename when the request has a
        file part; secure stands for secure_filename. A request without a file, or
        with an empty filename, changes nothing. The response is always 204. */
    method UploadFile(clientName: Option<string>, secure: string -> string, decodes: bool)
      returns (status: nat)
      requires Valid()
      modifies this
      ensures Valid()
      ensures status == 204
      ensures clientName == None || clientName == Some("") ==>
        uploads == old(uploads) && thumbnails == old(thumbnails)
      ensures clientName != None && clientName != Some("") ==>
        var stored := UniqueName(old(uploads), secure(clientName.value));
        && stored !in old(uploads)
        && uploads == old(uploads) + {stored}
        && thumbnails == if IsImageName(stored) && decodes then old(thumbnails) + {stored}
                         else old(thumbnails)
    {
      if clientName.Some? && clientName.value != "" {
        var filename := secure(clientName.value);
        filename := UniqueFilename(uploads, filename);
        uploads := uploads + {filename};
        if IsImageName(filename) {
          var _ := CreateThumbnail(filename, decodes);
        }
      }
      return 204;
    }
  }
}
