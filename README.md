# FileBox shared folder: upload naming, listing and size display

FileBox is a small Flask server for a shared folder. Clients upload files into an
upload folder, and the server keeps a thumbnail folder beside it. This project
models the decision logic of `Server.py` and proves properties of it:

- **Collision-safe naming** (`unique_filename`). The upload folder is the finite
  set of names without `/` for which `os.path.exists` holds (`secure_filename`
  never returns a `/`). A name splits into root and
  extension as `os.path.splitext` does. The server tries the name itself, then
  `root(1)ext`, `root(2)ext`, ... and keeps the first name that is free. The model
  is a method with the same `while` loop, proved against a functional
  specification. It is proved to terminate, to return a free name, to return the
  first free name, and to never reuse a name over a series of uploads.
- **Upload** (`upload_file`, `create_thumbnail`). A class holds the two folders as
  sets of names. An upload adds the allocated name to the upload folder. When the
  stored name passes the image test and decoding succeeds, the same name is added
  to the thumbnail folder. The response is always 204.
- **Image test** (line 76). The name is lower-cased and tested for the suffixes
  `.png`, `.jpg`, `.jpeg` and `.gif`. For a name with an extension, the test
  depends on the extension alone, so a renamed upload is treated like the
  original.
- **Listing** (`get_files`). The directory listing is a sequence in
  `os.listdir` order. Names starting with `.` are skipped; the `.DS_Store` test
  is covered by that rule. Every other name gives one record, in order. A record
  carries a thumbnail URL exactly when the thumbnail folder holds that name.
- **Size display** (`format_size`). A size is shown in the first of B, KB, MB and
  GB whose threshold 1024^(k+1) it is under, and otherwise in TB. The shown amount
  is the size divided by 1024^k, kept as an exact real.

Modules: `Wrappers` (Option), `Strings` (decimal rendering, `str.lower`,
`startswith`, `endswith`, `rfind`), `PathNames` (`os.path.splitext`), `Naming`,
`SizeFormat`, `Listing` and `Upload`.

Interfaces outside the model are parameters:
- `secure_filename` is a function `secure: string -> string`.
- Whether PIL can decode and save a thumbnail is a boolean `decodes`.
- File sizes are a function `sizeOf: string -> nat`.
- The listing order is an input sequence.

The `if file:` test in `upload_file` relies on werkzeug's `FileStorage`, which
is false when the part's filename is empty. The model takes the request's file
part as `Option<string>` holding the client filename. Both `None` and `Some("")`
change nothing.

## Model

| member | source | states |
|---|---|---|
| `PathNames.SplitExt` | Server.py:18 | root + ext is the name; ext is empty or starts at the last dot and holds no other dot or `/`; ext is non-empty exactly when the last path component has a non-dot character before some dot |
| `PathNames.SplitExtOfRootAndExtension` | Server.py:18 | a root ending in an ordinary character followed by an extension splits back into that root and that extension |
| `Strings.DecimalInjective` | Server.py:22 | two counters rendered by f"{counter}" to the same text are equal |
| `Naming.CounterOfCandidate` | Server.py:22 | the counter of `root(k)ext` can be read back from the name, so every renamed file traces back to its root, counter and extension |
| `Naming.AttemptsDistinct` | Server.py:19-23 | the names tried (the name itself, then `root(k)ext` for k = 1, 2, ...) are pairwise distinct |
| `Naming.TakenAttemptsBound` | Server.py:21-23 | if the first n names tried are all taken, the folder holds at least n names, so the loop ends within `|existing| + 1` probes |
| `Naming.FirstFreeFrom` | Server.py:19-23 | the index found is at most `|existing|`; that name is free and every earlier name tried is taken |
| `Naming.UniqueName` | Server.py:17-24 | the result is not taken; an untaken name is returned unchanged; a taken name becomes `root(k)ext` for some 1 <= k <= `|existing|`, with `root(j)ext` taken for every 1 <= j < k |
| `Naming.FirstFreeUnique` | Server.py:19-24 | any index whose name is free while all earlier names are taken gives the result of `unique_filename` (the first free name is unique) |
| `Naming.UniqueFilename` | Server.py:17-24 | the probing loop returns a free name, and it is the specified first free name; the folder is only read |
| `Naming.StoredNames` | Server.py:71-73 | a series of uploads, each saved before the next is named, stores one name per upload, and none of them was already in the folder |
| `Naming.StoredNamesFresh` | Server.py:71-73 | over a series of uploads, each saved before the next is named, no stored name was already in the folder and no two stored names are equal |
| `Naming.UploadTwiceExample` | Server.py:71-73 | uploading `video.mp4` twice into an empty folder (where only `""`, `.` and `..` exist) stores `video.mp4` and then `video(1).mp4` |
| `Naming.EmptyNameRenamed` | Server.py:17-23 | in a folder where `""` exists, as it always does, the empty name is stored as `(k)` for some k >= 1, never as `""` |
| `Naming.EmptyNameInEmptyFolder` | Server.py:17-23 | in an empty folder the empty name is stored as `(1)` |
| `SizeFormat.UnitIndexFrom` | Server.py:56-59 | the unit index is the least k < 4 with size < 1024^(k+1), or 4 (TB) when the size reaches every threshold |
| `SizeFormat.SizeLabelOf` | Server.py:55-60 | amount times 1024^k is the size; the amount is under 1024 for every unit but TB and at least 1 for every unit but B |
| `SizeFormat.UnitIndexUnique` | Server.py:56-59 | a unit index whose threshold the size is under, while the size reaches the previous threshold, is the chosen index |
| `SizeFormat.LabelDeterminedByRange` | Server.py:55-60 | those three properties determine the label: any label with them is the one shown |
| `SizeFormat.FormatSize` | Server.py:55-60 | the dividing loop yields the specified label |
| `Listing.IsHidden` | Server.py:40 | a name is skipped exactly when it starts with `.`; the `.DS_Store` case adds nothing |
| `Listing.VisibleNames` | Server.py:39-41 | the kept names are listed names that are not hidden |
| `Listing.VisibleNamesConcat` | Server.py:39-41 | filtering keeps listing order: two consecutive runs of the listing are filtered run by run |
| `Listing.VisibleNamesCount` | Server.py:39-51 | each occurrence of a name that is not hidden is kept once, and hidden names never |
| `Listing.GetFiles` | Server.py:37-52 | one record per kept name, in listing order; its size is the formatted size of that file; it has a thumbnail exactly when the thumbnail folder holds the name, and the thumbnail is then `/thumbnail/<name>` |
| `Upload.IsImageName` | Server.py:76 | for a name with an extension, the test passes exactly when that extension, lower-cased, is `.png`, `.jpg`, `.jpeg` or `.gif`; a name without an extension can still pass |
| `Upload.DotPngIsImage` | Server.py:76 | `.png` has no extension (its only dot starts the name) yet passes the image test |
| `Upload.SuffixMatch` | Server.py:76 | a name ending in extension e passes the lower-case suffix test for extension t exactly when e lower-cased is t |
| `Upload.ExtensionDecidesImage` | Server.py:76 | a name with extension e is an image exactly when e lower-cased is `.png`, `.jpg`, `.jpeg` or `.gif` |
| `Upload.ImageTestIgnoresCase` | Server.py:76 | a name and its lower-cased form get the same answer |
| `Upload.RenamedKeepsImage` | Server.py:71-77 | for a name with an extension, the name `unique_filename` allocates is an image exactly when the uploaded name is |
| `Upload.SharedFolders.constructor` | Server.py:10-11 | startup keeps both folders with whatever files they hold; once the upload folder exists, `""`, `.` and `..` exist in it, so the class invariant holds |
| `Upload.SharedFolders.CreateThumbnail` | Server.py:26-35 | keeps the class invariant; returns whether the image could be processed; on success the thumbnail folder gains the name, on failure it is unchanged |
| `Upload.SharedFolders.UploadFile` | Server.py:66-78 | keeps the class invariant (`""`, `.` and `..` exist in the upload folder); answers 204 (saving is assumed to succeed); without a file nothing changes; otherwise the upload folder gains exactly the allocated name, which was free, and the thumbnail folder gains it exactly when it is an image name and decoding succeeds |

## Left out

- Flask routing and responses: `index`, `download_file`, `serve_thumbnail` and `app.run` only hand work to Flask and templates, which are not part of this model.
- `secure_filename` is werkzeug code, not part of this model. It is a function parameter.
- Image decoding, resizing to 120x120 and encoding in `create_thumbnail` are PIL calls. Their success is the `decodes` parameter. A failed save that leaves a partial thumbnail file behind is not modelled: failure leaves the thumbnail folder unchanged.
- The `%.1f` rendering in `format_size` is left out. The amount is an exact real. Python's float holds it exactly for sizes below 2^53 bytes, since each division by 1024 is exact.
- Filesystem calls (`os.path.exists`, `os.listdir`, `os.path.getsize`, `os.makedirs`, `file.save`) are sets, sequences and a size function. `os.path.exists` also holds for `""`, `.` and `..`, which name the folder and its parent; the upload set always contains them, as the class invariant `Valid` states.
- Name equality is case-sensitive, as on a Linux filesystem. On case-insensitive filesystems (the macOS and Windows defaults), `os.path.exists` finds `a.png` when asked for `A.png`, so the program would store `A(1).png` where the model stores `A.png`.
- The `print` of the failure message in `create_thumbnail` (Server.py:34) writes to the console and changes no state, so it is dropped.
- Upload.SharedFolders.UploadFile assumes `file.save` succeeds. In the program nothing catches a failed save, so the request answers 500 and stores nothing. A save fails, for example, when a 255-byte name uploaded again becomes `root(1)ext`, longer than the filesystem allows; also on a full disk or a permission error.
- The check-then-write race between concurrent uploads of one name is a concurrency issue. The model is sequential.
- `str.lower` is modelled on ASCII letters only. No non-ASCII character lower-cases to a single `.`, `p`, `n`, `g`, `j`, `e`, `i` or `f`, so the image test is unaffected.
- `os.path.splitext` is modelled for POSIX paths (separator `/`, no alternative separator).
