# Image host upload service — a Dafny model

This project models the core of the image host's Flask service, `app.py`. It covers four parts:

- the extension whitelist `allowed_file`, with the `str.rsplit` split
  (modelled by `str.rfind`) and `str.lower` it relies on;
- the timestamped name `generate_unique_filename`, with the exact
  semantics of `os.path.splitext` (itself built on `str.rfind`) and
  `str(int)` that it relies on;
- the `/upload` endpoint `upload_file`, which takes a URL or a multipart
  file, writes it, sniffs it, and removes it again when it is not an image;
  its URL branch takes the file name from `os.path.basename`;
- the `/list` endpoint `list_images`, which lists whitelisted files
  newest first.

Modules:

- `Common` holds `Option` and the `byte` type of file contents.
- `PyLib` holds the Python string and path primitives, with CPython's
  POSIX semantics.
- `App` holds the service. The pure decision is `Outcome`. The upload
  directory is a class, `UploadFolder`, with a map field `files`. Its
  `Upload` method updates that field step by step, as the handler does, and
  is proved to end in the state and response `Outcome` gives. Its
  `ListImages` method walks the directory in an arbitrary order and is
  proved to return exactly the whitelisted entries, sorted newest first.
- `AppProperties` holds the lemmas relating all of these.

Some collaborators are parameters rather than code, gathered in `App.Env`:

- werkzeug's `secure_filename`;
- the path that `urlparse` extracts;
- `requests.get`, as a status and a sequence of body chunks;
- libmagic's MIME sniffer, as a function from bytes to a MIME string;
- the `BASE_URL` variable.

An unset `BASE_URL` renders as "None" in the f-string. `int(time.time())` is the `now` argument, and `os.path.getctime` is the `created` argument of the listing.

Two behaviours of the code are worth knowing:

- **The rollback is a removal, not a restore.** After a failed sniff the code
  runs `os.remove` on the target name (app.py:71-72, 85-86). If a file of
  that name already existed, for example from an upload of the same name in
  the same second, it is gone afterwards. `AppProperties.FailedSniffDeletesEarlierFile` states this. `AppProperties.RejectionRestoresFreshFolder` states the restore
  that does hold when the name was free.
- **The URL branch never calls `allowed_file`** (app.py:53-73). That branch
  can store and report a name that `/list` never shows
  (`AppProperties.UrlUploadSkipsWhitelist`, `AppProperties.UrlTextExample`).

## Model

| member | source | states |
|---|---|---|
| PyLib.RFind | app.py:36 | the index `rsplit('.', 1)` splits at: -1 when the character does not occur, else an occurrence with none after it |
| PyLib.RFindIs | app.py:36 | any index with that defining property is the one `RFind` returns |
| PyLib.StartsWith | app.py:41 | `str.startswith`; its meaning is stated by `PyLib.StartsWithIff` |
| PyLib.StartsWithIff | app.py:41 | `s.startswith(p)` holds iff `s` is `p` followed by some rest |
| PyLib.Lower | app.py:36 | `lower()` keeps the length and maps each character by the ASCII case mapping |
| PyLib.Basename | app.py:56 | `os.path.basename`: a suffix without '/', preceded by '/' whenever it is shorter than the path |
| PyLib.SplitExt | app.py:44 | `os.path.splitext`: base + ext is the whole name; a non-empty ext starts with its only '.' and contains no '/' |
| PyLib.SplitExtIff | app.py:44 | an extension is split off iff some non-dot lies between the last '/' and the last '.', and it then runs from that dot to the end |
| PyLib.NatToString | app.py:45 | `str(n)` is a non-empty string of decimal digits without a leading zero: it starts with '0' only when it is "0" |
| PyLib.IntToString | app.py:45 | `str(i)` is non-empty, starts with '-' iff `i < 0`, has only digits after its first character, is "0" whenever it starts with '0', and has a non-zero digit after a '-' |
| PyLib.IntToStringRoundTrip | app.py:45 | `int(str(i)) == i` for every integer timestamp |
| App.AllowedFile | app.py:35-36 | `allowed_file`; what it accepts is stated by `AppProperties.AllowedFileIff` and `AppProperties.AllowedFileOfParts` |
| AppProperties.AllowedFileIff | app.py:35-36 | `allowed_file` holds iff some '.' has no '.' after it and the lower-cased text after it is in ALLOWED_EXTENSIONS |
| AppProperties.AllowedFileOfParts | app.py:35-36 | only the text after the last dot decides acceptance |
| AppProperties.AllowedFileExamples | app.py:35-36 | "a." and "png" are refused, ".PNG" and "photo.JPeG" pass, "x.png.exe" is refused |
| AppProperties.SplitExtOfParts | app.py:44 | a name `base.ext` whose base holds a character other than '.', and which has no '/', splits into `base` and `.ext` |
| AppProperties.SplitExtDotfile | app.py:44 | ".bashrc" has no extension |
| AppProperties.SplitExtDoubleExtension | app.py:44 | "archive.tar.gz" splits at its last dot only |
| AppProperties.SplitExtTrailingDot | app.py:44 | "a." splits into "a" and the one-character extension "." |
| AppProperties.SplitExtDotInDirectory | app.py:44 | a dot in a directory part is not an extension |
| App.GenerateUniqueFilename | app.py:43-46 | `generate_unique_filename` with the second as an argument; its shape is stated by `AppProperties.GenerateSplitRoundTrip` and `AppProperties.GeneratedNamesDistinct` |
| AppProperties.GeneratedNamesDistinct | app.py:43-46 | at a fixed second `generate_unique_filename` is one-to-one in its argument, which is the sanitised name |
| AppProperties.GenerateSplitRoundTrip | app.py:43-46 | splitting the generated name gives the original base with `_<timestamp>` appended, and the original extension |
| AppProperties.GeneratedAllowedIff | app.py:43-46 | the generated name passes `allowed_file` iff the original has a splitext extension and passes it itself |
| AppProperties.GenerateOfParts | app.py:43-46 | `base.ext` becomes `base_<t>.ext` |
| AppProperties.GenerateOrdinary | app.py:43-46 | "photo.png" at second 42 becomes "photo_42.png" |
| AppProperties.GenerateDotfile | app.py:43-46 | ".bashrc" at second 42 becomes ".bashrc_42" |
| App.UrlOriginalFilename | app.py:55-58 | the file name taken from a URL is never empty |
| AppProperties.UrlOriginalFilenameFallback | app.py:56-58 | the basename is empty iff the path is empty or ends in '/', and then "image.jpg" is used |
| App.UrlTargetName | app.py:55-60 | the name a URL upload is stored under; stated by `AppProperties.UrlFallbackName` and `AppProperties.UrlTargetNamesCollideIff` |
| App.FileTargetName | app.py:81 | the name a file upload is stored under; stated by `AppProperties.FileTargetNamesCollideIff` |
| AppProperties.UrlFallbackName | app.py:55-60 | such a URL is stored under the sanitised "image.jpg" with the timestamp |
| AppProperties.UrlTargetNamesCollideIff | app.py:55-60 | in one second, two URL uploads target the same name iff their sanitised basenames (or fallbacks) agree |
| AppProperties.UrlFallbackCollides | app.py:56-60 | in one second, any two URLs whose paths are empty or end in '/' target the same name, whatever their hosts |
| AppProperties.FileTargetNamesCollideIff | app.py:81 | in one second, two file uploads target the same name iff `secure_filename` maps their names alike |
| App.SaveAndCheck | app.py:66-87 | the upload succeeds iff the written bytes sniff as `image/...`; success returns the name with its public URL and keeps the payload under it, otherwise the error is "not an image" and the name has been removed |
| App.IsImageMime | app.py:38-41 | `startswith('image/')` on the sniffed type; its use is stated by `App.SaveAndCheck` and `AppProperties.OutcomeClassification` |
| App.TargetName | app.py:52-91 | the name a request writes to, if any; stated by `App.Outcome` and `AppProperties.OutcomeClassification` |
| App.Payload | app.py:52-91 | the bytes a request writes; stated by `App.Outcome` and `AppProperties.OutcomeClassification` |
| App.Outcome | app.py:48-98 | other rejections leave the folder unchanged; a failed sniff removes exactly the target name; success stores the payload under the returned name, with URL `BASE_URL/images/<name>` |
| App.BaseUrlText | app.py:97 | the f-string rendering of `BASE_URL`, "None" when unset; stated by `AppProperties.UnsetBaseUrl` |
| App.PublicUrl | app.py:97 | `BASE_URL/images/<name>`; stated by `App.Outcome` and `AppProperties.UnsetBaseUrl` |
| AppProperties.UnsetBaseUrl | app.py:97 | with `BASE_URL` unset a successful upload answers the URL "None/images/<name>" |
| App.UploadError.Message | app.py:64-91 | the literal `error` texts of the five 400 responses; stated by `AppProperties.ErrorMessagesDistinct` |
| AppProperties.MessageKey | app.py:64-91 | characters 0, 1 and 8 of the error text identify the error |
| AppProperties.ErrorMessagesDistinct | app.py:64-91 | different errors carry different texts |
| App.UploadResult.StatusCode | app.py:64-98 | the literal status: 200 for success, 400 for every rejection; stated by `AppProperties.OutcomeStatus` |
| AppProperties.OutcomeStatus | app.py:52-98 | the upload answers 200 iff a name is written and the bytes sniff as an image, and 400 iff it is rejected |
| AppProperties.OutcomeClassification | app.py:52-91 | each of the five 400 errors, and success, happens iff its condition holds, in both directions |
| AppProperties.ResultIgnoresFolder | app.py:48-98 | the response does not depend on what the folder held |
| AppProperties.RejectionRepeats | app.py:48-98 | resubmitting a rejected request in the same second, with the same fetch and sniff results, gives the same response and state |
| AppProperties.RejectionRepeatsLater | app.py:48-98 | a rejected request is rejected with the same error at any later second and on any folder; only a failed sniff changes the folder, removing the name generated for that second |
| AppProperties.RejectionRestoresFreshFolder | app.py:71-87 | a rejection leaves the folder as it was when the target name was free |
| AppProperties.FailedSniffDeletesEarlierFile | app.py:71-87 | when the target name was already taken, a failed sniff deletes the earlier file |
| AppProperties.SameSecondCollision | app.py:43-46 | "cat.png" passes `allowed_file` and at second 7 is renamed "cat_7.png" |
| AppProperties.SecondUploadReplaces | app.py:66-98 | two successful uploads with the same target name give the same response, and the folder keeps only the second payload under that name |
| AppProperties.CatUploadsCollide | app.py:75-98 | with a sanitiser that keeps "cat.png", two image uploads of "cat.png" in second 7 both answer "cat_7.png", and only the second file's bytes remain |
| AppProperties.UrlUploadSkipsWhitelist | app.py:53-73 | a fetched image is accepted whatever its extension, and is listed iff the sanitised name has a whitelisted extension |
| AppProperties.UrlTextExample | app.py:53-60 | "notes.txt" at second 7 is stored as "notes_7.txt", which `allowed_file` refuses |
| App.Concat | app.py:66-69 | the bytes written from the chunks; `App.ConcatAppend` states it does not depend on how the body was chunked |
| App.ConcatAppend | app.py:66-69 | joining the chunks distributes over concatenating chunk sequences |
| App.UploadFolder.SaveChunks | app.py:66-69 | after truncating and appending every chunk, the file holds the whole body, and no other entry changes |
| App.UploadFolder.IsValidImage | app.py:38-41 | `is_valid_image` on a stored file; stated by `App.UploadFolder.KeepIfImage` |
| App.UploadFolder.KeepIfImage | app.py:71-87 | reports the sniff verdict and removes the file exactly when the verdict is false |
| App.UploadFolder.Upload | app.py:48-98 | the new directory and the response are those of `Outcome` on the old directory |
| App.InsertByCreated | app.py:119 | inserting into a newest-first sequence keeps it newest first, one longer, headed by the new entry or the old head |
| App.InsertByCreatedPermutes | app.py:119 | insertion adds exactly the new entry: multiset of the result is the old one plus it |
| App.SortByCreatedDesc | app.py:119 | the result is newest first and a permutation of its input |
| App.InfoOf | app.py:111-116 | the dict listed for one file: its name, `/images/<name>`, its size and its creation time; stated by `AppProperties.ListingMembership` |
| App.ListingAmong | app.py:108-116 | the entries for a set of directory names; stated by `App.ListingAmongAdd` |
| App.Listing | app.py:108-116 | the entries `/list` returns, before sorting; stated by `AppProperties.ListingMembership` |
| App.ListingAmongAdd | app.py:108-116 | one more directory entry adds its entry iff the name passes `allowed_file` |
| App.UploadFolder.ListImages | app.py:104-120 | returns exactly the listing entries, each once, newest first |
| AppProperties.ListingMembership | app.py:108-116 | an entry is listed iff it names a stored whitelisted file, with URL `/images/<name>`, its size and its creation time |
| AppProperties.StoredFileListedIff | app.py:109 | a stored file is listed iff its name passes `allowed_file` |
| AppProperties.FileUploadListedIff | app.py:80-87 | a successful file upload is listed iff the sanitised name has a splitext extension and passes `allowed_file` |
| AppProperties.ListingNamesUnique | app.py:108-116 | no two listed entries share a name |

## Left out

- Flask routing, CORS, logging, argparse and `app.run` (app.py:13-22, 124-130): framework plumbing.
- Request parsing: a request is a URL option and a file-part option. Which branch Flask reaches for `request.json` on a multipart request (app.py:52) depends on the library and is not modelled.
- The `except Exception` handlers returning 500 (app.py:100-102, 121-122): exceptions from the file system, the network or the sniffer are not modelled.
- The directory creation (app.py:32-33) and the configuration constants `UPLOAD_FOLDER` and `MAX_CONTENT_LENGTH` (app.py:25, 27). The latter is never installed in the Flask config, so no size limit exists to model.
- werkzeug's `secure_filename`, `urlparse`, `requests` and libmagic are parameters, because their code is not part of this model. `is_valid_image`'s own part, `startswith('image/')`, is modelled exactly.
- PyLib.Lower: Unicode case mapping is not modelled; only ASCII letters are lower-cased.
- App.UploadFolder.ListImages: `os.path.getctime` returns a float, here an integer-valued parameter. The stability of `sorted` among equal times is not stated, as `os.listdir` fixes no order anyway.
- App.UrlOriginalFilename: the contract does not state that the name is free of '/'. `PyLib.Basename` states that for the non-empty case.
- Timestamps are unbounded integers. `int(time.time())` has no width limit in Python either.
- `file.save` streams the upload; the model writes the part's bytes in one step.
- Uniqueness of generated names is not claimed. At a fixed second `generate_unique_filename` is one-to-one in its argument (`AppProperties.GeneratedNamesDistinct`), but that argument is the sanitised name, and names have one-second resolution. Different uploads in the same second therefore collide whenever they reach the same sanitised name:
  - two URLs whose paths are empty or end in '/', on any hosts, since both fall back to "image.jpg" (`AppProperties.UrlFallbackCollides`);
  - URLs with the same basename on different hosts (`AppProperties.UrlTargetNamesCollideIff`);
  - two file names that `secure_filename` maps alike (`AppProperties.FileTargetNamesCollideIff`);
  - two uploads of the same name.

  The later write then replaces the earlier file (`AppProperties.SecondUploadReplaces`, `AppProperties.CatUploadsCollide`).
- `os.path.getsize` is the length of the stored byte sequence.
- Concurrency: Flask's development server handles requests in threads, and the model treats each request as atomic. Two interleavings are therefore not captured: a `/list` that runs between the write and the `os.remove` of a rejected upload (app.py:66-72, 83-86) shows the unchecked file when its stored name passes `allowed_file` (app.py:109), and two same-name uploads in one second can interleave their writes, sniffs and removals.
