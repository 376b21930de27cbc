/**
 * The upload service of app.py: the extension whitelist, the timestamped
 * file name, the upload decision with its write-then-sniff-then-remove
 * sequence, and the listing of stored images.
 *
 * The foreign collaborators are parameters gathered in `Env`: werkzeug's
 * `secure_filename`, the path component `urlparse` extracts, the HTTP GET of
 * `requests`, libmagic's MIME sniffer and the `BASE_URL` environment
 * variable. The clock is the `now` argument, `int(time.time())`.
 */
module App {
  import opened Common
  import opened PyLib

  /** The upload directory: file name to file contents. */
  type Folder = map<string, seq<byte>>

  /** `ALLOWED_EXTENSIONS` (app.py:26). */
  const AllowedExtensions: set<string> := {"png", "jpg", "jpeg", "gif", "webp"}

  /** `allowed_file` (app.py:35-36): a '.' occurs and the lower-cased text after the last one is whitelisted. */
  predicate AllowedFile(filename: string)
  {
    RFind(filename, '.') >= 0 && Lower(filename[RFind(filename, '.') + 1..]) in AllowedExtensions
  }

  /** `generate_unique_filename` (app.py:43-46), with the clock reading as `timestamp`. */
  function GenerateUniqueFilename(originalFilename: string, timestamp: int): string
  {
    var parts := SplitExt(originalFilename);
    parts.0 + "_" + IntToString(timestamp) + parts.1
  }

  /** The verdict of `is_valid_image` (app.py:38-41) on the MIME type the sniffer reported. */
  predicate IsImageMime(mime: string)
  {
    StartsWith(mime, "image/")
  }

  /** What `requests.get(url, stream=True)` yields: the status and the body as `iter_content` chunks. */
  datatype FetchResponse = FetchResponse(status: int, chunks: seq<seq<byte>>)

  /** The concatenation of the chunks, i.e. the whole body. */
  function Concat(chunks: seq<seq<byte>>): seq<byte>
  {
    if chunks == [] then [] else Concat(chunks[..|chunks| - 1]) + chunks[|chunks| - 1]
  }

  /** However the body is cut into chunks, the bytes are the same: concatenation distributes over `+`. */
  lemma {:induction false} ConcatAppend(a: seq<seq<byte>>, b: seq<seq<byte>>)
    ensures Concat(a + b) == Concat(a) + Concat(b)
    decreases |b|
  {
    if b == [] {
      assert a + b == a;
    } else {
      var b' := b[..|b| - 1];
      assert (a + b)[..|a + b| - 1] == a + b';
      ConcatAppend(a, b');
    }
  }

  /** The collaborators whose code is not part of this model. */
  datatype Env = Env(
    secureFilename: string -> string,      // werkzeug.utils.secure_filename
    urlPath: string -> string,             // urlparse(url).path
    get: string -> FetchResponse,          // requests.get(url, stream=True)
    sniffMime: seq<byte> -> string,        // magic.Magic(mime=True).from_file, on the file's bytes
    baseUrl: Option<string>)               // os.getenv("BASE_URL")

  /** An f-string renders a missing environment variable as "None". */
  function BaseUrlText(env: Env): string
  {
    match env.baseUrl
    case Some(u) => u
    case None => "None"
  }

  /** The `url` field of a successful upload response (app.py:97). */
  function PublicUrl(env: Env, filename: string): string
  {
    BaseUrlText(env) + "/images/" + filename
  }

  /** The `image` part of a multipart request: its declared file name and contents. */
  datatype FilePart = FilePart(filename: string, data: seq<byte>)

  /** An upload request: the JSON `url` field, if any, and the `image` file part, if any. */
  datatype Request = Request(url: Option<string>, image: Option<FilePart>)

  datatype UploadError = DownloadFailed | NotAnImage | NoFileSelected | TypeNotAllowed | NoFileOrUrl
  {
    /** The `error` text of the 400 response. */
    function Message(): string
    {
      match this
      case DownloadFailed => "Failed to download file from URL"
      case NotAnImage => "Uploaded file is not an image"
      case NoFileSelected => "No file selected"
      case TypeNotAllowed => "File type not allowed"
      case NoFileOrUrl => "No file or URL found"
    }
  }

  datatype UploadResult = Uploaded(filename: string, url: string) | Rejected(error: UploadError)
  {
    function StatusCode(): int
    {
      if Uploaded? then 200 else 400
    }
  }

  /** The folder after an upload, and the response. */
  datatype Step = Step(folder: Folder, result: UploadResult)

  /** The file name taken from a URL (app.py:55-58): the basename of its path, or "image.jpg" when that is empty. */
  function UrlOriginalFilename(path: string): (name: string)
    ensures name != []
  {
    var name := Basename(path);
    if name == "" then "image.jpg" else name
  }

  /** The name a URL upload is stored under (app.py:55-60). */
  function UrlTargetName(env: Env, url: string, now: int): string
  {
    GenerateUniqueFilename(env.secureFilename(UrlOriginalFilename(env.urlPath(url))), now)
  }

  /** The name a file upload is stored under (app.py:81). */
  function FileTargetName(env: Env, filename: string, now: int): string
  {
    GenerateUniqueFilename(env.secureFilename(filename), now)
  }

  /** The name the request's bytes are written under, when it reaches a write at all. */
  function TargetName(req: Request, env: Env, now: int): Option<string>
  {
    match req.url
    case Some(url) =>
      if env.get(url).status == 200 then Some(UrlTargetName(env, url, now)) else None
    case None =>
      match req.image
      case Some(part) =>
        if part.filename != "" && AllowedFile(part.filename)
        then Some(FileTargetName(env, part.filename, now)) else None
      case None => None
  }

  /** The bytes the request would write. */
  function Payload(req: Request, env: Env): seq<byte>
  {
    match req.url
    case Some(url) => Concat(env.get(url).chunks)
    case None =>
      match req.image
      case Some(part) => part.data
      case None => []
  }

  /** Write `payload` under `name`, sniff the file, and remove it again when it is not an image. */
  function SaveAndCheck(folder: Folder, name: string, payload: seq<byte>, env: Env): (o: Step)
    ensures o.result.Uploaded? <==> IsImageMime(env.sniffMime(payload))
    ensures o.result.Uploaded? ==>
              o.result == Uploaded(name, PublicUrl(env, name)) && o.folder == folder[name := payload]
    ensures o.result.Rejected? ==> o.result.error == NotAnImage && o.folder == folder - {name}
  {
    var saved := folder[name := payload];
    if IsImageMime(env.sniffMime(saved[name])) then Step(saved, Uploaded(name, PublicUrl(env, name)))
    else Step(saved - {name}, Rejected(NotAnImage))
  }

  /**
   * The upload decision of `upload_file` (app.py:48-98): the URL branch
   * first, then the file branch, then "No file or URL found".
   */
  function Outcome(folder: Folder, req: Request, env: Env, now: int): (o: Step)
    // rejections other than a failed sniff happen before anything is written
    ensures o.result.Rejected? && o.result.error != NotAnImage ==> o.folder == folder
    // a failed sniff removes the written name and touches nothing else
    ensures o.result == Rejected(NotAnImage) ==>
              && TargetName(req, env, now).Some?
              && o.folder == folder - {TargetName(req, env, now).value}
              && !IsImageMime(env.sniffMime(Payload(req, env)))
    // success stores the payload under the returned name, which the URL ends with
    ensures o.result.Uploaded? ==>
              && TargetName(req, env, now) == Some(o.result.filename)
              && o.folder == folder[o.result.filename := Payload(req, env)]
              && o.result.url == BaseUrlText(env) + "/images/" + o.result.filename
              && IsImageMime(env.sniffMime(Payload(req, env)))
  {
    match req.url
    case Some(url) =>
      var filename := UrlTargetName(env, url, now);
      var response := env.get(url);
      if response.status != 200 then Step(folder, Rejected(DownloadFailed))
      else SaveAndCheck(folder, filename, Concat(response.chunks), env)
    case None =>
      match req.image
      case None => Step(folder, Rejected(NoFileOrUrl))
      case Some(part) =>
        if part.filename == "" then Step(folder, Rejected(NoFileSelected))
        else if AllowedFile(part.filename) then
          SaveAndCheck(folder, FileTargetName(env, part.filename, now), part.data, env)
        else Step(folder, Rejected(TypeNotAllowed))
  }

  /** One entry of the `/list` response (app.py:111-116). */
  datatype ImageInfo = ImageInfo(name: string, url: string, size: nat, created: int)

  /** The entry listed for a stored file; `created` stands for `os.path.getctime`. */
  function InfoOf(folder: Folder, name: string, created: string -> int): (info: ImageInfo)
    requires name in folder
  {
    ImageInfo(name, "/images/" + name, |folder[name]|, created(name))
  }

  /** The entries listed for those of `names` that are stored and pass `allowed_file`. */
  function ListingAmong(folder: Folder, names: set<string>, created: string -> int): set<ImageInfo>
  {
    set n | n in names && n in folder && AllowedFile(n) :: InfoOf(folder, n, created)
  }

  /** The entries `/list` reports for the folder, in no particular order. */
  function Listing(folder: Folder, created: string -> int): set<ImageInfo>
  {
    ListingAmong(folder, folder.Keys, created)
  }

  /** Newest first: `sorted(..., key=created, reverse=True)`. */
  predicate SortedByCreatedDesc(s: seq<ImageInfo>)
  {
    forall i, j :: 0 <= i < j < |s| ==> s[i].created >= s[j].created
  }

  /** Insert `x` into a newest-first sequence, ahead of the entries it ties with. */
  function InsertByCreated(x: ImageInfo, s: seq<ImageInfo>): (r: seq<ImageInfo>)
    requires SortedByCreatedDesc(s)
    ensures SortedByCreatedDesc(r)
    ensures |r| == |s| + 1 && (r[0] == x || (s != [] && r[0] == s[0]))
  {
    if s == [] || s[0].created <= x.created then
      [x] + s
    else
      var rest := InsertByCreated(x, s[1..]);
      assert rest[0].created <= s[0].created;
      [s[0]] + rest
  }

  /** Insertion adds exactly `x`: the result is a permutation of `s` with `x` added. */
  lemma {:induction false} InsertByCreatedPermutes(x: ImageInfo, s: seq<ImageInfo>)
    requires SortedByCreatedDesc(s)
    ensures multiset(InsertByCreated(x, s)) == multiset(s) + multiset{x}
  {
    if !(s == [] || s[0].created <= x.created) {
      InsertByCreatedPermutes(x, s[1..]);
      assert s == [s[0]] + s[1..];
    }
  }

  /** `sorted(entries, key=lambda x: x['created'], reverse=True)` as an insertion sort. */
  function SortByCreatedDesc(s: seq<ImageInfo>): (r: seq<ImageInfo>)
    ensures SortedByCreatedDesc(r)
    ensures multiset(r) == multiset(s)
  {
    if s == [] then []
    else
      assert s == [s[0]] + s[1..];
      InsertByCreatedPermutes(s[0], SortByCreatedDesc(s[1..]));
      InsertByCreated(s[0], SortByCreatedDesc(s[1..]))
  }

  /** Adding one more directory entry to the listing. */
  lemma ListingAmongAdd(folder: Folder, done: set<string>, n: string, created: string -> int)
    requires n in folder && n !in done
    ensures AllowedFile(n) ==>
              && InfoOf(folder, n, created) !in ListingAmong(folder, done, created)
              && ListingAmong(folder, done + {n}, created)
                 == ListingAmong(folder, done, created) + {InfoOf(folder, n, created)}
    ensures !AllowedFile(n) ==>
              ListingAmong(folder, done + {n}, created) == ListingAmong(folder, done, created)
  {
  }

  /** The upload directory, a map the upload operation writes and removes entries of. */
  class UploadFolder {
    var files: Folder

    constructor (initial: Folder)
      ensures files == initial
    {
      files := initial;
    }

    /** `is_valid_image(file_path)` (app.py:38-41): the stored file's bytes sniff as an image type. */
    function IsValidImage(env: Env, filename: string): bool
      reads this
      requires filename in files
    {
      IsImageMime(env.sniffMime(files[filename]))
    }

    /** The write of app.py:66-69: `open(file_path, 'wb')` truncates, then each chunk is appended. */
    method SaveChunks(filename: string, chunks: seq<seq<byte>>)
      modifies this
      ensures files == old(files)[filename := Concat(chunks)]
    {
      files := files[filename := []];
      var i := 0;
      while i < |chunks|
        invariant 0 <= i <= |chunks|
        invariant files == old(files)[filename := Concat(chunks[..i])]
      {
        assert chunks[..i + 1][..i] == chunks[..i];
        files := files[filename := files[filename] + chunks[i]];
        i := i + 1;
      }
      assert chunks[..i] == chunks;
    }

    /** The check of app.py:71-72 and 85-86: a stored file that does not sniff as an image is removed. */
    method KeepIfImage(env: Env, filename: string) returns (kept: bool)
      requires filename in files
      modifies this
      ensures kept == IsImageMime(env.sniffMime(old(files)[filename]))
      ensures files == if kept then old(files) else old(files) - {filename}
    {
      kept := IsValidImage(env, filename);
      if !kept {
        files := files - {filename};
      }
    }

    /** `upload_file` (app.py:48-98), with exceptions and logging left out. */
    method Upload(req: Request, env: Env, now: int) returns (res: UploadResult)
      modifies this
      ensures Step(files, res) == Outcome(old(files), req, env, now)
    {
      var filename: string;
      if req.url.Some? {
        var url := req.url.value;
        var originalFilename := Basename(env.urlPath(url));
        if originalFilename == "" {
          originalFilename := "image.jpg";
        }
        filename := GenerateUniqueFilename(env.secureFilename(originalFilename), now);
        var response := env.get(url);
        if response.status != 200 {
          return Rejected(DownloadFailed);
        }
        SaveChunks(filename, response.chunks);
        var kept := KeepIfImage(env, filename);
        if !kept {
          return Rejected(NotAnImage);
        }
      } else if req.image.Some? {
        var file := req.image.value;
        if file.filename == "" {
          return Rejected(NoFileSelected);
        }
        if AllowedFile(file.filename) {
          filename := GenerateUniqueFilename(env.secureFilename(file.filename), now);
          files := files[filename := file.data];
          var kept := KeepIfImage(env, filename);
          if !kept {
            return Rejected(NotAnImage);
          }
        } else {
          return Rejected(TypeNotAllowed);
        }
      } else {
        return Rejected(NoFileOrUrl);
      }
      return Uploaded(filename, PublicUrl(env, filename));
    }

    /**
     * `list_images` (app.py:104-120): every stored file that passes
     * `allowed_file`, once each, newest first. The directory is walked in
     * an arbitrary order, as `os.listdir` gives no order.
     */
    method ListImages(created: string -> int) returns (entries: seq<ImageInfo>)
      ensures multiset(entries) == multiset(Listing(files, created))
      ensures SortedByCreatedDesc(entries)
    {
      var found: seq<ImageInfo> := [];
      var pending := files.Keys;
      while pending != {}
        invariant pending <= files.Keys
        invariant multiset(found) == multiset(ListingAmong(files, files.Keys - pending, created))
        decreases pending
      {
        var filename :| filename in pending;
        ghost var done := files.Keys - pending;
        pending := pending - {filename};
        assert files.Keys - pending == done + {filename};
        ListingAmongAdd(files, done, filename, created);
        if AllowedFile(filename) {
          found := found + [InfoOf(files, filename, created)];
        }
      }
      assert files.Keys - pending == files.Keys;
      entries := SortByCreatedDesc(found);
    }
  }
}
