/**
 * The image upload endpoint: a validation chain (a file is present, its MIME
 * type starts with "image/", it is at most 5 MiB), then a file name built from
 * the request time and the original name's extension, a write into the public
 * uploads directory, and the public URL of the written file.
 */
module Upload {
  import opened Common

  const MaxUploadBytes := 5 * 1024 * 1024

  /** A multipart file: its original name, its declared MIME type and its content. */
  datatype UploadedFile = UploadedFile(name: string, mimeType: string, bytes: seq<bv8>)

  /** The `file` entry of the submitted form: absent, a text value, or a file. */
  datatype FormEntry = Missing | Text(value: string) | FileEntry(file: UploadedFile)

  /** The request body: something `formData()` cannot parse, or a parsed form. */
  datatype RequestBody = NotFormData | FormData(entry: FormEntry)

  datatype Body = ErrorBody(error: string) | UrlBody(url: string)

  /** A JSON response: an HTTP status and the body object. */
  datatype Response = Response(status: nat, body: Body)

  const NoFileResponse := Response(400, ErrorBody("No file provided"))
  const NotImageResponse := Response(400, ErrorBody("File must be an image"))
  const TooLargeResponse := Response(400, ErrorBody("File too large (max 5MB)"))
  const FailureResponse := Response(500, ErrorBody("Upload failed"))

  predicate StartsWith(s: string, prefix: string)
  {
    |prefix| <= |s| && s[..|prefix|] == prefix
  }

  predicate IsImage(f: UploadedFile)
  {
    StartsWith(f.mimeType, "image/")
  }

  /** A file entry that passes every check: an image of at most 5 MiB (5242880 bytes). */
  predicate Acceptable(body: RequestBody)
    ensures Acceptable(body) ==>
      && body.FormData? && body.entry.FileEntry?
      && |body.entry.file.mimeType| >= 6 && body.entry.file.mimeType[..6] == "image/"
      && |body.entry.file.bytes| <= 5242880
    ensures body.NotFormData? || body.entry.Missing? || body.entry.Text? ==> !Acceptable(body)
  {
    body.FormData? && body.entry.FileEntry? && IsImage(body.entry.file) && |body.entry.file.bytes| <= MaxUploadBytes
  }

  /**
   * The checks in order: the body parses, the entry is truthy, its type starts
   * with "image/", its size is at most 5 MiB. The first that fails gives the
   * response; None when all pass. An unparsable body throws, and so does a
   * non-empty text entry, which has no `type` to call `startsWith` on: both are
   * caught and answered with 500. An empty text entry is falsy, as no entry is.
   */
  function Rejection(body: RequestBody): (r: Option<Response>)
    ensures r.None? <==> Acceptable(body)
    ensures r == Some(FailureResponse) <==> body.NotFormData? || (body.entry.Text? && body.entry.value != "")
    ensures r == Some(NoFileResponse) <==> body.FormData? && (body.entry.Missing? || body.entry == Text(""))
    ensures r == Some(NotImageResponse) <==> body.FormData? && body.entry.FileEntry? && !IsImage(body.entry.file)
    ensures r == Some(TooLargeResponse) <==>
      body.FormData? && body.entry.FileEntry? && IsImage(body.entry.file) && |body.entry.file.bytes| > MaxUploadBytes
  {
    if body.NotFormData? then Some(FailureResponse)
    else match body.entry
      case Missing => Some(NoFileResponse)
      case Text(value) => if value == "" then Some(NoFileResponse) else Some(FailureResponse)
      case FileEntry(file) =>
        if !IsImage(file) then Some(NotImageResponse)
        else if |file.bytes| > MaxUploadBytes then Some(TooLargeResponse)
        else None
  }

  /** A file of exactly 5 MiB is accepted; one byte more is refused as too large. */
  lemma SizeLimitIsInclusive(name: string, mimeType: string, bytes: seq<bv8>)
    requires StartsWith(mimeType, "image/")
    ensures |bytes| == MaxUploadBytes ==> Rejection(FormData(FileEntry(UploadedFile(name, mimeType, bytes)))).None?
    ensures |bytes| == MaxUploadBytes + 1 ==>
      Rejection(FormData(FileEntry(UploadedFile(name, mimeType, bytes)))) == Some(TooLargeResponse)
  {
  }

  /** `s.split(".").pop()`: the text after the last ".", or all of `s` when it has none. */
  function AfterLastDot(s: string): (r: string)
    ensures '.' !in r
    ensures |r| <= |s| && r == s[|s| - |r|..]
    ensures |r| < |s| ==> s[|s| - |r| - 1] == '.'
  {
    if s == [] then []
    else if s[|s| - 1] == '.' then []
    else AfterLastDot(s[..|s| - 1]) + [s[|s| - 1]]
  }

  /** The extension given to a name with nothing after its last ".". */
  const DefaultExtension: string := ['p', 'n', 'g']

  /** `file.name.split(".").pop() || "png"`. */
  function Extension(name: string): (ext: string)
    ensures ext != "" && '.' !in ext
  {
    var last := AfterLastDot(name);
    if |last| == 0 then DefaultExtension else last
  }

  /**
   * The extension is the whole name when it has no ".", "png" when the name is
   * empty or ends in ".", and otherwise the text after the last ".".
   */
  lemma ExtensionCases(name: string)
    ensures '.' !in name && name != "" ==> Extension(name) == name
    ensures name == "" || name[|name| - 1] == '.' ==> Extension(name) == "png"
    ensures '.' in name && name[|name| - 1] != '.' ==>
      exists k :: 0 <= k < |name| - 1 && name[k] == '.' && Extension(name) == name[k + 1..] && '.' !in name[k + 1..]
  {
    var last := AfterLastDot(name);
    if '.' in name && name[|name| - 1] != '.' {
      var k := |name| - |last| - 1;
      assert name[k] == '.';
    }
  }

  function DigitChar(d: nat): (c: char)
    requires d < 10
    ensures '0' <= c <= '9'
  {
    ('0' as int + d) as char
  }

  /** The decimal text of a number, as a template literal renders it. */
  function DecimalString(n: nat): (s: string)
    ensures s != []
    ensures forall i :: 0 <= i < |s| ==> '0' <= s[i] <= '9'
  {
    if n < 10 then [DigitChar(n)] else DecimalString(n / 10) + [DigitChar(n % 10)]
  }

  /** The number a string of decimal digits denotes. */
  function DecimalValue(s: string): nat
  {
    if s == [] then 0
    else
      var d := s[|s| - 1] as int - '0' as int;
      DecimalValue(s[..|s| - 1]) * 10 + (if 0 <= d < 10 then d else 0)
  }

  lemma {:induction false} DecimalRoundTrip(n: nat)
    ensures DecimalValue(DecimalString(n)) == n
  {
    if n >= 10 {
      DecimalRoundTrip(n / 10);
      var s := DecimalString(n);
      assert s[..|s| - 1] == DecimalString(n / 10);
    }
  }

  /** `upload-${timestamp}.${ext}`: the decimal timestamp and the extension, joined by the only "." before it. */
  function UploadFilename(timestamp: nat, name: string): (f: string)
    ensures StartsWith(f, "upload-")
    ensures var ext := Extension(name); |f| > |ext| && f[|f| - |ext| - 1] == '.' && f[|f| - |ext|..] == ext
  {
    "upload-" + DecimalString(timestamp) + "." + Extension(name)
  }

  /** The public URL of a stored upload: the file name under "/uploads/". */
  function UploadUrl(filename: string): (url: string)
    ensures StartsWith(url, "/uploads/") && url[|"/uploads/"|..] == filename
  {
    "/uploads/" + filename
  }

  lemma {:induction false} AfterLastDotOfJoin(prefix: string, ext: string)
    requires '.' !in ext
    ensures AfterLastDot(prefix + "." + ext) == ext
    decreases |ext|
  {
    var s := prefix + "." + ext;
    if ext != [] {
      var e' := ext[..|ext| - 1];
      assert s[..|s| - 1] == prefix + "." + e';
      AfterLastDotOfJoin(prefix, e');
      assert ext == e' + [ext[|ext| - 1]];
    }
  }

  /** The stored file keeps the extension the original name had ("png" when it had none). */
  lemma FilenameKeepsExtension(timestamp: nat, name: string)
    ensures AfterLastDot(UploadFilename(timestamp, name)) == Extension(name)
  {
    AfterLastDotOfJoin("upload-" + DecimalString(timestamp), Extension(name));
  }

  lemma SplitAtOnlyDot(p1: string, e1: string, p2: string, e2: string)
    requires '.' !in p1 && '.' !in p2
    requires p1 + "." + e1 == p2 + "." + e2
    ensures p1 == p2 && e1 == e2
  {
    var s := p1 + "." + e1;
    assert s[|p1|] == '.' && s[|p2|] == '.';
    assert p1 == s[..|p1|] && p2 == s[..|p2|];
    assert e1 == s[|p1| + 1..];
  }

  /** The part of a stored name before its extension has no ".". */
  lemma NoDotBeforeExtension(t: nat)
    ensures '.' !in "upload-" + DecimalString(t)
  {
    var p := "upload-" + DecimalString(t);
    forall i | 0 <= i < |p| ensures p[i] != '.' {
      if i >= 7 { assert p[i] == DecimalString(t)[i - 7]; }
    }
  }

  /** Uploads made at different times are stored under different names, whatever the original names. */
  lemma DistinctTimestampsDistinctFilenames(t1: nat, n1: string, t2: nat, n2: string)
    requires t1 != t2
    ensures UploadFilename(t1, n1) != UploadFilename(t2, n2)
  {
    if UploadFilename(t1, n1) == UploadFilename(t2, n2) {
      var p1, p2 := "upload-" + DecimalString(t1), "upload-" + DecimalString(t2);
      NoDotBeforeExtension(t1);
      NoDotBeforeExtension(t2);
      SplitAtOnlyDot(p1, Extension(n1), p2, Extension(n2));
      assert DecimalString(t1) == p1[7..] == p2[7..] == DecimalString(t2);
      DecimalRoundTrip(t1);
      DecimalRoundTrip(t2);
    }
  }

  /** The public uploads directory: file name to content. */
  class UploadsDir {
    var files: map<string, seq<bv8>>

    constructor (files: map<string, seq<bv8>>)
      ensures this.files == files
    {
      this.files := files;
    }
  }

  /**
   * POST /api/upload at time `now`. `writeSucceeds` stands for the outcome of
   * creating the directory and writing the file; a failure there is caught and
   * answered with 500.
   */
  method Post(dir: UploadsDir, body: RequestBody, now: nat, writeSucceeds: bool) returns (response: Response)
    modifies dir
    ensures Rejection(body).Some? ==> response == Rejection(body).value && dir.files == old(dir.files)
    ensures Acceptable(body) && writeSucceeds ==>
      var filename := UploadFilename(now, body.entry.file.name);
      && dir.files == old(dir.files)[filename := body.entry.file.bytes]
      && response == Response(200, UrlBody(UploadUrl(filename)))
    ensures Acceptable(body) && !writeSucceeds ==> response == FailureResponse && dir.files == old(dir.files)
    ensures response.status == 200 <==> Acceptable(body) && writeSucceeds
  {
    var rejection := Rejection(body);
    if rejection.Some? {
      return rejection.value;
    }
    var file := body.entry.file;
    var filename := UploadFilename(now, file.name);
    if !writeSucceeds {
      return FailureResponse;
    }
    dir.files := dir.files[filename := file.bytes];
    response := Response(200, UrlBody(UploadUrl(filename)));
  }
}
