/**
 * Image upload through the server (server.js lines 124-149 and 197-211): the
 * multer configuration (file filter, 5 MiB limit, disk file name) and the
 * `/uploadImage` handler. The clock and `Math.random` are parameters.
 */
module ImageUpload {
  import opened Wrappers
  import opened Http
  import opened Text
  import opened NodePath

  /** The alternatives of the filter's regular expression `/jpeg|jpg|png|gif/`, in order. */
  const ImageTypeWords: seq<string> := ["jpeg", "jpg", "png", "gif"]

  /** `limits.fileSize`: 5 MiB. */
  const MaxFileSize: nat := 5 * 1024 * 1024

  /** `upload.single('image')` accepts one file, in this form field. */
  const ImageField: string := "image"

  /** The static route under which stored uploads are served. */
  const UploadsPrefix: string := "/uploads/"

  const NotAnImageMessage: string := "Only image files are allowed!"
  const NoFileMessage: string := "No image file provided"

  /** A file part of a multipart request, as multer describes it to the filter. */
  datatype FilePart = FilePart(fieldname: string, originalname: string, mimetype: string, size: nat)

  /** `req.file` once multer has stored the part on disk. */
  datatype StoredFile = StoredFile(fieldname: string, originalname: string, mimetype: string, filename: string, size: nat)

  datatype FilterVerdict = Accept | Reject(message: string)

  /** Why multer stops a request before the handler runs. */
  datatype UploadRejection =
    | UnexpectedField(field: string)
    | NotAnImage(message: string)
    | FileTooLarge

  datatype UploadBody = ImageUrl(imageUrl: string) | UploadError(error: string)

  /** What the route does: answer through the handler, or hand multer's error to Express. */
  datatype RouteOutcome =
    | Handled(response: Response<UploadBody>)
    | PassedToErrorHandler(rejection: UploadRejection)

  // ---------------------------------------------------------------- the file filter

  /** One of the regular expression's alternatives, tried in order, matches at index `i`. */
  predicate AlternativeMatchesAt(s: string, alternatives: seq<string>, i: nat)
  {
    |alternatives| > 0 && (OccursAt(s, alternatives[0], i) || AlternativeMatchesAt(s, alternatives[1..], i))
  }

  /** The unanchored search of `test`: try every start index from `i` on. */
  predicate SearchFrom(s: string, i: nat)
    decreases |s| + 1 - i
  {
    i <= |s| && (AlternativeMatchesAt(s, ImageTypeWords, i) || SearchFrom(s, i + 1))
  }

  /** `/jpeg|jpg|png|gif/.test(s)`. */
  predicate ImageTypeTest(s: string)
  {
    SearchFrom(s, 0)
  }

  /** `s` contains one of the four words. */
  ghost predicate HasImageWord(s: string)
  {
    exists w :: w in ImageTypeWords && Contains(s, w)
  }

  lemma {:induction false} AlternativesMatchAt(s: string, alternatives: seq<string>, i: nat)
    ensures AlternativeMatchesAt(s, alternatives, i) <==> exists w :: w in alternatives && OccursAt(s, w, i)
  {
    if |alternatives| > 0 {
      AlternativesMatchAt(s, alternatives[1..], i);
      assert forall w :: w in alternatives <==> w == alternatives[0] || w in alternatives[1..];
    }
  }

  lemma {:induction false} SearchFromFindsOccurrence(s: string, i: nat)
    ensures SearchFrom(s, i) <==> exists w, j: nat :: w in ImageTypeWords && i <= j && OccursAt(s, w, j)
    decreases |s| + 1 - i
  {
    AlternativesMatchAt(s, ImageTypeWords, i);
    if i <= |s| {
      SearchFromFindsOccurrence(s, i + 1);
      forall w, j: nat | w in ImageTypeWords && i <= j && OccursAt(s, w, j)
        ensures AlternativeMatchesAt(s, ImageTypeWords, i) || SearchFrom(s, i + 1)
      {
        if j > i {
          assert i + 1 <= j;
        }
      }
    }
  }

  /** The regular-expression test is a substring test: it holds exactly when `s` contains one of the four words. */
  lemma ImageTypeTestIsSubstringSearch(s: string)
    ensures ImageTypeTest(s) <==> HasImageWord(s)
  {
    SearchFromFindsOccurrence(s, 0);
    if HasImageWord(s) {
      var w :| w in ImageTypeWords && Contains(s, w);
      var j: nat :| OccursAt(s, w, j);
    }
  }

  /**
   * multer's `fileFilter`: accept when both the declared media type and the
   * lower-cased extension of the original name contain one of the four words.
   */
  function FileFilter(file: FilePart): (v: FilterVerdict)
    ensures v == Accept <==> HasImageWord(file.mimetype) && HasImageWord(Lower(ExtName(file.originalname)))
    ensures v != Accept ==> v == Reject(NotAnImageMessage)
  {
    ImageTypeTestIsSubstringSearch(file.mimetype);
    ImageTypeTestIsSubstringSearch(Lower(ExtName(file.originalname)));
    if ImageTypeTest(file.mimetype) && ImageTypeTest(Lower(ExtName(file.originalname))) then Accept
    else Reject(NotAnImageMessage)
  }

  // ---------------------------------------------------------------- the disk file name

  /** `Math.round(draw * 1E9)` for a draw of `Math.random()`. */
  function RandomSuffix(draw: real): (r: nat)
    requires 0.0 <= draw < 1.0
    ensures r <= 1000000000
    ensures (r as real) - 0.5 <= draw * 1000000000.0 < (r as real) + 0.5
  {
    (draw * 1000000000.0 + 0.5).Floor
  }

  /** `uniqueSuffix`: the clock reading and the random suffix joined by '-'. */
  function UniqueSuffix(nowMs: nat, suffix: nat): string
  {
    Decimal(nowMs) + "-" + Decimal(suffix)
  }

  /** The storage's `filename` callback: `fieldname-<uniqueSuffix><extension>`. */
  function DiskFilename(fieldname: string, originalname: string, nowMs: nat, suffix: nat): (name: string)
    ensures fieldname + "-" <= name
    ensures EndsWith(name, ExtName(originalname))
  {
    var head, ext := fieldname + "-", ExtName(originalname);
    PieceEnds(head, UniqueSuffix(nowMs, suffix), ext);
    head + UniqueSuffix(nowMs, suffix) + ext
  }

  /** Two runs of digits joined by '-' determine both runs. */
  lemma DashedDigitsInjective(a: string, b: string, c: string, d: string)
    requires AllDigits(a) && AllDigits(c)
    requires a + "-" + b == c + "-" + d
    ensures a == c && b == d
  {
    var x := a + "-" + b;
    assert x[|a|] == '-' && x[|c|] == '-';
    assert forall i :: 0 <= i < |a| ==> x[i] == a[i] && IsDigit(x[i]);
    assert forall i :: 0 <= i < |c| ==> x[i] == c[i] && IsDigit(x[i]);
    assert a == x[..|a|] == c;
    assert b == x[|a| + 1..] == d;
  }

  /** The unique suffix determines the clock reading and the random suffix. */
  lemma UniqueSuffixInjective(now1: nat, suffix1: nat, now2: nat, suffix2: nat)
    requires UniqueSuffix(now1, suffix1) == UniqueSuffix(now2, suffix2)
    ensures now1 == now2 && suffix1 == suffix2
  {
    DecimalRoundTrip(now1);
    DecimalRoundTrip(now2);
    DashedDigitsInjective(Decimal(now1), Decimal(suffix1), Decimal(now2), Decimal(suffix2));
    DecimalInjective(now1, now2);
    DecimalInjective(suffix1, suffix2);
  }

  /**
   * For one field and original name, the disk name determines both the clock
   * reading and the random suffix: different readings never collide.
   */
  lemma DiskFilenameInjective(fieldname: string, originalname: string, now1: nat, suffix1: nat, now2: nat, suffix2: nat)
    requires DiskFilename(fieldname, originalname, now1, suffix1) == DiskFilename(fieldname, originalname, now2, suffix2)
    ensures now1 == now2 && suffix1 == suffix2
  {
    var head, ext := fieldname + "-", ExtName(originalname);
    var m1, m2 := UniqueSuffix(now1, suffix1), UniqueSuffix(now2, suffix2);
    var n := head + m1 + ext;
    assert n == head + m2 + ext;
    assert m1 == n[|head|..|n| - |ext|];
    assert m2 == n[|head|..|n| - |ext|];
    UniqueSuffixInjective(now1, suffix1, now2, suffix2);
  }

  // ---------------------------------------------------------------- multer and the handler

  /**
   * What `upload.single('image')` does with the request's file part: refuse a
   * file in another field, run the filter, then store the file under its
   * generated name unless it exceeds the size limit.
   */
  function ReceiveUpload(part: Option<FilePart>, nowMs: nat, draw: real): (r: Result<Option<StoredFile>, UploadRejection>)
    requires 0.0 <= draw < 1.0
    ensures part.None? ==> r == Ok(None)
    ensures part.Some? && part.value.fieldname != ImageField ==> r == Err(UnexpectedField(part.value.fieldname))
    ensures part.Some? && part.value.fieldname == ImageField && FileFilter(part.value) != Accept
            ==> r == Err(NotAnImage(NotAnImageMessage))
    ensures part.Some? && part.value.fieldname == ImageField && FileFilter(part.value) == Accept
            ==> r == if part.value.size > 5242880 then Err(FileTooLarge)
                    else Ok(Some(StoredFile(ImageField, part.value.originalname, part.value.mimetype,
                                            DiskFilename(ImageField, part.value.originalname, nowMs, RandomSuffix(draw)),
                                            part.value.size)))
  {
    match part
    case None => Ok(None)
    case Some(f) =>
      if f.fieldname != ImageField then Err(UnexpectedField(f.fieldname))
      else match FileFilter(f)
        case Reject(message) => Err(NotAnImage(message))
        case Accept =>
          if f.size > MaxFileSize then Err(FileTooLarge)
          else
            var name := DiskFilename(f.fieldname, f.originalname, nowMs, RandomSuffix(draw));
            Ok(Some(StoredFile(f.fieldname, f.originalname, f.mimetype, name, f.size)))
  }

  /** The `/uploadImage` handler: 400 without a file, otherwise the URL under `/uploads/`. */
  function UploadImage(file: Option<StoredFile>): (r: Response<UploadBody>)
    ensures file.None? <==> r == Response(400, UploadError(NoFileMessage))
    ensures file.Some? ==> r.status == 200 && r.body.ImageUrl? && r.body.imageUrl == UploadsPrefix + file.value.filename
  {
    match file
    case None => Response(400, UploadError(NoFileMessage))
    case Some(f) => Response(200, ImageUrl(UploadsPrefix + f.filename))
  }

  /** The route: multer first, then the handler if multer let the request through. */
  function UploadImageRoute(part: Option<FilePart>, nowMs: nat, draw: real): (r: RouteOutcome)
    requires 0.0 <= draw < 1.0
    ensures r.Handled? ==> r.response.status == 200 || r.response == Response(400, UploadError(NoFileMessage))
    ensures r == Handled(Response(400, UploadError(NoFileMessage))) <==> part.None?
    ensures r.PassedToErrorHandler? ==> part.Some?
  {
    match ReceiveUpload(part, nowMs, draw)
    case Err(rejection) => PassedToErrorHandler(rejection)
    case Ok(file) => Handled(UploadImage(file))
  }

  /** A request without a file part reaches the handler and gets the 400 answer. */
  lemma MissingFileIsRefused(nowMs: nat, draw: real)
    requires 0.0 <= draw < 1.0
    ensures UploadImageRoute(None, nowMs, draw) == Handled(Response(400, UploadError(NoFileMessage)))
  {
  }

  /**
   * End to end: a request answered with an image URL carried an image part of
   * at most 5 MiB in the field `image`, and the URL is `/uploads/image-...`
   * ending with the original extension.
   */
  lemma UploadedImageUrl(part: Option<FilePart>, nowMs: nat, draw: real, url: string)
    requires 0.0 <= draw < 1.0
    requires UploadImageRoute(part, nowMs, draw) == Handled(Response(200, ImageUrl(url)))
    ensures part.Some? && part.value.fieldname == ImageField
    ensures FileFilter(part.value) == Accept && part.value.size <= 5242880
    ensures UploadsPrefix + ImageField + "-" <= url && EndsWith(url, ExtName(part.value.originalname))
  {
    var received := ReceiveUpload(part, nowMs, draw);
    assert received.Ok? && received.value.Some?;
    assert url == UploadsPrefix + DiskFilename(ImageField, part.value.originalname, nowMs, RandomSuffix(draw));
    DiskFilenameShape(UploadsPrefix, ImageField, part.value.originalname, nowMs, RandomSuffix(draw));
  }

  /**
   * The converse: an image part of at most 5 MiB in the field `image` is stored
   * and answered with its URL under `/uploads/`.
   */
  lemma AcceptedImageIsServed(file: FilePart, nowMs: nat, draw: real)
    requires 0.0 <= draw < 1.0
    requires file.fieldname == ImageField && FileFilter(file) == Accept && file.size <= 5242880
    ensures UploadImageRoute(Some(file), nowMs, draw)
              == Handled(Response(200, ImageUrl(UploadsPrefix + DiskFilename(ImageField, file.originalname, nowMs, RandomSuffix(draw)))))
  {
  }

  /**
   * The disk name, on its own or behind a URL prefix, starts with the field name
   * and a dash and ends with the original file's extension.
   */
  lemma DiskFilenameShape(prefix: string, fieldname: string, originalname: string, nowMs: nat, suffix: nat)
    ensures prefix + fieldname + "-" <= prefix + DiskFilename(fieldname, originalname, nowMs, suffix)
    ensures EndsWith(prefix + DiskFilename(fieldname, originalname, nowMs, suffix), ExtName(originalname))
  {
    ConcatenationEnds(prefix, fieldname + "-", UniqueSuffix(nowMs, suffix), ExtName(originalname));
  }

  /** `a + b + c` starts with `a` and ends with `c`. */
  lemma PieceEnds(a: string, b: string, c: string)
    ensures a <= a + b + c
    ensures EndsWith(a + b + c, c)
  {
    var s := a + b + c;
    assert s == a + (b + c);
    assert s[|s| - |c|..] == c;
  }

  /** `p + (a + b + c)` starts with `p + a` and ends with `c`. */
  lemma ConcatenationEnds(p: string, a: string, b: string, c: string)
    ensures p + a <= p + (a + b + c)
    ensures EndsWith(p + (a + b + c), c)
  {
    var s := p + (a + b + c);
    assert s == (p + a) + (b + c);
    assert s == (p + a + b) + c;
    assert s[|s| - |c|..] == c;
  }
}
