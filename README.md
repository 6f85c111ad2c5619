# I2U blog backend: upload, listing, publishing and pre-signing, modelled in Dafny

The backend is a small Express server in front of a PostgreSQL table of posts.
It has four request handlers with real behaviour, and this project models each
of them together with the JavaScript and Node semantics they rely on:

- **`/uploadImage`** (`server.js`). multer checks the single file part. The
  part must be in the form field `image`. It must pass the file filter: both
  the declared media type and the lower-cased extension must match
  `/jpeg|jpg|png|gif/`. It must be at most 5 MiB. multer then stores the part
  on disk as `<field>-<clock ms>-<round(random·10⁹)><extension>`. The handler
  answers 400 when there is no file, and otherwise answers with
  `/uploads/<disk name>`.
- **`/getPost`** (`server.js`). The rows of the page's query are sorted in
  place, newest publish date first. Each row is then mapped to a display
  record, whose date label is pieces 1 and 2 of the date's `toString()` text
  split on spaces. The handler answers 400 when there are no rows. It answers
  500 when the query fails, or when a row's date is NULL (calling `toString`
  on NULL throws).
- **`/publishPost`** (`server.js`). A null or undefined body cannot be
  destructured: the TypeError is caught and answered 500 with its message.
  Otherwise the handler answers 400 before any query when `content` or
  `formData` is falsy. Otherwise it sends one INSERT with
  `[category, title, timestamp, content, "markup", imageUrl]`. The timestamp
  is UTC now + 330 minutes written `YYYY-MM-DD HH:MM:SS`: the first 19
  characters of `toISOString()`, with the `T` replaced by a space.
- **`/presign`** (`routes/upload.js`). The object key is
  `posts/<uuid>-<fileName>`. The storage SDK signs a `putObject` for that key,
  with the caller's content type and a 300-second lifetime. The public URL is
  `https://<bucket>.s3.<region>.amazonaws.com/<key>`. A signer failure gives
  500, and so does a null or undefined body, before anything is signed.

Modules:

- `Wrappers`: `Option`, `Result` and `Http.Response`.
- `Text`: substring search, `split`/`join`, `replace` of the first
  occurrence, ASCII `toLowerCase`, and decimal and zero-padded numerals.
- `JsValues`: JSON values, falsiness, property access and template-literal
  text.
- `NodePath`: `path.extname`.
- `EcmaTime`: time values and `toISOString`, after section 21.4.1 of
  ECMA-262.
- `ImageUpload`, `PostListing`, `PublishPost` and `Presign`: the four
  handlers.

Inputs that are not computed by the program are parameters:

- the clock (`nowMs`);
- the `Math.random()` draw;
- the uuid;
- the query's rows or failure;
- the database's answer to the INSERT, as a function of the parameter list;
- the bucket and region settings;
- the signer, as a function of the signing request.

The in-place `rows.sort` is an insertion sort on an `array`, proved equal to a
specification function on sequences. That function is proved to be a
permutation, newest first, and stable, as JavaScript's `Array.prototype.sort`
is. The date label is taken over the `toString()` text as a string. The sort
key is the date's time value, or 0 for NULL (`new Date(null)`).

Two behaviours of the code are easy to misread:

- `Date.prototype.toString` zero-pads the day of the month, so the date label
  reads "Jan 05", not "Jan 5"; the label copies the pieces as printed
  (`DateLabelOfDateText`).
- A file of the wrong type or size is not answered by the route. multer's
  error goes to Express's default error handler, which the route does not
  configure (`PassedToErrorHandler`).

## Model

| member | source | states |
|---|---|---|
| ImageUpload.ImageTypeTestIsSubstringSearch | server.js:140-142 | the unanchored test of the regular expression of line 140 holds exactly when the string contains one of the four words somewhere |
| ImageUpload.FileFilter | server.js:139-148 | accepts if and only if both the media type and the lower-cased extension of the original name contain "jpeg", "jpg", "png" or "gif"; every other file is rejected with "Only image files are allowed!" |
| NodePath.ExtName | server.js:142 | `path.extname` is empty or starts with '.', has no further '.' or '/', and ends the base name; it is non-empty exactly when the base name has a '.' after its first character and is not ".." |
| NodePath.BaseName | server.js:142 | the last path component: it has no '/', ends the path without its trailing slashes, and is either that whole trimmed path or preceded in it by a '/' |
| ImageUpload.RandomSuffix | server.js:129 | `Math.round(random * 1E9)` is a whole number within one half of draw·10⁹, at most 10⁹ |
| ImageUpload.DiskFilename | server.js:128-131 | the disk name starts with the field name and '-' and ends with the original name's extension |
| ImageUpload.DiskFilenameShape | server.js:128-131 | the stored name, alone or behind a URL prefix, starts with the field name and '-' and ends with the original name's extension |
| ImageUpload.UniqueSuffixInjective | server.js:129 | `<ms>-<rand>` determines both the clock reading and the random suffix |
| ImageUpload.DiskFilenameInjective | server.js:128-131 | for one field and original name, different clock readings or random suffixes never give the same stored name |
| ImageUpload.ReceiveUpload | server.js:124-149 | no part passes with no file; a part in another field is refused; a part that fails the filter is refused with its message; an accepted part larger than 5242880 bytes is refused as too large, and any other accepted part is stored with its field, original name, media type and size under the generated disk name |
| ImageUpload.UploadImage | server.js:199-205 | 400 "No image file provided" exactly when there is no file; otherwise 200 with `imageUrl` equal to "/uploads/" followed by the stored name |
| ImageUpload.UploadImageRoute | server.js:197-205 | a route that answers itself answers 200 or 400 "No image file provided", the latter exactly when there is no file part; only a request with a file part reaches the error handler |
| ImageUpload.AcceptedImageIsServed | server.js:128-149 | an image part of at most 5242880 bytes in the field `image` is answered 200 with "/uploads/" followed by its generated disk name |
| ImageUpload.MissingFileIsRefused | server.js:199-201 | a request without a file part reaches the handler and is answered 400 "No image file provided" |
| ImageUpload.UploadedImageUrl | server.js:197-205 | a request answered with an image URL carried a part in field `image` that passed the filter and is at most 5242880 bytes; the URL starts with "/uploads/image-" and ends with the original extension |
| PostListing.SortRowsNewestFirst | server.js:166-169 | the in-place sort leaves the array equal to the newest-first stable sort of its old contents |
| PostListing.SortNewestFirst | server.js:166-169 | the sorted rows are as many as the input rows |
| PostListing.InsertIntoPrefix | server.js:166-169 | one pass of the sort inserts the next row into the sorted prefix and leaves the rest of the array unchanged |
| PostListing.ShiftOlderRows | server.js:166-169 | the rows of the prefix older than the carried row move one place right, and the gap is where the carried row belongs |
| PostListing.InsertByDateAt | server.js:166-169 | in a newest-first sequence, the row is inserted after every row at least as new and before every older row |
| PostListing.SortNewestFirstPermutes | server.js:166-169 | the sort neither loses nor duplicates rows |
| PostListing.SortNewestFirstOrders | server.js:166-169 | publish times never increase along the sorted rows |
| PostListing.SortNewestFirstIsStable | server.js:166-169 | rows with the same publish time keep their query order |
| PostListing.SortNewestFirstIsStableSort | server.js:166-169 | the sort has the same length as its input, is a permutation of it, is newest first and is stable |
| PostListing.DateLabelOfDateText | server.js:171-175 | for `toString()` text "weekday month day rest", the label is "month day" |
| PostListing.DateLabelOfOneWord | server.js:171-175 | text without a space gives "undefined undefined" (missing pieces are undefined) |
| PostListing.DateLabelOfTwoWords | server.js:171-175 | text of two pieces gives "<second> undefined" |
| PostListing.DateLabelOfThreeWords | server.js:171-175 | text of exactly three pieces gives "<second> <third>" |
| PostListing.DateLabel | server.js:171-175 | the label is always exactly two space-free pieces joined by one space |
| PostListing.ToView | server.js:170-183 | a display record copies its row's id, title, content, content type and image URL, and its date is a two-piece label |
| PostListing.Views | server.js:170-184 | one display record per row, in the rows' order, each with its row's id and a two-piece date label |
| PostListing.AllDatedPermutation | server.js:170-171 | reordering the rows does not change whether some date is NULL, which would make the map throw |
| PostListing.GetPost | server.js:156-195 | 500 on a failed query; 400 "No posts found" on no rows; 500 when some date is NULL; otherwise 200 "Users fetched successfully" with the display records of the sorted rows |
| PostListing.ListingIsNewestFirst | server.js:166-183 | a successful listing is a stable newest-first permutation of the rows, one record per row; each record copies id, title, content, content type and image URL and labels its date |
| EcmaTime.DayFromYearStep | server.js:224 | consecutive years start 365 or 366 days apart, by the leap-year rule |
| EcmaTime.YearFromDay | server.js:224 | the year found contains the given day |
| EcmaTime.UtcFields | server.js:224 | month, hours, minutes, seconds and milliseconds lie in their calendar ranges, and the day of the month lies between 1 and the length of its month in its year |
| EcmaTime.UtcFieldsRoundTrip | server.js:224 | the UTC fields of a time value denote that time value again |
| EcmaTime.IsoStringPrefix | server.js:224 | for years 0 to 9999, the first 19 characters of `toISOString()` are `YYYY-MM-DD`, 'T' and `HH:mm:ss` |
| EcmaTime.ToIsoString | server.js:224 | the ISO string has at least 24 characters, exactly 24 in years 0 to 9999, and ends with '.', the three zero-padded milliseconds and 'Z' |
| PublishPost.PublishTimestamp | server.js:221-224 | the timestamp exists exactly when now + 330 minutes is a valid time value, and then has 19 characters |
| PublishPost.PublishPost | server.js:213-249 | the answer is 200, 400 or 500; at most one INSERT is sent; 200 exactly when one INSERT was sent and the database accepted it; a 400 answer sends nothing |
| PublishPost.PublishTimestampDenotesShiftedNow | server.js:221-224 | the timestamp has the form `YYYY-MM-DD HH:MM:SS`; its fields are the UTC fields of now + 19800000 ms, and it denotes that instant truncated to the second |
| PublishPost.TimestampReadsBackFields | server.js:224 | slicing the ISO string to 19 characters and replacing 'T' gives a timestamp that reads back as the UTC fields |
| PublishPost.TimestampOfFields | server.js:224 | `YYYY-MM-DDTHH:mm:ss` of in-range fields, with 'T' replaced, reads back as those fields |
| PublishPost.PublishValidatesBeforeQuery | server.js:214-219 | a null or undefined body is answered 500 with the destructuring TypeError's message; otherwise 400 "Missing required fields" exactly when `content` or `formData` is falsy; in both cases nothing reaches the database and the answer does not depend on it; otherwise exactly one INSERT is sent |
| PublishPost.PublishSendsInsertValues | server.js:228-241 | with both fields present, the one INSERT carries the parameter list of line 229; the answer is 200 when it succeeds and 500 with the database's message when it fails |
| PublishPost.InsertValuesBindColumns | server.js:228-229 | post_page gets category, post_title gets title, post_published_date gets the timestamp, post_content gets content, post_content_type gets "markup" and post_image_url gets imageUrl |
| Text.SplitThenJoin | server.js:172-173 | joining the pieces of `split(" ")` with the separator gives the text back |
| Text.Split | server.js:172-173 | `split(" ")` gives at least one piece and no piece contains the separator |
| Text.SplitAfterWord | server.js:172-173 | a word without the separator, followed by the separator, is the first piece |
| Text.ReplaceFirstOccurrence | server.js:224 | `replace('T', ' ')` changes the first 'T' only |
| Text.ReplaceFirst | server.js:224 | `replace` keeps the length, leaves a string without the character unchanged and changes no position holding another character |
| Text.Lower | server.js:142 | `toLowerCase` keeps the length, turns each ASCII capital into the same letter in small case and keeps every other character |
| JsValues.Falsy | server.js:216 | null and undefined are falsy; a boolean is falsy exactly when false, a number exactly when 0, a string exactly when empty; arrays and objects are never falsy |
| JsValues.Prop | server.js:215 | a property reads as something other than undefined only when the value is an object that has that key, and then it is that key's value |
| JsValues.TemplateText | routes/upload.js:17 | a string is substituted as itself; an integer is substituted as its decimal digits, behind '-' when negative, which read back as the number |
| Text.DecimalRoundTrip | server.js:129 | a number written into a string is a non-empty run of digits denoting it |
| Text.FixedDigitsRoundTrip | server.js:224 | a zero-padded field of the ISO string is all digits and denotes the field |
| Presign.ObjectKey | routes/upload.js:17 | the key starts with "posts/" and ends with "-" followed by the file name's text |
| Presign.ObjectKeyRoundTrip | routes/upload.js:17 | for a 36-character uuid, the uuid and the file name can be read back from the key |
| Presign.PublicUrl | routes/upload.js:28 | the public URL ends with "/" followed by the key |
| Presign.PublicUrlDeterminesKey | routes/upload.js:28 | for one bucket and region, the public URL determines the key |
| Presign.PresignUpload | routes/upload.js:14-39 | the answer is either 200 with a key under "posts/" and the public URL of that key, or 500 "Failed to generate upload URL" |
| Presign.PresignSignsTheReturnedKey | routes/upload.js:14-39 | 200 exactly when the body is not null or undefined and the signer succeeds; then the signer was asked for a `putObject` of the returned key in the configured bucket, with the caller's `fileType` and 300 s; the upload URL is the signer's and the public URL is the key's; otherwise 500 "Failed to generate upload URL" with no key or URL, and for a null or undefined body whatever the signer would do |

## Left out

- Express and router wiring, CORS, body parsing, static serving of `/uploads` and `app.listen`: framework plumbing.
- The `pg` client's connection, its diagnostics and error handler, and the execution of the queries. A query is its outcome (rows or a failure); the INSERT is a function from the parameter list to success or an error message.
- The Winston logger and `console` output: side effects that do not change any response.
- The choice of upload directory, `fs.mkdirSync`, and multer's disk write and its I/O errors: filesystem I/O.
- `Date.now`, `Math.random`, `uuidv4` and the signer's internals: inputs of the model.
- `Date.prototype.toString`: it depends on locale and time zone, so a date is given by its time value and by the text `toString()` produced.
- Process-level exit handlers and the interleaving of asynchronous requests.
- ImageUpload.FileFilter: the extension is lower-cased for ASCII letters only. `toLowerCase` also folds other letters, which cannot change the verdict because the four words are ASCII, but this is not proved.
- ImageUpload.ReceiveUpload: one optional file part per request. Extra parts and parts with an empty file name, which multer skips, are not modelled.
- ImageUpload.UploadImage: the 500 branch of the handler is not modelled, because nothing between lines 199 and 205 can throw for a stored file.
- JsValues.TemplateText: numbers are integers, so JSON non-integral numbers and their text are not modelled. Integers of 10²¹ or more print as digits, where JavaScript writes exponent form ("1e+21"). An object whose own `toString` is not a function would make the template throw; objects always print "[object Object]" here.
- ImageUpload.RandomSuffix: the product `draw * 1E9` is the exact real product, not a double rounded to 53 bits, so a product within one rounding step of a half may round the other way in JavaScript.
- PostListing.SortKey: an unparsable date (an Invalid Date, whose subtraction gives NaN, so the comparator calls such rows equal to everything) is not modelled; a date is its time value or NULL.
- PublishPost.PublishTimestampDenotesShiftedNow: proved for years 0 to 9999. For other years `toISOString` writes a sign and six digits, and the 19-character slice cuts the time.
- PublishPost.PublishPost: an absent `imageUrl` is passed as `undefined`. The driver then stores NULL; that conversion is the driver's and is not modelled.
- PostListing.GetPost: the `page` parameter only selects rows in the query, which is an input.
