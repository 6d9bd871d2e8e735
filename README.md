# File uploads and error responses of the MERN starter server

This project models two Express helpers of the TypeScript MERN starter's
server, and proves properties of the model:

- the upload utility (`server/util/fileUpload.ts`). It covers the table of
  allowed MIME types and size ceilings, provisioning the upload directories,
  generating a stored file name, choosing a disk destination, the multer file
  filter, the per-category uploaders, removing a file and building a file's
  public URL.
- the error middleware (`server/middleware/errorHandler.ts`). It covers the
  `ApiError` class, the not-found handler and the global handler that turns
  any error into a JSON envelope.

Modules:

- Wrappers: `Option`.
- Encoding: the decimal rendering of the `Date.now()` timestamp and the
  lower-case hex rendering of the random bytes, each with the decoder that
  inverts it.
- JsText: the JavaScript string operations the code uses. These are
  `toLowerCase`, the two regular-expression replacements, `substring` and
  `split`. `IndexOf` is the left-to-right search for the separator inside
  `split`; `LastIndexOf` is the right-to-left scan for the last `/` or `.`
  inside Node's `path.extname` and `path.basename`.
- NodePath: POSIX `path.extname`, `path.basename` with a suffix, and
  `path.join` of a normalised directory and a single-segment name.
- ErrorHandler: `errorHandler.ts`.
- FileUpload: `fileUpload.ts`.

The code is modelled in its own form:

- `getFileType` walks the table with a loop. It is a method with a `while`
  loop, proved equal to the specification function `Classify`.
- The file system that `createUploadDirectories` and `removeFile` change is a
  class with two sets, the paths that are directories and the paths that are
  files. `existsSync` is true for both, and `unlink` fails on a directory.
- `ApiError` is a class whose constructor sets its fields.
- The global handler builds its envelope step by step.
- The pure helpers are functions: the stored name, the destination, the
  filter and the URL.

Values the code reads from its environment are parameters. These are the
clock (`Date.now()` and the ISO time string), `crypto.randomBytes`, the stack
trace the runtime captures, `NODE_ENV`, the request's protocol and host, and
the uploads root that `__dirname` resolves to.

Two properties of the stored name, as the code computes it:

- The sanitised base can be empty. An empty original name gives an empty
  base and an empty extension, so the stored name starts with `-`
  (`FileUpload.EmptyOriginalNameExample`).
- The comment at fileUpload.ts:42 calls the name secure against path
  traversal. The extension is only lower-cased, never sanitised. The model
  proves what does hold (`FileUpload.SecureFilenameSafe`): the name holds no
  `/`, the part before the extension is in `[A-Za-z0-9-]`, and the extension
  is empty or one `.` followed by no other `.`.

## Model

| member | source | states |
|---|---|---|
| `ErrorHandler.ApiError.constructor` | server/middleware/errorHandler.ts:22-27 | a new error carries exactly the given status code, message, validation errors and captured stack |
| `ErrorHandler.NotFoundHandler` | server/middleware/errorHandler.ts:33-36 | an unmatched route yields a fresh `ApiError` with status 404, message `Resource not found - <url>` and no validation errors |
| `ErrorHandler.Truthy` | server/middleware/errorHandler.ts:65 | JavaScript truthiness, the test `if (errors)` applies: `undefined`, `null`, `false`, `0` and `""` are falsy, and every array and object is truthy |
| `ErrorHandler.GlobalErrorHandler` | server/middleware/errorHandler.ts:41-70 | status is the error's own code for an `ApiError` and 500 otherwise, and the response is sent with it; an empty message becomes `Internal Server Error`; path and timestamp come from the request and the clock; the stack is present exactly in development; validation errors are present exactly when the `ApiError`'s value for them is truthy |
| `ErrorHandler.RespondNotFound` | server/middleware/errorHandler.ts:33-70 | an unmatched route is answered with 404, `Resource not found - <url>`, no validation errors, and a stack only in development |
| `Encoding.Decimal` | server/util/fileUpload.ts:51 | the timestamp's digits are non-empty and decimal, with no leading zero except for 0 itself |
| `Encoding.DecimalRoundTrip` | server/util/fileUpload.ts:51 | the decimal text of a timestamp reads back as that timestamp |
| `Encoding.Hex` | server/util/fileUpload.ts:45 | eight random bytes render as 16 lower-case hex digits, two per byte |
| `Encoding.HexRoundTrip` | server/util/fileUpload.ts:45 | the hex text of the random bytes reads back as those bytes |
| `JsText.ToLowerCase` | server/util/fileUpload.ts:46 | same length; each upper-case ASCII letter is lowered and every other character kept |
| `JsText.ReplaceNonAlphanumeric` | server/util/fileUpload.ts:48 | same length; each character outside `[a-zA-Z0-9]` becomes `-` and the rest are kept |
| `JsText.Substring` | server/util/fileUpload.ts:49 | the result is the prefix of length min(n, length) |
| `JsText.ReplaceBackslashes` | server/util/fileUpload.ts:126 | same length; every `\` becomes `/` and every other character is kept |
| `JsText.IndexOf` | server/util/fileUpload.ts:126 | the search inside `split`: the first occurrence of the pattern, or none exactly when the pattern does not occur |
| `JsText.Split` | server/util/fileUpload.ts:126 | there is at least one piece and no piece holds the separator; `JsText.SplitCount`, `JsText.SecondPiece` and `JsText.SplitJoin` pin the pieces further |
| `JsText.SplitCount` | server/util/fileUpload.ts:126 | a split has two or more pieces exactly when the separator occurs, so `[1]` exists exactly then |
| `JsText.SplitJoin` | server/util/fileUpload.ts:126 | joining the pieces of a split with the separator gives back the string |
| `JsText.SecondPiece` | server/util/fileUpload.ts:126 | the second piece of a split is the text between the first and the second occurrence, or up to the end |
| `NodePath.ExtName` | server/util/fileUpload.ts:46 | the extension is non-empty exactly when the last segment has a `.` after its first character and is not `..`; a non-empty one is a proper suffix of the last segment, one `.` followed by no other `.`, so it runs from the segment's last `.`; it holds no `/` |
| `NodePath.BaseName` | server/util/fileUpload.ts:47 | the base is a prefix of the last path segment and holds no `/` |
| `NodePath.BaseNameProperSuffix` | server/util/fileUpload.ts:47 | a suffix shorter than the last segment is cut exactly when the segment ends with it |
| `NodePath.StripExtension` | server/util/fileUpload.ts:46-47 | a suffix as long as the extension is cut exactly when it equals the extension; otherwise the whole last segment is kept |
| `NodePath.JoinLastSegment` | server/util/fileUpload.ts:32 | the last segment of a directory joined with a single-segment name is that name |
| `NodePath.JoinInjective` | server/util/fileUpload.ts:32 | one directory joined with two names gives equal paths exactly when the names are equal |
| `FileUpload.MaxFileSize` | server/util/fileUpload.ts:16-20 | each ceiling is a positive whole number of MiB |
| `FileUpload.MimeTypes` | server/util/fileUpload.ts:9-13 | each category's list in the table of allowed types (the table itself, in declaration order, is the constant `AllowedFileTypes`); no list is empty, and `FileUpload.MimeTypesDisjoint` states that no type is in two lists |
| `FileUpload.Classify` | server/util/fileUpload.ts:67-74 | `getFileType` as a specification, the first-match scan over the table of lines 9-13; a type it classifies is in that category's list |
| `FileUpload.FirstIn` | server/util/fileUpload.ts:67-74 | no category exactly when no entry lists the type; otherwise the category of the first entry that lists it |
| `FileUpload.GetFileType` | server/util/fileUpload.ts:67-74 | the loop over the table returns the type's category, or none |
| `FileUpload.ClassifyExact` | server/util/fileUpload.ts:9-13 | a type is classified as a category exactly when that category's list holds it |
| `FileUpload.MimeTypesDisjoint` | server/util/fileUpload.ts:9-13 | no MIME type is listed under two categories |
| `FileUpload.ClassifyNone` | server/util/fileUpload.ts:67-74 | a type is unclassified exactly when no list holds it |
| `FileUpload.StoredExtension` | server/util/fileUpload.ts:46 | the stored extension is empty or one `.` followed by no other `.`, and holds no `/` |
| `FileUpload.SanitizedBase` | server/util/fileUpload.ts:47-49 | the base has at most 20 characters, each in `[A-Za-z0-9]` or `-` |
| `FileUpload.SecureFilename` | server/util/fileUpload.ts:43-52 | base, `-`, decimal timestamp, `-`, hex bytes and the lower-cased extension; the extension read back from the name's last `.` is the stored extension |
| `FileUpload.ParseStoredName` | server/util/fileUpload.ts:51 | the inverse of the name template: a parsed name has 8 random bytes and ends with its parsed extension |
| `FileUpload.SecureFilenameParses` | server/util/fileUpload.ts:43-52 | a generated name parses back into its sanitised base, timestamp, random bytes and extension |
| `FileUpload.SecureFilenameInjective` | server/util/fileUpload.ts:43-52 | equal generated names have equal timestamps, random bytes, bases and extensions |
| `FileUpload.SecureFilenameSafe` | server/util/fileUpload.ts:42-52 | a generated name holds no `/`, has at least 19 characters, ends with the extension, and everything before the extension is in `[A-Za-z0-9-]` |
| `FileUpload.ExtensionStrippedIffLowerCase` | server/util/fileUpload.ts:46-47 | the extension is cut from the base exactly when it is already lower-case; otherwise the whole last segment is the base |
| `FileUpload.UpperCaseExtensionExample` | server/util/fileUpload.ts:46-49 | `photo.JPG` gets extension `.jpg` and base `photo-JPG` |
| `FileUpload.EmptyOriginalNameExample` | server/util/fileUpload.ts:47-51 | an empty original name gives an empty base and extension, so the stored name starts with `-` |
| `FileUpload.Destination` | server/util/fileUpload.ts:56-59 | the destination is a direct child of the uploads root: the root, `/`, and a name without `/` |
| `FileUpload.DestinationChoice` | server/util/fileUpload.ts:56-59 | a listed type is stored in its category's directory under the uploads root, and an unlisted one in `temp` |
| `FileUpload.FileFilter` | server/util/fileUpload.ts:77-91 | an unlisted type is rejected with 400 and `Unsupported file type: <type>`; a listed type is rejected with 400 and the size message exactly when a declared length exceeds its category's ceiling, and otherwise accepted |
| `FileUpload.FileFilterBoundary` | server/util/fileUpload.ts:86 | a declared length equal to the ceiling, or no declared length, is accepted; one byte more is rejected |
| `FileUpload.AcceptedFileStoredInOwnCategory` | server/util/fileUpload.ts:56-91 | an accepted file goes to its own category's directory and never to `temp` |
| `FileUpload.TooLargeMessages` | server/util/fileUpload.ts:87 | the size messages print 5MB, 10MB and 2MB |
| `FileUpload.FileFilterCallback` | server/util/fileUpload.ts:80-90 | the callback gets no error exactly when the filter accepts; otherwise it gets a fresh `ApiError` holding the filter's status and message |
| `FileUpload.RejectedUploadResponse` | server/util/fileUpload.ts:80-88 | a rejected upload is answered by the global handler with status 400, the filter's message, the request path and no validation errors |
| `FileUpload.CreateUploader` | server/util/fileUpload.ts:94-102 | for a type of the uploader's own category, the filter accepts a declared length exactly when it is within the uploader's stream limit |
| `FileUpload.UploaderLimits` | server/util/fileUpload.ts:94-107 | the image, document and CSV uploaders stop a stream at 5, 10 and 2 MiB |
| `FileUpload.FilterIgnoresUploaderCategory` | server/util/fileUpload.ts:85-99 | the filter checks the classified category's ceiling, not the uploader's: an 8 MiB PDF passes the filter of the image uploader, whose limit is 5 MiB |
| `FileUpload.SubdirectoryPaths` | server/util/fileUpload.ts:31-32 | each subdirectory's path is the base directory joined with its name, in order |
| `FileUpload.Provisioned` | server/util/fileUpload.ts:23-37 | provisioning keeps every directory, and a new directory is the base or one of the listed subdirectories, never a path where a file is |
| `FileUpload.ProvisionedProperties` | server/util/fileUpload.ts:23-37 | provisioning removes no directory, creates the base and every subdirectory unless a file is in the way, and a second run changes nothing |
| `FileUpload.CsvDestinationNotProvisioned` | server/util/fileUpload.ts:25-58 | with the subdirectory list as written, the destination of a CSV type is still missing after provisioning |
| `FileUpload.NonCsvDestinationProvisioned` | server/util/fileUpload.ts:25-58 | with the subdirectory list as written, every destination of a non-CSV type exists after provisioning, unless a file is in the way |
| `FileUpload.EveryDestinationProvisioned` | server/util/fileUpload.ts:23-59 | with `csv` added to the list, every destination the storage can choose exists after provisioning, unless a file is in the way |
| `FileUpload.FileSystem.CreateUploadDirectories` | server/util/fileUpload.ts:23-37 | the loop leaves the directories as `Provisioned` describes, and files untouched |
| `FileUpload.ProvisionAtStartup` | server/util/fileUpload.ts:39-40 | start-up provisioning with line 25's list: every non-CSV destination is then a directory unless a file is in the way, and a CSV destination that was missing stays missing |
| `FileUpload.ProvisionAtStartupCorrected` | server/util/fileUpload.ts:23-40 | the corrected start-up, with `csv` added to line 25's list: every destination the storage can choose is then a directory, unless a file is in the way |
| `FileUpload.FileSystem.RemoveFile` | server/util/fileUpload.ts:110-121 | true exactly when the path was a file, which is then removed; a directory or a missing path gives false and changes nothing, so a directory is never removed |
| `FileUpload.GetFileUrl` | server/util/fileUpload.ts:124-127 | no URL (the `TypeError`) exactly when the path holds no `uploads`; otherwise the base URL, `/uploads` and the text between the first and the second `uploads`, with `\` turned into `/` |
| `FileUpload.GetFileUrlCorrected` | server/util/fileUpload.ts:124-127 | the intended URL: no URL exactly when the path does not start with the uploads root followed by `/`, so that `/srv/uploads2/a.png` is not inside `/srv/uploads`; otherwise the base URL, `/uploads` and the path relative to the root |
| `FileUpload.StoredFileUrl` | server/util/fileUpload.ts:124-127 | for any uploads root, the corrected URL of a file stored as `sub/name` is `<protocol>://<host>/uploads/sub/name`, with `\` turned into `/` in `sub/name` |
| `FileUpload.StoredFileUrlAsWritten` | server/util/fileUpload.ts:124-127 | for an uploads root whose only `uploads` is its end, the URL as written of a file stored as `sub/name` is the corrected URL exactly when `sub/name` holds no `uploads` |
| `FileUpload.EarlierMarkerUrl` | server/util/fileUpload.ts:124-127 | for an uploads root that ends in `uploads`, as line 24's `path.join(__dirname, '../../uploads')` does, and holds an earlier `uploads`, the URL as written is the same for every stored file: the base URL, `/uploads` and the root's text between its first and next `uploads` |
| `FileUpload.GetFileUrlKeepsRestIff` | server/util/fileUpload.ts:126 | the URL as written holds the whole rest of the path after its first `uploads` exactly when that rest holds no second `uploads` |
| `FileUpload.GetFileUrlTruncatesExample` | server/util/fileUpload.ts:126 | for an uploads root whose only `uploads` is its end, and any name generated from `myuploads.png` and stored in `images`, the URL as written is `<protocol>://<host>/uploads/images/my`, and the corrected one holds the whole stored name |

## Left out

- multer itself is not modelled: streaming, the enforcement of `limits.fileSize`, and calling `destination`, `filename` and `fileFilter`. The model keeps only what these helpers hand to multer.
- multer's disk storage does not create a directory that a `destination` function returns. The model takes that as given; the csv finding below rests on it.
- The file system holds only the paths the code looks at. Parent directories, permissions and I/O errors other than unlinking a directory are not modelled. `mkdirSync` is assumed to succeed.
- `removeFile` is asynchronous; the model performs the unlink in one step.
- `console.error` in `removeFile` and in the global handler is left out, because it is output only.
- `asyncHandler` (errorHandler.ts:75-79) is not modelled, because it only forwards a rejected promise to `next`.
- FileUpload.StoredFileUrlAsWritten: assumes an uploads root whose only `uploads` is its end. The other roots that end in `uploads` are covered by `FileUpload.EarlierMarkerUrl`, and a root not ending in `uploads` cannot come from `path.join(__dirname, '../../uploads')`.
- FileUpload.GetFileUrlTruncatesExample: assumes the same kind of root as `FileUpload.StoredFileUrlAsWritten`. Under a root with an earlier `uploads` the URL is cut at the root instead, by `FileUpload.EarlierMarkerUrl`.
- FileUpload.GetFileUrlCorrected: a path that is not inside the uploads root directory has no URL. The code never passes one, because multer stores every file under a destination inside the root.
- JsText.ToLowerCase: lowers ASCII letters only. JavaScript lowers all of Unicode, and the model does not capture that. So a non-ASCII upper-case extension such as the one of `x.Ä` stays `.Ä` in the model and is cut from the base, which is `x`. In JavaScript the extension becomes `.ä`, no longer matches, and stays in the base, which is sanitised to `x--`.
- JsText.ReplaceNonAlphanumeric: replaces characters, where the regular expression without the `u` flag replaces UTF-16 code units. A character outside the Basic Multilingual Plane becomes `-` in the model and `--` in JavaScript.
- JsText.Substring: counts characters, where JavaScript counts UTF-16 code units. A character outside the Basic Multilingual Plane is one character in the model and two in JavaScript.
- NodePath: POSIX only. On Windows Node's `path` also treats `\` as a separator in `extname`, `basename` and `join`, which is what the replacement at fileUpload.ts:126 is there for; the model splits at `/` alone.
- NodePath.Join: concatenates with one `/`. The normalisation `path.join` also does (collapsing `//`, resolving `.` and `..`, as in line 58's `../../uploads/...`) is not modelled; the uploads root is given already resolved.
- NodePath.BaseName: strips trailing slashes before taking the last segment. An original name ending in `/` is not modelled exactly in Node's edge cases.
- FileUpload.FileFilter: the `Content-Length` header is an optional integer. Node's HTTP parser admits only a digit string there, so `parseInt` is not modelled; an empty or absent header is `None`.
- ErrorHandler.GlobalErrorHandler: an error from another library that carries its own `statusCode` or `errors` property must be given as an `ApiErr` to be treated as the code treats it. A `PlainError` always has status 500 and no validation errors.
- ErrorHandler.GlobalErrorHandler: the status code is assumed valid. Express's `res.status(code).json(...)` throws `ERR_HTTP_INVALID_STATUS_CODE` for a code outside 100-999, and then no envelope is sent. The model sends any integer. The only codes the modelled code raises are 400 and 404.
- ErrorHandler.GlobalErrorHandler: a missing stack is modelled as a string, so a stack of `undefined`, which JSON drops, is not distinguished.
- ErrorHandler.JsValue: numbers are integers; floating point and `NaN` are not modelled.
- The JSON serialisation of the envelope, the ISO date format and `req.get('host')` returning `undefined` are not modelled; they are strings given to the model.

## Findings

| source | as written | input that shows it | evidently intended | confidence | as-written member | corrected member |
|---|---|---|---|---|---|---|
| server/util/fileUpload.ts:25 | the provisioned subdirectories are `images`, `documents` and `temp`, but line 58 sends `text/csv` files to `uploads/csv` | an upload with MIME type `text/csv` on a fresh install: its destination directory was never created, and multer does not create it | provision `images`, `documents`, `csv` and `temp`, so that every destination exists (`FileUpload.EveryDestinationProvisioned`) | not executed | `FileUpload.CsvDestinationNotProvisioned` | `FileUpload.ProvisionAtStartupCorrected` |
| server/util/fileUpload.ts:126 | `split('uploads')[1]` keeps only the text up to a second `uploads` in the path, whether that second `uploads` is in the stored name or the first one is earlier in the uploads root | an original name `myuploads.png`, stored as `/srv/uploads/images/myuploads-1700000000000-0123456789abcdef.png`, gives `<base>/uploads/images/my`; under the root `/srv/uploads-api/uploads` every file gets `<base>/uploads-api/` (`FileUpload.EarlierMarkerUrl`) | the path relative to the uploads root, under `/uploads` (`FileUpload.StoredFileUrl`) | not executed | `FileUpload.GetFileUrlTruncatesExample` | `FileUpload.GetFileUrlCorrected` |
