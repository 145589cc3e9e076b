# Firmware artifact store

A Dafny model of the firmware store behind the OTA management backend
(`backend/routes/firmware.js`). Clients upload a `.bin` firmware image tagged with a
version label. The backend stores it in one flat upload directory, under a name made
from the label and the upload time. It lists the stored images with metadata read back
out of their names, and it deletes an image by name.

The model has two layers.

- **The naming codec, as functions and lemmas.**
  - Encoding: multer's `filename` callback. The label falls back to `v1.0.0`. Every
    character outside `[A-Za-z0-9.-]` becomes `_`. The name is
    `<sanitized>_<decimal timestamp>.bin`.
  - Decoding: `getFileInfo`. It removes the *first* `.bin`, splits on `_`, reads the
    last segment with a lenient `parseInt`, and re-joins the rest, or gives `unknown`.
  - The delete route's whitelist, `^[a-zA-Z0-9._-]+\.bin$`.
  - The JavaScript string operations these rely on: `replace` with a string pattern,
    `split`, `join`, `endsWith`, `toLowerCase`, `parseInt`, and POSIX `path.extname`.
- **The upload directory, as a class.** `Store.FirmwareStore` holds `dirExists` and
  `files`, a map from file name to contents.
  - `Upload` runs multer's admission checks: the field name, the extension filter, the
    directory write, the 50 MiB size limit and the one-file limit. It then writes the
    file under its encoded name, and reports `getFileInfo` of the stored entry.
  - `List` is the `readdir → filter(.bin) → map(getFileInfo) → filter(non-null) → sort`
    pipeline, taken over the names `readdir` returned.
  - `Delete` checks the whitelist, then existence, then removes the entry.

Modules:

- `Wrappers`: `Option` and `byte`.
- `Strings`: decimal text, `parseInt`, first-occurrence removal, `split`/`join`, lower case.
- `Paths`: `path.extname`.
- `Naming`: the codec and the whitelist.
- `Listing`: `getFileInfo` and the list pipeline.
- `Uploads`: multer's handling of a multipart request.
- `Store`: the directory and the three routes.

`Store.UploadListDelete` is a worked example with no counterpart in the source. It shows
how the contracts of `Upload`, `List` and `Delete` fit together for one upload.

Upload time is given to `Upload` as the parameter `now`, standing for `Date.now()`.
The directory listing is given to `List` as the parameter `entries`, standing for what
`fs.readdirSync` returned.

### Behaviour worth noting

- **Exact round trip with underscores.** The sanitized label is recovered exactly whenever
  it holds no `.bin`, underscores included, so a label made only of `[A-Za-z0-9._-]` and
  without `.bin` comes back unchanged (`Naming.DecodeEncodeExact`). Splitting on `_` and
  re-joining every segment but the last puts the underscores back. A sanitized label
  that holds a `.bin` loses it: `fw.bin2` comes back as `fw2`
  (`Naming.InnerBinIsRemoved`). The timestamp always comes back, because `parseInt`
  stops at the `.bin` that is left behind (`Naming.DecodeEncode`).
- **No decode failure.** Decoding never fails. A name whose timestamp segment does not
  start with a digit yields NaN, modelled as `None` (`Strings.ParseInt`).
- **Underscore in the kept set.** The sanitizer's character set is `[a-zA-Z0-9.-]`,
  without `_`. Because `_` is replaced by `_`, the effect is the same as keeping it.
- **Empty files are accepted.** The size check is an upper bound only, so a zero-byte
  `.bin` file is stored and listed.
- **No temporary file.** multer writes the file under its final name, with no temporary
  file and no rename. The model stores the contents in one step.
- **A failed upload can remove an earlier one.** Opening the final name truncates any
  file already stored under it. The file may be too large, or a second file may follow.
  multer then removes what it wrote, so a same-named earlier upload is gone too
  (`Uploads.AbortedAfterWriteIff`, `Store.FirmwareStore.Upload`).
- **Equal timestamps.** The sort compares upload times only. The model's insertion sort
  keeps entries with equal timestamps in `readdir` order.
- **The label is usually lost.** The label reaches the `filename` callback only if the
  `version` field precedes the file in the multipart body. multer fills `req.body` while
  the body streams in. The web client (`frontend/src/components/UploadZone.jsx:47-48`)
  appends the file first, so its uploads are named with the default `v1.0.0`
  (`Uploads.NoVersionBeforeFile`, `Uploads.FileBeforeVersionGetsDefault`).

## Model

| member | source | states |
|---|---|---|
| Strings.Decimal | backend/routes/firmware.js:20 | the timestamp's decimal text is a non-empty run of digits with no leading zero (except "0") |
| Strings.DecimalInjective | backend/routes/firmware.js:20 | two timestamps give the same decimal text exactly when they are equal |
| Strings.ParseInt | backend/routes/firmware.js:67 | lenient `parseInt` yields a number exactly when the text starts with a digit, NaN (None) otherwise |
| Strings.ParseDecimal | backend/routes/firmware.js:67 | `parseInt` of a timestamp's decimal text followed by a non-digit (such as ".bin") or by nothing returns that timestamp |
| Strings.RemoveFirst | backend/routes/firmware.js:58 | `replace('.bin', '')` either leaves the text unchanged or removes exactly one pattern's length |
| Strings.RemoveFirstAfter | backend/routes/firmware.js:58 | when no occurrence starts in the prefix `a`, the removal happens in what follows `a` |
| Strings.RemoveFirstWithin | backend/routes/firmware.js:58 | when `a` already contains the pattern, what follows `a` is untouched |
| Strings.RemoveFirstAbsent | backend/routes/firmware.js:58 | a text without the pattern is left unchanged |
| Strings.Split | backend/routes/firmware.js:58 | `split('_')` yields at least one segment and no segment contains the separator |
| Strings.JoinSplit | backend/routes/firmware.js:58-60 | joining the segments of a split with the same separator gives back the text |
| Strings.SplitAppend | backend/routes/firmware.js:58-60 | splitting `a + "_" + d`, with `d` separator-free, gives the segments of `a` followed by `d` |
| Strings.SplitWithoutSeparator | backend/routes/firmware.js:58-60 | a text without the separator splits into itself alone |
| Strings.ToLower | backend/routes/firmware.js:27 | `toLowerCase` keeps the length and lower-cases each ASCII letter in place |
| Paths.StripTrailingSlashes | backend/routes/firmware.js:27 | the path loses exactly its trailing slashes |
| Paths.LastSegmentIsSuffix | backend/routes/firmware.js:27 | the last component is a slash-free suffix of the path, preceded by '/' unless it is the whole path |
| Paths.LastDot | backend/routes/firmware.js:27 | finds the position of the last '.', or reports that there is none |
| Paths.ExtName | backend/routes/firmware.js:27 | `path.extname` yields either nothing or a '.' followed by dot-free text |
| Paths.BasenameWithoutSlash | backend/routes/firmware.js:27 | a filename without '/' is its own last component |
| Paths.BareBinHasNoExtension | backend/routes/firmware.js:27 | a file named just ".bin" has an empty extension, so the filter rejects it |
| Paths.ExtIsBinIff | backend/routes/firmware.js:27 | the extension lower-cases to ".bin" exactly when the last component is longer than four characters and ends in ".bin" in any letter case |
| Naming.Sanitize | backend/routes/firmware.js:19 | same length; characters of `[A-Za-z0-9.-]` are kept in place and every other character becomes '_' |
| Naming.SanitizedVersion | backend/routes/firmware.js:18-19 | the version segment has the length of the label or its default, is never empty, and is made of `[A-Za-z0-9._-]` only |
| Naming.SanitizeIdempotent | backend/routes/firmware.js:19 | sanitizing a sanitized label changes nothing |
| Naming.SanitizeFixedIff | backend/routes/firmware.js:19 | a label is stored unchanged exactly when all its characters are in `[A-Za-z0-9._-]` |
| Naming.DefaultLabelUsed | backend/routes/firmware.js:18-20 | a missing or empty label gives the name `v1.0.0_<timestamp>.bin` |
| Naming.EncodedSegments | backend/routes/firmware.js:20 | an encoded name without its suffix splits into the version's segments followed by the decimal timestamp |
| Naming.EncodeCollisionIff | backend/routes/firmware.js:17-21 | two uploads get the same name exactly when they share the millisecond and the sanitized version; different timestamps never collide |
| Naming.EncodedNameIsDeletable | backend/routes/firmware.js:15-22 | every generated name passes the delete route's whitelist |
| Naming.SafeFileNameIsPlainEntry | backend/routes/firmware.js:150-157 | a name passing the whitelist has no '/' and is neither "." nor "..", so it names an entry of the upload directory |
| Naming.OrUnknown | backend/routes/firmware.js:60 | `s \|\| 'unknown'` is never empty |
| Naming.Decode | backend/routes/firmware.js:58-60 | decoding always yields a non-empty version |
| Naming.DecodeStripped | backend/routes/firmware.js:58-60 | a name whose `.bin` removal leaves `x + "_" + d`, with `d` free of '_', decodes to `x` (or "unknown") and `parseInt(d)` |
| Naming.DecodeNameWithBin | backend/routes/firmware.js:58-60 | when the version holds a ".bin", decoding removes that one and still recovers the timestamp |
| Naming.DecodeNameWithoutBin | backend/routes/firmware.js:58-60 | when the version holds no ".bin", decoding removes the suffix and recovers version and timestamp |
| Naming.DecodeEncode | backend/routes/firmware.js:58-60 | decoding an encoded name always recovers the timestamp, and recovers the sanitized version with its first ".bin" removed |
| Naming.DecodeEncodeExact | backend/routes/firmware.js:58-60 | a sanitized version without ".bin" comes back exactly, underscores included, with the timestamp |
| Naming.DecodeWithoutSeparator | backend/routes/firmware.js:58-60 | a name with no '_' left after the removal decodes to "unknown", and all of it is read as the timestamp |
| Naming.InnerBinIsRemoved | backend/routes/firmware.js:58 | the label "fw.bin2" at time 7 decodes to "fw2" with timestamp 7: the inner ".bin" is removed instead of the suffix |
| Listing.StoredUploadInfo | backend/routes/firmware.js:51-65 | right after an upload, `getFileInfo` of its name reports that name, the decoded version, the stored size and the upload time |
| Listing.Collect | backend/routes/firmware.js:94-97 | every listed entry is a readdir name ending in ".bin", still present, and described by `getFileInfo` of that entry |
| Listing.CollectComplete | backend/routes/firmware.js:94-97 | every readdir name ending in ".bin" that is still present is listed |
| Listing.CollectDistinct | backend/routes/firmware.js:94-97 | distinct readdir names give distinct listed names |
| Listing.Insert | backend/routes/firmware.js:98 | inserting adds exactly that element: the multiset grows by it |
| Listing.SortNewestFirst | backend/routes/firmware.js:98 | the sort is a permutation of its input |
| Listing.InsertSorted | backend/routes/firmware.js:98 | inserting into a most-recent-first sequence keeps it most recent first |
| Listing.SortSorted | backend/routes/firmware.js:98 | the sort orders any input most recent first, with unparsable timestamps last |
| Listing.PermutationDistinct | backend/routes/firmware.js:98 | a reordering of distinct elements is distinct |
| Listing.DistinctInfos | backend/routes/firmware.js:96 | descriptions of present entries are distinct exactly when their names are |
| Listing.PipelineMembers | backend/routes/firmware.js:94-98 | a name is listed exactly when readdir returned it, it is still present and it ends in ".bin" |
| Listing.PipelineDescribed | backend/routes/firmware.js:94-98 | after the sort every entry is still `getFileInfo` of its stored file |
| Listing.PipelineDistinct | backend/routes/firmware.js:94-98 | the listing repeats no name when readdir repeats none |
| Listing.PipelineProperties | backend/routes/firmware.js:94-98 | exactly the present ".bin" names, each with its stored size and decoded name, without repetition, most recent first |
| Listing.ListingOfEveryName | backend/routes/firmware.js:94-98 | when readdir returns every stored name once, every stored ".bin" file is listed exactly once |
| Uploads.FileParts | backend/routes/firmware.js:117 | the file parts of a request are file parts, at most as many as the parts |
| Uploads.FilePartsMembers | backend/routes/firmware.js:117 | the file parts handled are exactly the file parts of the request |
| Uploads.FilePartsFirst | backend/routes/firmware.js:117 | the first file handled is the request's first file part |
| Uploads.FilePartsTwo | backend/routes/firmware.js:39-40 | two or more files are counted exactly when the request carries two file parts |
| Uploads.VersionBeforeFile | backend/routes/firmware.js:18 | a version used for the name is the value of a `version` field of the request |
| Uploads.VersionBeforeFileIsFirst | backend/routes/firmware.js:18 | the version that names the upload is the first `version` field, and no file part comes before it |
| Uploads.NoVersionBeforeFile | backend/routes/firmware.js:18 | when no version names the upload, a file part comes before every `version` field |
| Uploads.AcceptedIff | backend/routes/firmware.js:26-41 | an upload is written exactly when the directory exists and there is one file, in field `firmware`, with extension ".bin" in any case and at most 50 MiB |
| Uploads.AcceptedShape | backend/routes/firmware.js:34-41 | a written upload comes from the request's only file, into an existing directory |
| Uploads.AbortedAfterWriteIff | backend/routes/firmware.js:26-41 | the upload is aborted after its file was written exactly when the first file passes the field, extension and directory checks and is then too large or followed by a second file |
| Uploads.ExtensionFilter | backend/routes/firmware.js:26-32 | for a name without '/', the filter accepts exactly the names longer than ".bin" ending in ".bin" in any letter case |
| Uploads.FileBeforeVersionGetsDefault | backend/routes/firmware.js:18 | when the file precedes the version field, as the web client sends it, the name uses `v1.0.0` |
| Uploads.VersionBeforeFileNames | backend/routes/firmware.js:18 | a version field sent before the file names the upload |
| Uploads.TypicalRequestAccepted | backend/routes/firmware.js:26-41 | a version field followed by `fw.bin` of at most 50 MiB in field `firmware` passes every check when the directory exists |
| Store.FirmwareStore.CreateUploadsDir | backend/utils/setup.js:5-14 | the directory exists afterwards and its contents are unchanged |
| Store.FirmwareStore.Upload | backend/routes/firmware.js:117-127 | rejected exactly when a check fails, with that error; a rejection raised after the write removes the encoded name, and any other rejection changes nothing; otherwise the directory gains exactly the encoded name with the file's bytes, replacing a same-named file, and the reply is `getFileInfo` of that entry |
| Store.FirmwareStore.List | backend/routes/firmware.js:84-98 | empty when the directory is missing; otherwise exactly the present ".bin" names readdir returned, each described from its stored entry, without repetition, most recent first |
| Store.FirmwareStore.Delete | backend/routes/firmware.js:145-167 | a name failing the whitelist is refused and a valid absent name is not found, both with nothing changed; a valid name is not found when the directory is missing; otherwise exactly that entry is removed |

## Left out

- `formatFileSize` (`backend/routes/firmware.js:73-79`) uses floating point (`Math.log`, `toFixed`).
- The `uploadTime` text built with `toLocaleString('zh-CN')` is left out, because it depends on the locale and time zone. So is the sort's re-parse of that text with `new Date`. The model sorts on the parsed millisecond timestamp instead. The source compares whole seconds, so it may order two uploads within one second differently.
- Listing.SortSorted: for unparsable timestamps the source comparator yields NaN, and the engine may then place entries anywhere. The model puts them last.
- The JavaScript `Date` range bound on timestamps (±8.64e15 ms) is not modelled.
- Strings.ParseInt: leading white space, a sign, hexadecimal prefixes and the loss of precision above 2^53 are not modelled. Generated names contain none of these.
- Strings.ToLower: only ASCII letters are lowered. Non-ASCII case mappings are not modelled.
- Naming.Sanitize: strings are sequences of Unicode characters, not UTF-16 code units. In the source, a character outside the Basic Multilingual Plane becomes two '_'; in the model it becomes one.
- `getServerInfo` and `downloadUrl` (`backend/routes/firmware.js:44-48`, `68`) are left out: they are built from request headers.
- The health endpoint (`backend/routes/firmware.js:185-193`) is left out: it reports uptime and the wall-clock time.
- The Express and multer plumbing and the JSON reply shapes are left out. Errors become the `UploadError` and `DeleteOutcome` values.
- `backend/server.js` is not part of this model: security headers, CORS, rate limits, the error-to-status mapping, and the static download route through which stored files are fetched.
- The frontend (`frontend/src/...`) is not part of this model. Only the order in which it sends form fields is used, in `Uploads.FileBeforeVersionGetsDefault`.
- Concurrent requests are left out, including the same-millisecond overwrite race and files vanishing between `readdir` and `stat`. Operations are sequential. `List` takes the `readdir` result as a parameter, so a stale listing whose entries were deleted since is still covered.
- Store.FirmwareStore.Upload: the `null` that `getFileInfo` would return if the file vanished right after being written cannot arise in a sequential model.
- Store.FirmwareStore.Upload: when the directory is missing and the file is also too large, or a second file part follows, the model reports `IOFailure`. In the source, the failed open is reported asynchronously, so multer may report `LIMIT_FILE_SIZE` or `LIMIT_FILE_COUNT` first, depending on the timing of the stream.
- Store.FirmwareStore.Upload: write failures other than a missing directory are not modelled. These include an encoded name longer than the filesystem allows (a label of 250 characters gives a name of 268 bytes, over the usual 255), missing permissions and a full disk. In the source, such a failure reaches Express's error handler and nothing is stored; in the model the upload succeeds, so "rejected exactly when a check fails" holds only for the checks the model has.
- Store.FirmwareStore.List and Store.FirmwareStore.Delete: the `catch` branches that answer 500 (`backend/routes/firmware.js:106-113`, `174-181`) are not modelled. Those branches are taken when `readdirSync`, `statSync` or `unlinkSync` throws. The model's directory operations always succeed.
- Uploads.VersionBeforeFile: two or more `version` fields before the file, or a field named `version[]` or `version[<key>]`, are not modelled. The body parser turns them into an array or an object, so `version.replace` throws inside the `filename` callback (`backend/routes/firmware.js:18-19`), and the request fails with nothing stored. The model names the upload after the first `version` field and stores it, and treats the bracketed names as unrelated fields.
- Entries of the upload directory that are themselves directories named `*.bin` are not modelled: the directory holds plain files only.
- Naming.Encode states no contract of its own. Its properties are the lemmas `Naming.EncodedNameIsDeletable`, `Naming.EncodeCollisionIff`, `Naming.DefaultLabelUsed` and `Naming.DecodeEncode`.
- Uploads.Rejection states no contract of its own. Its meaning is `Uploads.AcceptedIff`.
- Uploads.AbortedAfterWrite states no contract of its own. Its meaning is `Uploads.AbortedAfterWriteIff`. multer's removal of an aborted file (`multer/lib/make-middleware.js`) is not part of this model; the predicate records its effect.
- Listing.FileInfoOf states no contract of its own. Its meaning is `Listing.StoredUploadInfo`, `Listing.Collect` and `Listing.PipelineDescribed`.
- Naming.IsSafeFileName states no contract of its own. Its meaning is `Naming.EncodedNameIsDeletable`, `Naming.SafeFileNameIsPlainEntry` and `Store.FirmwareStore.Delete`.
- Naming.Label states no contract of its own. Its meaning is `Naming.DefaultLabelUsed` and `Naming.SanitizedVersion`.
- Strings.Join states no contract of its own. Its meaning is `Strings.JoinSplit`.
- Paths.Basename states no contract of its own. Its meaning is `Paths.BasenameWithoutSlash`, `Paths.LastSegmentIsSuffix` and `Paths.ExtIsBinIff`.
- Strings.EndsWith states no contract of its own. It is JavaScript's `endsWith` (`backend/routes/firmware.js:95`), and it is used by the contracts of `Listing.Collect`, `Listing.PipelineMembers` and `Paths.LastSegmentIsSuffix`.
- Listing.NewerOrSame states no contract of its own. It is the sort comparator's order (`backend/routes/firmware.js:98`), and its meaning is `Listing.InsertSorted` and `Listing.SortSorted`.
