# File manager upload pipeline, modelled in Dafny

The file manager's web client lets a user drop or pick files in an upload
area, validates them against the area's limits, and sends the accepted files
to the server. Small files go in one request; files above 1 MiB go as a
sequence of 1 MiB chunks. The file list then shows each stored file's
extension, whether it is an image, and its size in human units.

This project models that pipeline and proves what it promises:

- `FileInfo` (`file_info.dfy`) models the per-file checks:
  - the size limit, with JavaScript truthiness, so a limit of `0` or `undefined` means no limit;
  - the case-insensitive extension suffix test, where an empty list rejects everything;
  - their conjunction and the aggregated error message;
  - the two limit descriptions ("Any file type." / `.jpg, .png`, and "No limit." / `1.00 MB`).
- `FileUpload` (`file_upload.dfy`) models the upload area's batch decision
  (`processFiles`) as a pure function. It returns what is passed to
  `onFileChange` and the text of the alert, if any.
- `FilesApi` (`files_api.dfy`) covers the requests to the server:
  - the whole-file upload;
  - the chunked upload, as a method whose loop sends the chunk requests in order and stops at the first response that is not ok;
  - the chunk plan, the progress percentages, and the size rule that picks whole or chunked transfer.
- `FileUtils` (`file_utils.dfy`) models the file-list helpers:
  `getFileExtension`, `isImageFile` and `formatFileSize`.
- `Text` (`text.dfy`) and `Decimal` (`decimal.dfy`) model the JavaScript
  library behaviour the above relies on:
  - ASCII `toLowerCase`/`toUpperCase`, `endsWith`, `split` on one character, `join`, `filter`, `map`;
  - `String(n)` for integers;
  - `Number.prototype.toFixed` on an exact quotient.
- `Units` (`units.dfy`) holds the 1 KiB, 1 MiB and 1 GiB constants. The size limit text, the chunk size, the whole-or-chunked threshold and the size display all use them.

The network is a parameter. `respond` gives the server's response to each
request, and the chunked upload returns the requests it sent and the values
it passed to `onProgress`.

## Model

| member | source | states |
|---|---|---|
| FileInfo.SizeCheckIff | src/client/components/FileUpload/utils/fileInfo.utils..ts:25-30 | a file fails the size check iff a non-zero limit is set and the size is strictly above it; a file of exactly the limit passes; `undefined` or `0` lets every size pass |
| FileInfo.SomeExtensionMatchesIff | src/client/components/FileUpload/utils/fileInfo.utils..ts:39 | the left-to-right `some` scan is true iff some listed extension matches |
| FileInfo.ExtensionCheckIff | src/client/components/FileUpload/utils/fileInfo.utils..ts:38-43 | no list: every name passes; with a list: a name passes iff its lower-cased form ends with `.` plus some lower-cased entry; an empty list rejects every file |
| FileInfo.ExtensionCheckIgnoresCase | src/client/components/FileUpload/utils/fileInfo.utils..ts:39 | upper-casing the name and every entry leaves the verdict unchanged |
| FileInfo.NameWithExtensionMatches | src/client/components/FileUpload/utils/fileInfo.utils..ts:39 | `base + "." + ext` matches `ext` for every base and extension |
| FileInfo.LastLetterMismatch | src/client/components/FileUpload/utils/fileInfo.utils..ts:39 | a name whose last letter differs, ignoring case, from the extension's last letter does not match |
| FileInfo.JpgExampleAccepted | src/client/components/FileUpload/tests/utils.test.ts:45-66 | `example.jpg` (7 bytes) passes `jpg, png`, and with `jpg` it passes limit 1000 but fails limit 1 |
| FileInfo.GifExampleRejected | src/client/components/FileUpload/tests/utils.test.ts:51-54 | `example.gif` fails `jpg, png` |
| FileInfo.CombinedCheckIff | src/client/components/FileUpload/utils/fileInfo.utils..ts:53-55 | a file passes the combined check iff its size is not above a limit in force (nonzero) and, when a list is given, some listed extension matches its name |
| FileInfo.GifExampleFailsCombinedCheck | src/client/components/FileUpload/utils/fileInfo.utils..ts:53-55 | example: `example.gif` (7 bytes) is within the limit 1000 but fails the list `jpg`, so it fails the combined check |
| FileInfo.ErrorLinesShape | src/client/components/FileUpload/utils/fileInfo.utils..ts:64-71 | one "too large" line per oversize file, then one "invalid" line per bad-extension file, each group in input order and exactly the failing files, one entry per failing position (equal files each get a line); a file failing both appears in both groups |
| FileInfo.ErrorMessageEmptyIff | src/client/components/FileUpload/utils/fileInfo.utils..ts:64-74 | the message is empty iff every file passes both checks |
| FileInfo.ErrorMessageLines | src/client/components/FileUpload/utils/fileInfo.utils..ts:64-74 | when no name contains a newline and some file fails, splitting the message at newlines gives back its lines; their number is the count of oversize positions plus the count of bad-extension positions |
| FileInfo.ErrorLinesTwoFiles | src/client/components/FileUpload/utils/fileInfo.utils..ts:68-71 | an oversize file then a bad-extension file give exactly `File <a> is too large.` then `File <b> is invalid.` |
| FileInfo.FormatFileExtensionsListing | src/client/components/FileUpload/utils/fileInfo.utils..ts:15-17 | no list gives `Any file type.`; an empty list gives the empty text; for any non-empty list the text is the pieces `.ext` (each after the first preceded by a space) joined by commas; when no entry contains a comma, splitting the text at commas gives back exactly those pieces in order |
| FileInfo.ListedJoin | src/client/components/FileUpload/utils/fileInfo.utils..ts:16 | for any non-empty list, `.ext` per entry joined by `, ` equals the space-led pieces joined by `,` |
| FileInfo.ExtensionListPieces | src/client/components/FileUpload/utils/fileInfo.utils..ts:16 | for a non-empty comma-free list, the comma-separated pieces of the description are exactly the listed entries, dot-prefixed, in order |
| FileInfo.FormatFileExtensionsExample | src/client/components/FileUpload/tests/utils.test.ts:25 | `jpg, png` is described as `.jpg, .png` |
| FileInfo.FormatMaxFileSizeCases | src/client/components/FileUpload/utils/fileInfo.utils..ts:6-8 | no limit (`undefined` or `0`) reads `No limit.`; a limit of `k` whole MiB reads `k.00 MB` |
| FileInfo.FormatMaxFileSizeExample | src/client/components/FileUpload/tests/utils.test.ts:15 | 1048576 reads `1.00 MB` |
| FileUpload.ProcessFiles | src/client/components/FileUpload/FileUpload.tsx:36-59 | without constraints the batch is forwarded unchanged and there is no alert; with constraints, a single-file area given several files only raises the fixed alert; otherwise `onFileChange` gets exactly the passing files, as a subsequence in input order with one entry per passing position (equal files are all kept), iff there is one; the alert is raised iff some file fails, and its text is the error message over the whole batch |
| FileUpload.FastPathBeforeSingleFileCheck | src/client/components/FileUpload/FileUpload.tsx:38-46 | with limit `undefined` or `0` and no list, a multi-file batch is forwarded whole even when the area takes one file |
| FileUpload.PartialAcceptance | src/client/components/FileUpload/FileUpload.tsx:50-56 | with one passing and one failing file, both effects happen: the passing file is forwarded, the failing one is not, and a non-empty alert is raised |
| FileUpload.EmptyBatchWithConstraints | src/client/components/FileUpload/FileUpload.tsx:48-56 | with constraints, an empty batch triggers neither effect |
| FileUpload.SingleFileAreaRefusesPairs | src/client/components/FileUpload/tests/FileUpload.test.tsx:39-54 | a single-file area with constraints refuses any two-file drop with the fixed alert and forwards nothing |
| FilesApi.HttpErrorStatus | src/client/pages/files/api/files.ts:46-48 | the status can be read back from the error text |
| FilesApi.UploadFile | src/client/pages/files/api/files.ts:8-22 | resolves iff the response is ok, with the server's message; otherwise rejects with `HTTP error! status: <status>` |
| FilesApi.TotalChunksIsCeiling | src/client/pages/files/api/files.ts:30-31 | the chunk count is the ceiling of size / 1 MiB: the chunks hold the file, one fewer would not, and it is 0 iff the file is empty |
| FilesApi.ChunkPlanTiles | src/client/pages/files/api/files.ts:33-39 | requests are numbered 0, 1, ... and carry the file name and the same count; their byte ranges start at 0, follow each other without gap or overlap and end at the size; all but the last are exactly 1 MiB and the last is non-empty |
| FilesApi.ByteInExactlyOneChunk | src/client/pages/files/api/files.ts:34 | a byte lies in chunk `i` iff `i == byte / chunkSize` |
| FilesApi.ChunksReassemble | src/client/pages/files/api/files.ts:34 | the chunks' slices of the content, laid end to end, give back the content |
| FilesApi.ProgressRisesToHundred | src/client/pages/files/api/files.ts:50-54 | the reported percentages rise strictly, stay in (0, 100], and the last is exactly 100 |
| FilesApi.AcceptedPrefix | src/client/pages/files/api/files.ts:41-48 | the number of leading requests the server accepts: all before it are ok, and the one at it is not |
| FilesApi.AcceptedPrefixIsFirstFailure | src/client/pages/files/api/files.ts:46-48 | any failing response is at or after the accepted prefix |
| FilesApi.UploadFileChunks | src/client/pages/files/api/files.ts:29-58 | with every response ok, all planned requests are sent in order and the call resolves with `File uploaded successfully`; otherwise it sends exactly up to the first failing request and rejects with that status; `onProgress` gets the percentages of the accepted chunks only, or nothing without a callback |
| FilesApi.ChunkedOutcome | src/client/pages/files/api/files.ts:41-57 | the accepted prefix covers the plan iff every response is ok |
| FilesApi.EmptyFileSendsNothing | src/client/pages/files/api/files.ts:31-33 | an empty file plans no request |
| FilesApi.ChooseTransfer | src/client/pages/files/hooks/fileUploadHook.ts:19 | chunked iff the size is above 1 MiB |
| FilesApi.TransferThresholdMatchesChunkSize | src/client/pages/files/hooks/fileUploadHook.ts:19 | a chunked upload always has at least two chunks; a non-empty file sent whole would be one chunk |
| FilesApi.UploadOne | src/client/pages/files/hooks/fileUploadHook.ts:18-20 | a file up to 1 MiB is uploaded whole; a larger one is chunked without a progress callback, succeeds iff every chunk is accepted, and sends a non-empty prefix of its plan |
| FileUtils.LastPieceIs | src/client/pages/files/utils/file.utils.ts:22 | `split('.').pop()` is the whole name without a dot, else the text after the last dot |
| FileUtils.GetFileExtensionAfterLastDot | src/client/pages/files/utils/file.utils.ts:6-13 | no dot gives the empty text; otherwise the upper-cased text after the last dot, except that a name whose only dot leads has none |
| FileUtils.GetFileExtensionEdges | src/client/pages/files/utils/file.utils.ts:6-13 | a name ending in a dot has no extension, and no extension contains a dot |
| FileUtils.GetFileExtensionOfName | src/client/pages/files/utils/file.utils.ts:6-13 | a non-empty base, a dot and a dot-free extension give that extension upper-cased |
| FileUtils.HiddenFileHasNoExtension | src/client/pages/files/utils/file.utils.ts:9-10 | a name whose only dot is its first character has no extension |
| FileUtils.GetFileExtensionUpperExample | src/client/pages/files/tests/files.test.ts:7-9 | `example.TXT` gives `TXT` |
| FileUtils.GetFileExtensionEmptyExamples | src/client/pages/files/tests/files.test.ts:11-18 | `example`, `.hiddenfile` and `normalfile.` give the empty text |
| FileUtils.IsImageFileIff | src/client/pages/files/utils/file.utils.ts:20-24 | an image iff the lower-cased text after the last dot (the whole name without a dot) is `jpg`, `jpeg`, `png` or `gif` |
| FileUtils.IsImageFileAgreesWithExtension | src/client/pages/files/utils/file.utils.ts:6-24 | for a name with a dot past its first character, being an image agrees with the lower-cased `getFileExtension` being an image extension |
| FileUtils.IsImageFileOfName | src/client/pages/files/utils/file.utils.ts:20-24 | `base.ext` is an image iff `ext`, lower-cased, is an image extension |
| FileUtils.IsImageFileJpgExample | src/client/pages/files/tests/files.test.ts:23 | `photo.jpg` is an image |
| FileUtils.IsImageFileTxtExample | src/client/pages/files/tests/files.test.ts:30 | `document.txt` is not an image |
| FileUtils.IsImageFileBareNameExample | src/client/pages/files/utils/file.utils.ts:22-23 | a bare name `png` counts as an image |
| FileUtils.UnitFor | src/client/pages/files/utils/file.utils.ts:32-39 | bytes below 1024, KB below 1048576, MB below 1073741824, GB otherwise; each boundary goes to the larger unit |
| FileUtils.FormatFileSizeBytesReadsBack | src/client/pages/files/utils/file.utils.ts:32-33 | below 1 KiB the text is the size's own digits, with no leading zero, and ` bytes` |
| FileUtils.FormatFileSizeScaledReadsBack | src/client/pages/files/utils/file.utils.ts:34-39 | from 1 KiB on the text is a number whose integer part has no leading zeros, with 1 (KB, MB) or 2 (GB) decimals and the unit; read back, it is the size in that unit rounded to that many decimals, to nearest |
| FileUtils.FormatFileSizeBytesExample | src/client/pages/files/tests/files.test.ts:38 | 512 gives `512 bytes` |
| FileUtils.FormatFileSizeKBExample | src/client/pages/files/tests/files.test.ts:42 | 2048 gives `2.0 KB` |
| FileUtils.FormatFileSizeMBExample | src/client/pages/files/tests/files.test.ts:46 | 1048576 gives `1.0 MB` |
| FileUtils.FormatFileSizeGBExample | src/client/pages/files/tests/files.test.ts:50 | 1073741824 gives `1.00 GB` |
| FileUtils.FormatFileSizeJustBelowMiB | src/client/pages/files/utils/file.utils.ts:34-35 | 1048575 bytes is still in the KB range but reads `1024.0 KB` |
| Text.SplitThenJoin | src/client/pages/files/utils/file.utils.ts:7 | joining the pieces of `split(c)` with `c` gives back the text |
| Text.JoinThenSplit | src/client/components/FileUpload/utils/fileInfo.utils..ts:73 | splitting a join of separator-free parts gives back the parts |
| Text.SplitAtLast | src/client/pages/files/utils/file.utils.ts:7 | the last piece of a split is the text after the separator's last occurrence |
| Text.SplitSingleIff | src/client/pages/files/utils/file.utils.ts:9 | a split has one piece iff the separator does not occur |
| Text.FilterKeepsExactly | src/client/components/FileUpload/FileUpload.tsx:48 | `filter` keeps a subsequence holding exactly the members that satisfy the test, as many elements as there are positions that satisfy it; these together fix the result |
| Text.FilterCount | src/client/components/FileUpload/FileUpload.tsx:48 | the length of a filter is the number of positions whose element satisfies the test |
| Text.LowerOfUpper | src/client/components/FileUpload/utils/fileInfo.utils..ts:39 | lower-casing after upper-casing equals lower-casing |
| Decimal.NatToStringRoundTrip | src/client/pages/files/utils/file.utils.ts:33 | the decimal text of an integer reads back as that integer and has no leading zero |
| Decimal.RoundHalfUpNearest | src/client/pages/files/utils/file.utils.ts:35 | the rounded quotient used by `toFixed` is the nearest integer, the larger one on a tie |
| Decimal.FixedPointParts | src/client/pages/files/utils/file.utils.ts:35 | the `toFixed` layout is an integer part without leading zeros, a point and exactly `f` digits that read back as the scaled value |
| Decimal.ToFixedWhole | src/client/components/FileUpload/utils/fileInfo.utils..ts:7 | a whole quotient `k` renders as `k.` followed by `f` zeros |

## Left out

- Case mapping is ASCII only. `toLowerCase`/`toUpperCase` on other letters, and strings as UTF-16 code units, are not modelled.
- `maxFileSize` is an integer. Fractional or `NaN` limits, and their `toFixed` digits, are not modelled. A negative limit is modelled: it rejects every file, since sizes are never negative.
- `fetch`, `FormData` and JSON decoding are replaced by the `respond` parameter. A rejected `fetch` (network error) and a body that is not JSON are not modelled.
- `fetchFiles` and `deleteFile` are not modelled. They are thin request wrappers with no logic beyond the ok check that `UploadFile` already shows.
- The upload hook's `Promise.all` fan-out, error logging and react-query cache invalidation are not modelled. They are concurrency and a foreign library. Only the routing rule is kept, as `ChooseTransfer` and `UploadOne`.
- FilesApi.UploadFileChunks: progress values are exact reals, not JavaScript doubles. The last value is exactly 100 in both.
- FilesApi.ChunkRequest: the index and count fields hold the numbers that `String(...)` writes into the form. `Decimal.NatToStringRoundTrip` shows that text reads back as the number.
- FileUtils.FormatFileSizeScaledReadsBack: sizes are exact integers and quotients are computed exactly. This matches the double arithmetic for sizes below 2^53, since each divisor is a power of two.
- FileInfo.FormatFileExtensionsListing: splitting the text at commas gives back the entries only when no entry contains a comma. An entry with a comma splits into several pieces; the general join form still holds for it.
- The upload area's rendering, hover state and drag and keyboard handlers, the other components and pages, and the build configuration are presentational and not modelled.
