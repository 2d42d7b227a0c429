# Document-analysis pipeline: paths, selection, naming and failure flow

This project models the deterministic core of the `analyse-intelligente-documents` Airflow DAG. The DAG makes one listing request for an S3 input prefix. Each PDF, DOCX or TXT object on that one page of the listing is processed, in listing order, until one raises. Processing an object runs OCR, which stores the recognised text as a `.txt` object. The text is then handed to a chat model. The model's reply is cut down to its fenced JSON block, parsed, and stored as a `.json` object.

What is modelled:

- **S3 path handling** (`TextExtractor`, `MetadataExtractor`, `Pipeline`):
  - `parse_s3_path`, which removes every `s3://`, splits on `/`, and rejoins everything after the bucket;
  - the `split("/", 1)` unpackings, including the one that raises when there is no `/`;
  - the paths the pipeline builds by concatenation.
- **File selection and artefact naming**:
  - the last key segment as the file name;
  - the case-insensitive extension allow-list;
  - `os.path.basename` and `os.path.splitext` exactly as Python defines them on POSIX (`PosixPath`), including that a name made only of leading dots has no extension;
  - the `.txt` and `.json` artefact names and keys.
- **Cutting the JSON block out of the reply**: this is `find` and slice arithmetic with Python's `-1` "not found" result and its negative slice bounds (`PyStrings`). Also the prompt, filled with `str.replace`.
- **The per-document flow**: `text_extractor`, `metadata_extractor` and `process_document` as functions of the service results. `list_and_process_documents` is a method with a loop that records every `process_document` call and how the walk ends. That method is proved equal to a recursive specification, and the selection, order and first-exception properties are proved about that specification.

The external services (the download, the OCR analysis, the text upload, the chat model, the JSON parser and the metadata upload) are fields of arrow type in `TextServices` and `MetadataServices`. Each call's result is a function of its arguments. `None` or `false` stands for an exception. The prompt file's contents are the field `promptTemplate` of type `Option<string>`, with `None` for a file that cannot be read. The listing is not a service field: its result is the `ListResponse` argument of `ListS3Files` and `RunPipeline`.

Three behaviours of the code are worth stating plainly:

- `list_s3_files` drops only keys that end in `/`. The extension test is done by the pipeline loop, not by this helper.
- The pipeline does not call `list_s3_files`. It calls the listing service itself, so a listing error propagates (`ListingRaised`). Folder markers are listed but never selected, because their file name is empty (`Pipeline.FolderMarkerNotSelected`).
- A reply without a `` ```json `` marker is not treated as absent. Its text from index 6 on is cut at its first `` ``` ``, or loses its last character when it has none (`MetadataExtractor.NoMarkerDropsSix`, `MetadataExtractor.NoFenceDropsLast`). So a reply longer than six characters with no `` ``` `` at all reaches the parser as `reply[6:-1]` (`MetadataExtractor.UnfencedReply`). Likewise, a block opened by `` ```json `` but never closed loses its last character (`MetadataExtractor.UnclosedMarker`).

## Model

All source paths are under `analyse-intelligente-documents/dags/`; they are written out in full below.

| member | source | states |
|---|---|---|
| Common.Filter | analyse-intelligente-documents/dags/text_extractor_general.py:64 | a comprehension with an `if` keeps exactly the elements that pass the test, and no more of them than there were |
| Common.FilterConcat | analyse-intelligente-documents/dags/text_extractor_general.py:64 | filtering a concatenation is the concatenation of the filtered parts, so listing order is kept |
| PyStrings.FindFrom | analyse-intelligente-documents/dags/metadata_extractor_general.py:43-44 | `find` from a start index gives -1 or an occurrence at or after the start, and no occurrence lies between the start and the result |
| PyStrings.Find | analyse-intelligente-documents/dags/metadata_extractor_general.py:43-44 | `find` is -1 exactly when the pattern is absent; otherwise it is the lowest index where the pattern occurs |
| PyStrings.SliceBound | analyse-intelligente-documents/dags/metadata_extractor_general.py:43-44 | a slice bound in range is kept; a negative one counts from the end; anything outside is clamped to `0..len` |
| PyStrings.SliceFrom | analyse-intelligente-documents/dags/metadata_extractor_general.py:43 | `s[i:]`, with the bound normalised as `SliceBound` states; together with `SliceTo` it rebuilds the string (`PyStrings.SliceToFrom`) |
| PyStrings.SliceTo | analyse-intelligente-documents/dags/metadata_extractor_general.py:44 | `s[:i]`, with the bound normalised as `SliceBound` states; together with `SliceFrom` it rebuilds the string (`PyStrings.SliceToFrom`) |
| PyStrings.SliceToFrom | analyse-intelligente-documents/dags/metadata_extractor_general.py:43-44 | `s[:i] + s[i:] == s` for every integer `i`, negative ones included |
| PyStrings.Replace | analyse-intelligente-documents/dags/metadata_extractor_general.py:36 | no contract of its own; left-to-right replacement without overlap is stated by `PyStrings.ReplaceAbsent`, `PyStrings.ReplaceAtFirst`, `PyStrings.ReplaceSkip` and `PyStrings.ReplaceJoin` |
| PyStrings.ReplaceAbsent | analyse-intelligente-documents/dags/metadata_extractor_general.py:34-36 | `replace` leaves a string without the pattern unchanged |
| PyStrings.ReplaceAtFirst | analyse-intelligente-documents/dags/text_extractor_general.py:13 | `replace` rewrites the first occurrence and goes on with the text after it |
| PyStrings.ReplaceSkip | analyse-intelligente-documents/dags/text_extractor_general.py:13 | a position where the pattern does not start is copied and the scan goes on one character later |
| PyStrings.ReplaceJoin | analyse-intelligente-documents/dags/metadata_extractor_general.py:34-36 | `replace` rewrites every occurrence of a self-non-overlapping pattern, not only the first |
| PyStrings.FirstOccurrence | analyse-intelligente-documents/dags/metadata_extractor_general.py:43-44 | in `a + pat + b`, with no `pat` in `a` and `pat` not overlapping itself, `find` reports the occurrence right after `a` |
| PyStrings.HeadUniqueUnbordered | analyse-intelligente-documents/dags/metadata_extractor_general.py:36 | a pattern whose first character does not recur (such as `{document}`) never overlaps itself |
| PyStrings.Join | analyse-intelligente-documents/dags/text_extractor_general.py:14 | no contract of its own; `PyStrings.JoinSnoc` states how a part is added and `PyStrings.JoinSplit` that it undoes `split` |
| PyStrings.JoinSnoc | analyse-intelligente-documents/dags/text_extractor_general.py:14 | joining one more part appends the separator and the part |
| PyStrings.Split | analyse-intelligente-documents/dags/text_extractor_general.py:13 | `split` yields at least one part and no part holds the separator |
| PyStrings.JoinSplit | analyse-intelligente-documents/dags/text_extractor_general.py:13-14 | round trip: joining the parts of a split with the separator gives the string back |
| PyStrings.SplitCount | analyse-intelligente-documents/dags/text_extractor_general.py:13-14 | a split has more than one part exactly when the separator occurs, and then it is the first part, the separator and the rejoined rest |
| PyStrings.SplitLast | analyse-intelligente-documents/dags/document_processing_pipeline_general.py:89 | the last part of a split is the text after the last separator |
| PyStrings.SplitPointUnique | analyse-intelligente-documents/dags/metadata_extractor_general.py:49 | a string has only one split of the form `x + sep + y` with no separator in `x` |
| PyStrings.SplitOnce | analyse-intelligente-documents/dags/metadata_extractor_general.py:49 | `split(sep, 1)` gives one part, the whole string, when `sep` is absent, and otherwise the text before the first `sep` and the text after it |
| PyStrings.SplitHeadIsSplitOnceHead | analyse-intelligente-documents/dags/document_processing_pipeline_general.py:56 | the first part of a full split equals the first part of `split(sep, 1)` |
| PyStrings.RFindChar | analyse-intelligente-documents/dags/text_extractor_general.py:47-48 | `rfind` of a character gives -1 or an index holding it, and no later index holds it |
| PyStrings.Lower | analyse-intelligente-documents/dags/document_processing_pipeline_general.py:91 | `lower` keeps the length, lower-cases each character, and leaves no upper-case ASCII letter |
| PyStrings.EndsWith | analyse-intelligente-documents/dags/text_extractor_general.py:64 | no contract of its own; `endswith` is the test that the last characters are the suffix, used by `TextExtractor.ListS3Files` and `Pipeline.FolderMarkerNotSelected` |
| PyStrings.EndsWithAny | analyse-intelligente-documents/dags/document_processing_pipeline_general.py:91 | no contract of its own; `endswith` with a tuple holds when one suffix matches, as `Pipeline.SelectedInAnyCase` and `Pipeline.PngNotSelected` use it |
| PosixPath.RFindCharAt | analyse-intelligente-documents/dags/text_extractor_general.py:47-48 | the last occurrence of a character is determined by where it stands and that none follows |
| PosixPath.Basename | analyse-intelligente-documents/dags/text_extractor_general.py:47 | `basename` is a suffix without `/`, and a `/` stands right before it unless it is the whole path |
| PosixPath.BasenameAfter | analyse-intelligente-documents/dags/text_extractor_general.py:47 | the basename is the text after the last `/` |
| PosixPath.BasenameOfChild | analyse-intelligente-documents/dags/text_extractor_general.py:47 | the basename of `dir/name` is `name` |
| PosixPath.BasenameOfName | analyse-intelligente-documents/dags/metadata_extractor_general.py:52 | a name without `/` is its own basename |
| PosixPath.SplitExt | analyse-intelligente-documents/dags/text_extractor_general.py:48 | `splitext` cuts the path into a root and an extension that together are the path |
| PosixPath.SplitExtShape | analyse-intelligente-documents/dags/text_extractor_general.py:48 | the extension is empty or one dot followed by text with no dot or `/`; when there is one, the root's last component is not all dots |
| PosixPath.ExtensionShape | analyse-intelligente-documents/dags/text_extractor_general.py:48 | a text that starts with a dot and has no later dot and no `/` is the extension shape `SplitExtShape` promises |
| PosixPath.RootNotAllDots | analyse-intelligente-documents/dags/text_extractor_general.py:48 | cutting at a dot of the last component that has a non-dot before it leaves a root whose last component is not all dots |
| PosixPath.RootBasename | analyse-intelligente-documents/dags/text_extractor_general.py:47-48 | the basename of the text in front of a dot of the last component is the text between the last `/` and that dot |
| PosixPath.Stem | analyse-intelligente-documents/dags/text_extractor_general.py:48 | the `splitext` root is a prefix of the path |
| PosixPath.SplitExtOfDottedName | analyse-intelligente-documents/dags/text_extractor_general.py:48 | with a non-dot character before its last dot, a name loses exactly its last extension |
| PosixPath.SplitExtOfLeadingDots | analyse-intelligente-documents/dags/text_extractor_general.py:48 | leading dots followed by dot-free text give no extension |
| PosixPath.ArtefactName | analyse-intelligente-documents/dags/text_extractor_general.py:47-48 | the artefact name has no `/` and ends in the new extension; in front of it stands the basename minus its `splitext` extension |
| TextExtractor.ParseS3Path | analyse-intelligente-documents/dags/text_extractor_general.py:12-14 | the bucket has no `/`; with a `/` in the stripped path, bucket + `/` + key is the stripped path; without one the bucket is the whole stripped path and the key is empty |
| TextExtractor.ParseS3PathSplitsOnce | analyse-intelligente-documents/dags/text_extractor_general.py:13-14 | splitting on every `/` and rejoining the tail is the same as `split("/", 1)` |
| TextExtractor.StripScheme | analyse-intelligente-documents/dags/text_extractor_general.py:13 | removing `s3://` from `s3://rest` gives `rest` when `rest` holds no `s3://` |
| TextExtractor.ParseS3PathOfClean | analyse-intelligente-documents/dags/text_extractor_general.py:12-14 | round trip: `s3://bucket/key` parses back to bucket and key |
| TextExtractor.ParseS3PathRemovesEveryScheme | analyse-intelligente-documents/dags/text_extractor_general.py:13 | every `s3://` is removed, not just the leading one: `s3://b/k1s3://k2` gives `(b, k1k2)` |
| TextExtractor.NoSchemeWithoutDoubleSlash | analyse-intelligente-documents/dags/text_extractor_general.py:13 | a string without `//` holds no `s3://` |
| TextExtractor.NoDoubleSlashConcat | analyse-intelligente-documents/dags/document_processing_pipeline_general.py:63 | a concatenation has no `//` when neither part has one and they do not meet in `/` + `/` |
| TextExtractor.TextFileName | analyse-intelligente-documents/dags/text_extractor_general.py:47-48 | the `.txt` name has no `/` and ends in `.txt`; in front of `.txt` stands the key's basename minus its extension |
| TextExtractor.TextFileNameOfDottedName | analyse-intelligente-documents/dags/text_extractor_general.py:48 | only the last extension is replaced |
| TextExtractor.TextFileNameOfLeadingDots | analyse-intelligente-documents/dags/text_extractor_general.py:48 | a dot-led name with no further dot keeps its whole name |
| TextExtractor.TextFileNameOfArchive | analyse-intelligente-documents/dags/text_extractor_general.py:48 | `dir/a.tar.gz` gives `a.tar.txt` |
| TextExtractor.TextFileNameOfHidden | analyse-intelligente-documents/dags/text_extractor_general.py:48 | `dir/.pdf` gives `.pdf.txt` |
| TextExtractor.TextOutputKey | analyse-intelligente-documents/dags/text_extractor_general.py:51 | the key is exactly `prefix + "/" + name`: it starts with `prefix/`, its basename is the `.txt` name, and nothing stands between them |
| TextExtractor.TextDestination | analyse-intelligente-documents/dags/text_extractor_general.py:18-54 | the text goes to the output path's bucket, under the key `outputPrefix + "/" + name`, where `name` is the `.txt` name of the input key |
| TextExtractor.ListS3Files | analyse-intelligente-documents/dags/text_extractor_general.py:59-67 | the listing keeps exactly the keys that do not end in `/`; a `ClientError` gives `[]`; any other exception propagates |
| TextExtractor.ListS3FilesKeepsOrder | analyse-intelligente-documents/dags/text_extractor_general.py:64 | the kept keys stay in listing order |
| TextExtractor.ListS3FilesSingle | analyse-intelligente-documents/dags/text_extractor_general.py:64 | one key is kept exactly when it does not end in `/` |
| TextExtractor.IsObjectKey | analyse-intelligente-documents/dags/text_extractor_general.py:64 | no contract of its own; the folder-marker test whose effect `TextExtractor.ListS3Files` and `TextExtractor.ListS3FilesSingle` state |
| TextExtractor.ExtractTextAt | analyse-intelligente-documents/dags/text_extractor_general.py:30-57 | `text_extractor` returns exactly when download, analysis and upload all succeed; the stored text is the returned content |
| TextExtractor.ExtractText | analyse-intelligente-documents/dags/text_extractor_general.py:16-57 | no contract of its own; it feeds `ExtractTextAt` the parsed input path and the destination, whose behaviour `TextExtractor.ExtractTextAt`, `TextExtractor.ParseS3Path` and `TextExtractor.TextDestination` state |
| MetadataExtractor.UserPrompt | analyse-intelligente-documents/dags/metadata_extractor_general.py:34-36 | no contract of its own; filling the template is stated by `MetadataExtractor.PromptWithoutPlaceholder` and `MetadataExtractor.PromptFillsEveryPlaceholder` |
| MetadataExtractor.PromptWithoutPlaceholder | analyse-intelligente-documents/dags/metadata_extractor_general.py:34-36 | a template without `{document}` is sent unchanged |
| MetadataExtractor.PromptFillsEveryPlaceholder | analyse-intelligente-documents/dags/metadata_extractor_general.py:34-36 | every `{document}` is replaced by the content |
| MetadataExtractor.AfterMarker | analyse-intelligente-documents/dags/metadata_extractor_general.py:43 | no contract of its own; with a marker it is the text after the first marker (`MetadataExtractor.AfterMarkerOf`), and without one it drops the first six characters (`MetadataExtractor.NoMarkerDropsSix`) |
| MetadataExtractor.BeforeFence | analyse-intelligente-documents/dags/metadata_extractor_general.py:44 | no contract of its own; its value with a fence is stated by `MetadataExtractor.FirstFence` and without one by `MetadataExtractor.NoFenceDropsLast` |
| MetadataExtractor.ExtractJsonBlock | analyse-intelligente-documents/dags/metadata_extractor_general.py:43-44 | the text handed to the parser is a contiguous piece of the reply, no longer than it |
| MetadataExtractor.MarkerUnbordered | analyse-intelligente-documents/dags/metadata_extractor_general.py:43 | the `` ```json `` marker never overlaps itself |
| MetadataExtractor.FirstFence | analyse-intelligente-documents/dags/metadata_extractor_general.py:44 | the first fence after a fence-free text that does not end in a backtick is the one right after it |
| MetadataExtractor.FirstFenceNotAfterBacktick | analyse-intelligente-documents/dags/metadata_extractor_general.py:44 | the first fence of a text never stands right after a backtick, so the text in front of it meets the condition of `FirstFence` |
| MetadataExtractor.ExtractFencedBlock | analyse-intelligente-documents/dags/metadata_extractor_general.py:43-44 | a reply `p + marker + body + fence + q` yields exactly `body` |
| MetadataExtractor.ExtractLosesTrailingBacktick | analyse-intelligente-documents/dags/metadata_extractor_general.py:44 | a body ending in one backtick loses it, because the closing fence is found one character early |
| MetadataExtractor.NoMarkerDropsSix | analyse-intelligente-documents/dags/metadata_extractor_general.py:43 | with no marker the first six characters are dropped, and the reply is not discarded |
| MetadataExtractor.AfterMarkerOf | analyse-intelligente-documents/dags/metadata_extractor_general.py:43 | with a marker the first slice is exactly the text after the first `` ```json `` |
| MetadataExtractor.UnclosedMarker | analyse-intelligente-documents/dags/metadata_extractor_general.py:43-44 | a block opened by the marker and never closed reaches the parser as `t[:-1]` |
| MetadataExtractor.NoFenceDropsLast | analyse-intelligente-documents/dags/metadata_extractor_general.py:44 | with no closing fence only the last character is dropped |
| MetadataExtractor.UnfencedReply | analyse-intelligente-documents/dags/metadata_extractor_general.py:43-44 | a reply with no fence at all reaches the parser as `reply[6:-1]` |
| MetadataExtractor.MetadataDestination | analyse-intelligente-documents/dags/metadata_extractor_general.py:49 | the unpacking fails exactly when the stripped path has no `/`; otherwise the bucket has no `/` and bucket + `/` + prefix is the stripped path |
| MetadataExtractor.MetadataDestinationIsParse | analyse-intelligente-documents/dags/metadata_extractor_general.py:49 | where the unpacking succeeds it agrees with `parse_s3_path` |
| MetadataExtractor.MetadataDestinationOfClean | analyse-intelligente-documents/dags/metadata_extractor_general.py:49 | round trip: `s3://bucket/prefix` gives back bucket and prefix |
| MetadataExtractor.MetadataFileName | analyse-intelligente-documents/dags/metadata_extractor_general.py:52 | the `.json` name has no `/` and ends in `.json`; in front of `.json` stands the basename minus its extension |
| MetadataExtractor.MetadataFileNameOfLeadingDots | analyse-intelligente-documents/dags/metadata_extractor_general.py:52 | a file name of leading dots followed by dot-free text keeps all of it before `.json` |
| MetadataExtractor.MetadataKey | analyse-intelligente-documents/dags/metadata_extractor_general.py:53 | the key is exactly `prefix + "/" + name`: it starts with `prefix/`, its basename is the `.json` name, and nothing stands between them |
| MetadataExtractor.ExtractMetadata | analyse-intelligente-documents/dags/metadata_extractor_general.py:23-66 | the result is a value exactly when the prompt, the model call, parsing, unpacking the destination and storing all succeed; any failure gives `None`; success gives the parsed value that was stored |
| Pipeline.SplitOnceHeadIsFirstSegment | analyse-intelligente-documents/dags/document_processing_pipeline_general.py:55 | `split("/", 1)[0]` is the text before the first `/`, or all of it |
| Pipeline.LoadSettings | analyse-intelligente-documents/dags/document_processing_pipeline_general.py:54-56 | the input path unpacks exactly when it has a `/` after stripping; the output bucket is the first segment of the metadata path, with or without a `/`; the team project is the first segment of the input prefix |
| Pipeline.LoadSettingsOfPaths | analyse-intelligente-documents/dags/document_processing_pipeline_general.py:54-56 | round trip: `s3://bucket/team/rest` and `s3://outputBucket/more` give back their parts |
| Pipeline.FileNameOf | analyse-intelligente-documents/dags/document_processing_pipeline_general.py:89 | the file name has no `/` |
| Pipeline.FileNameIsBasename | analyse-intelligente-documents/dags/document_processing_pipeline_general.py:89 | the last `/` segment is the `basename` the extractors use |
| Pipeline.IsSelected | analyse-intelligente-documents/dags/document_processing_pipeline_general.py:91 | no contract of its own; the extension test whose outcomes `Pipeline.SelectedInAnyCase`, `Pipeline.FolderMarkerNotSelected` and `Pipeline.PngNotSelected` state |
| Pipeline.LowerConcat | analyse-intelligente-documents/dags/document_processing_pipeline_general.py:91 | lower-casing distributes over concatenation |
| Pipeline.SelectedInAnyCase | analyse-intelligente-documents/dags/document_processing_pipeline_general.py:91 | a name whose extension lower-cases to `.pdf`, `.docx` or `.txt` is selected, whatever its case |
| Pipeline.FolderMarkerNotSelected | analyse-intelligente-documents/dags/document_processing_pipeline_general.py:89-91 | a key ending in `/` is never selected |
| Pipeline.PngNotSelected | analyse-intelligente-documents/dags/document_processing_pipeline_general.py:91 | an extension outside the list (`.png`) is skipped |
| Pipeline.InputPath | analyse-intelligente-documents/dags/document_processing_pipeline_general.py:92 | no contract of its own; the path `s3://bucket/key` whose parse `Pipeline.TextArtefactLocation` and `Pipeline.ArtefactNamesShareStem` state |
| Pipeline.OutputRoot | analyse-intelligente-documents/dags/document_processing_pipeline_general.py:93 | no contract of its own; the output root passed with each call, as `Pipeline.ProcessKeysFollowsSelection` states |
| Pipeline.OcrOutputPath | analyse-intelligente-documents/dags/document_processing_pipeline_general.py:63 | no contract of its own; where the text goes is stated by `Pipeline.OutputPathClean` and `Pipeline.TextArtefactLocation` |
| Pipeline.MetadataOutputPath | analyse-intelligente-documents/dags/document_processing_pipeline_general.py:72 | no contract of its own; where the metadata goes is stated by `Pipeline.MetadataArtefactLocation` |
| Pipeline.ProcessDocument | analyse-intelligente-documents/dags/document_processing_pipeline_general.py:58-80 | `process_document` raises exactly when text extraction raises, and then the metadata extractor is not reached; otherwise it ends normally with the metadata extractor's result, `None` included |
| Pipeline.DocumentStep | analyse-intelligente-documents/dags/document_processing_pipeline_general.py:95 | no contract of its own; `process_document` as the step of the loop, whose behaviour `Pipeline.ProcessDocument` states |
| Pipeline.SelectedKeys | analyse-intelligente-documents/dags/document_processing_pipeline_general.py:87-91 | no contract of its own; the selected keys in listing order (`Common.Filter`, `Common.FilterConcat`), which `Pipeline.ProcessKeysFollowsSelection` ties to the calls |
| Pipeline.Call | analyse-intelligente-documents/dags/document_processing_pipeline_general.py:89-95 | no contract of its own; the call for one key, with the arguments `Pipeline.ProcessKeysFollowsSelection` lists |
| Pipeline.ProcessKeys | analyse-intelligente-documents/dags/document_processing_pipeline_general.py:87-95 | no contract of its own; the walk whose steps `Pipeline.ProcessKeysStep` states and whose outcome `Pipeline.ProcessKeysFollowsSelection` and `Pipeline.ProcessKeysStopsAtFirstRaise` state |
| Pipeline.RunPipeline | analyse-intelligente-documents/dags/document_processing_pipeline_general.py:83-95 | no contract of its own; a listing error ends the run before any call, and otherwise it is `ProcessKeys` over the listing, which `Pipeline.ListAndProcessDocuments` implements |
| Pipeline.ProcessKeysStep | analyse-intelligente-documents/dags/document_processing_pipeline_general.py:87-95 | one key of the walk: skipped, aborting, or one call followed by the rest of the walk |
| Pipeline.ListAndProcessDocuments | analyse-intelligente-documents/dags/document_processing_pipeline_general.py:83-95 | the loop makes exactly the calls, and ends exactly as, the recursive walk over the listing describes; a listing error ends it before any call |
| Pipeline.ProcessKeysFollowsSelection | analyse-intelligente-documents/dags/document_processing_pipeline_general.py:87-95 | the calls go to the selected keys, once each and in listing order, with path `s3://bucket/key`, the output root and the last segment as arguments; a walk that ends normally reaches every selected key |
| Pipeline.ProcessKeysStopsAtFirstRaise | analyse-intelligente-documents/dags/document_processing_pipeline_general.py:66-68 | every call but the last ended normally; the walk is aborted exactly when the last call raised, and ends normally exactly when none raised |
| Pipeline.ArtefactNamesShareStem | analyse-intelligente-documents/dags/document_processing_pipeline_general.py:89-92 | the `.txt` and `.json` names of a selected document share their stem, when the key reaches the text extractor unchanged |
| Pipeline.MangledKeyTextName | analyse-intelligente-documents/dags/document_processing_pipeline_general.py:92 | the key `d/xs3://.pdf` in bucket `b` reaches the text extractor as `d/x.pdf` and is stored as `x.txt` |
| Pipeline.MangledKeyFileName | analyse-intelligente-documents/dags/document_processing_pipeline_general.py:89 | the file name of `d/xs3://.pdf` is `.pdf` |
| Pipeline.HiddenMetadataName | analyse-intelligente-documents/dags/metadata_extractor_general.py:52 | `.pdf` has no extension, so its metadata name is `.pdf.json` |
| Pipeline.MangledKeyMetadataName | analyse-intelligente-documents/dags/document_processing_pipeline_general.py:89-95 | the metadata of `d/xs3://.pdf` is stored as `.pdf.json` |
| Pipeline.ArtefactNamesMayDiffer | analyse-intelligente-documents/dags/document_processing_pipeline_general.py:89-95 | without the condition of `ArtefactNamesShareStem` the two artefacts of one key can get different stems |
| Pipeline.OutputPathClean | analyse-intelligente-documents/dags/document_processing_pipeline_general.py:63 | an output path `bucket/team<tail>` holds no second `s3://` |
| Pipeline.TextArtefactLocation | analyse-intelligente-documents/dags/document_processing_pipeline_general.py:63 | the recognised text goes to `outputBucket`, key `team/output/ocr-raw-text/<stem>.txt` |
| Pipeline.MetadataArtefactLocation | analyse-intelligente-documents/dags/document_processing_pipeline_general.py:72 | the metadata goes to `outputBucket`, key `team/output/metadata/<stem>.json` |

## Left out

- The listing is one `list_objects_v2` call with no continuation token, so it returns at most one page of keys (1000 by default). `Listed(keys)` is that page; objects on later pages are never seen, and pagination is not modelled.
- Network and storage calls (`list_objects_v2`, `download_fileobj`, `put_object`, the OCR poller, the chat completion): these are parameters. Each returns a result that depends only on its arguments. Stored objects are not kept as state, so a read-after-write is not modelled.
- The `tenacity` retry around the chat completion: its randomised exponential waits are library behaviour. The model makes one call whose result already accounts for any retries.
- `json.loads` and `json.dumps`, the YAML configuration reader, and reading the prompt file: the parser is an uninterpreted partial function, and the prompt file is an optional string. `yaml.safe_load` and the dictionary look-ups of the configuration are not part of this model. `LoadSettings` starts from the two configured path strings.
- `if metadata:` treats an empty parsed mapping as a failure, but this only changes which log line is written. All logging and `print` output is left out.
- The `except` block at document_processing_pipeline_general.py:78-80 is unreachable, because `metadata_extractor` catches every exception itself. The model has no path for it.
- Airflow DAG and operator wiring, `default_args`, and `config/__init__.py`, which holds constants only.
- PyStrings.Lower: `str.lower` is modelled as ASCII lower-casing, without Unicode case mapping.
- The `output_s3_path` argument of `process_document` is unused in the source. The model records it in each `DocCall` but does not use it.
- Pipeline.ArtefactNamesShareStem: requires that the input bucket has no `/` and that `bucket/key` contains no `s3://`. Without this, `parse_s3_path` removes an inner `s3://` from the key (`TextExtractor.ParseS3PathRemovesEveryScheme`), and the two names can differ (`Pipeline.ArtefactNamesMayDiffer`: `d/xs3://.pdf` gives `x.txt` and `.pdf.json`).
- Pipeline.TextArtefactLocation: requires a non-empty team project and no `/` in the buckets, the team project, or `s3://` in `bucket/key`. An output bucket ending in `s3:` followed by an empty team project would form a new `s3://` that `parse_s3_path` removes.
- Pipeline.MetadataArtefactLocation: requires a non-empty team project and no `/` in the output bucket or the team project, for the same reason.
- MetadataExtractor.ExtractFencedBlock: requires that the body does not end in a backtick. `MetadataExtractor.ExtractLosesTrailingBacktick` states what happens otherwise. Whatever stands in front of the first fence meets this condition (`MetadataExtractor.FirstFenceNotAfterBacktick`), so only a body that ends in a backtick is excluded, and that one the code cuts short.
- TextExtractor.ExtractText: connects the paths to `ExtractTextAt` and carries no contract of its own. Its behaviour is stated by `ExtractTextAt`, `ParseS3Path` and `TextDestination`.
