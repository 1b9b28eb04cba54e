# Prefix suggestions and image upload, modelled in Dafny

This project models two AWS Lambda handlers of an image-labelling service
and proves what they compute.

**The typeahead prefix-suggestion builder** (`lambda/update_prefix_suggestions.py`)
keeps, for every prefix of up to 15 characters of every label, the ten
labels with the highest counts. It rebuilds that index one starting letter
at a time and synchronises it with the `prefix_suggestions` table. The model
is imperative, as the source is:

- `top_k.dfy` (module `TopK`) holds the value-level bookkeeping of one entry:
  - `Accept` is one heap push, followed by popping a minimum when the entry
    exceeds ten labels;
  - `AcceptAll` is a run of pushes;
  - `SuggestionList` is the ranked list of names that is written out.
- `prefix_suggestions.dfy` (module `Entry`) holds the class
  `PrefixSuggestions`, with its fields `countedLabels` and `overallCount`,
  and the methods `Insert` and `DeepCopy`.
  - A ghost history `accepted` records every label accepted so far.
  - The class invariant says three things:
    - `overallCount` is the sum of the accepted counts;
    - at most ten labels are retained;
    - every accepted label is either still retained or beaten-or-tied by ten
      retained labels (`Covers`).
- `index.dfy` (module `Index`) is the value-level view of the 15
  dictionaries.
  - It states what a finished dictionary must be (`Complete`): one entry
    per prefix of that length of a valid record, covering every record under
    that prefix.
  - It proves that the filing loop and each injection step keep their loop
    invariants.
- `compute.dfy` (module `Compute`) has the methods that fill and fold the
  dictionaries of `PrefixSuggestions` objects. The injection methods
  reinsert labels into existing objects in place, or deep-copy an entry
  under a new key. Each method is proved against the value view through the
  predicates `Holds` and `HoldsAll`.
- `store.dfy` (module `Store`) covers the table and the per-letter loop:
  - the table is a class `Table`, whose `items` map goes from prefix to
    suggestion list;
  - `BatchUpdate` and `BatchDelete` are the batch update and delete;
  - `UpdateTable` is the per-letter table update;
  - `Handler` is the per-letter loop of the handler.
  - The outcomes of the AWS calls are inputs:
    - the set of prefixes whose write is rejected;
    - which letters' label scans return nothing or unreadable items;
    - which letters' existing-prefix scans raise;
    - whether the connection can be set up.

**The upload request parser** (`lambda/upload_image.py`) is modelled in
`upload.dfy` (module `Upload`) as pure functions over bytes:

- `ParseMultipart` finds the file part of a multipart/form-data body, as
  RFC 7578 describes it. It splits on `--` plus the boundary, as in
  section 5.1.1 of RFC 2046, without checking where the CRLFs go.
- `GetFileNameAndData` is the validation that produces an upload or an
  `HTTPClientError`. The error is the datatype `ClientError`. Every such
  error this path raises has status 400.
- `HandleUpload` is the request handler's reply to a POST: 200 with the
  stored object, 400 with a client error, or 500 when the event's headers
  field is JSON null and reading the content type raises.
- `ContentMapping` holds the four accepted extensions.

The byte-string operations `find`, `rfind`, `in` and `split` are defined
once, in the module, and are proved to mean what Python's do.

## Model

| member | source | states |
|---|---|---|
| TopK.Accept | lambda/update_prefix_suggestions.py:47-50 | below capacity the label is appended and nothing is removed; at capacity the size is unchanged |
| TopK.AcceptEvictsMinimum | lambda/update_prefix_suggestions.py:47-50 | below capacity the retained multiset gains exactly the new label; at capacity exactly one label is removed from the eleven candidates, and it is a minimum-count one |
| TopK.SumCountsAppend | lambda/update_prefix_suggestions.py:46 | the running total grows by exactly the accepted count |
| TopK.AcceptAllSize | lambda/update_prefix_suggestions.py:47-50 | after any run of inserts the entry holds min(previous size + inserted, 10) labels, so never more than 10 |
| TopK.AcceptCoversNew | lambda/update_prefix_suggestions.py:47-50 | a just-inserted label is retained or beaten-or-tied by ten retained labels |
| TopK.AcceptKeepsCover | lambda/update_prefix_suggestions.py:47-50 | an insert never loses a label's cover: a label once covered stays covered |
| TopK.AcceptAllFloor | lambda/update_prefix_suggestions.py:47-50 | after a run of inserts, at least min(k, 10) retained labels have count >= v, where k is the number of labels with count >= v that the entry held or was given |
| TopK.AcceptAllCoversEach | lambda/update_prefix_suggestions.py:47-50 | every label of an insert run ends up retained or beaten-or-tied by ten retained labels |
| TopK.InheritCover | lambda/update_prefix_suggestions.py:107-110 | reinserting an entry's retained labels into another entry passes on the cover of every label the first entry covered |
| TopK.AcceptAllFull | lambda/update_prefix_suggestions.py:107-110 | reinserting ten labels of count >= v leaves ten retained labels of count >= v |
| TopK.InsertDesc | lambda/update_prefix_suggestions.py:154-156 | inserting into a list in non-increasing count order keeps it ordered and adds exactly that label |
| TopK.SortDesc | lambda/update_prefix_suggestions.py:154-156 | the ranking is in non-increasing count order and is a permutation of the retained labels |
| TopK.SuggestionList | lambda/update_prefix_suggestions.py:152-157 | the written list has min(size, 10) names, the names of the first entries of a descending permutation of the retained labels |
| Entry.Validate | lambda/update_prefix_suggestions.py:41-44 | a label is accepted iff the name is a non-empty str and the count a non-negative int; the name is checked first, so a bad name gives the name error whatever the count |
| Entry.CoveredAndAbsentIsBeaten | lambda/update_prefix_suggestions.py:49-50 | a covered label that is not retained was beaten: the entry is full and every retained count is >= its count |
| Entry.AcceptTracks | lambda/update_prefix_suggestions.py:46-50 | an insert keeps the entry's invariant: size min(accepted, 10), retained labels drawn from the accepted ones, every accepted label covered |
| Entry.PrefixSuggestions.constructor | lambda/update_prefix_suggestions.py:36-38 | a new entry is empty, with overall count 0 |
| Entry.PrefixSuggestions.Insert | lambda/update_prefix_suggestions.py:40-50 | the result is Validate's verdict; on an error nothing changes; on success overallCount grows by count, the retained labels become Accept(old, label) and the invariant holds |
| Entry.PrefixSuggestions.DeepCopy | lambda/update_prefix_suggestions.py:52-58 | a fresh, independent object with the same overall count and the same (name, count) pairs |
| Index.PrefixesSplit | lambda/update_prefix_suggestions.py:128-140 | the prefixes of length n are the truncated names of length n plus the parents of the prefixes of length n+1 |
| Index.LongestPrefixes | lambda/update_prefix_suggestions.py:128 | every 15-character prefix is a truncated name, so the last dictionary needs no folding |
| Index.NothingFiled | lambda/update_prefix_suggestions.py:118 | fifteen empty dictionaries satisfy the filing invariant before any record |
| Index.FileRecordFiled | lambda/update_prefix_suggestions.py:120-134 | filing one record keeps the invariant: each dictionary is keyed by the truncated names of its length, and each entry covers its records |
| Index.FileAllFiled | lambda/update_prefix_suggestions.py:120-134 | after the first loop, slot i holds exactly the truncated names of length i+1 of the valid records; invalid records are skipped |
| Index.AcceptAllTracks | lambda/update_prefix_suggestions.py:107-110 | reinserting valid labels keeps an entry's invariant |
| Index.CopyStep | lambda/update_prefix_suggestions.py:101-105 | copying a child's entry to a missing parent key keeps the injection invariant |
| Index.MergeStep | lambda/update_prefix_suggestions.py:107-110 | reinserting a child's retained labels into an existing parent keeps the injection invariant |
| Index.InjectKeyStep | lambda/update_prefix_suggestions.py:99-110 | one iteration of the injection loop, copy or merge, keeps the invariant |
| Index.InjectSeqInjecting | lambda/update_prefix_suggestions.py:95-113 | injecting the children in any order keeps the invariant for the keys done |
| Index.InjectSeqComplete | lambda/update_prefix_suggestions.py:94-113 | once all children of length n+1 are injected, whatever the order, the dictionary of length n is complete: one entry per prefix, covering every record under it |
| Index.FoldStart | lambda/update_prefix_suggestions.py:136 | the fold starts with the last dictionary already complete |
| Index.ParentPresent | lambda/update_prefix_suggestions.py:136-140 | for every prefix of length n+1, its prefix of length n is a key of the shorter dictionary (closure under dropping the last character) |
| Compute.EntryFor | lambda/update_prefix_suggestions.py:131-132 | the entry for a prefix: the existing object, or a fresh empty one |
| Compute.InsertRecord | lambda/update_prefix_suggestions.py:134 | a valid record's label is inserted into the entry |
| Compute.FileInto | lambda/update_prefix_suggestions.py:131-134 | the dictionary now maps the prefix to an entry that has also accepted the label |
| Compute.PlaceOne | lambda/update_prefix_suggestions.py:121-134 | one iteration of the first loop: the objects match FileRecord of the value view |
| Compute.PlaceRecords | lambda/update_prefix_suggestions.py:118-134 | the first loop: fifteen fresh dictionaries of objects matching FileAll(records) |
| Compute.ReinsertOne | lambda/update_prefix_suggestions.py:108-110 | one reinsertion of a retained label into the parent object |
| Compute.ReinsertAll | lambda/update_prefix_suggestions.py:107-110 | the parent's retained labels become AcceptAll(old, child's labels) and its history grows by those labels |
| Compute.CopyInto | lambda/update_prefix_suggestions.py:101-105 | a fresh deep copy of the child's entry is filed under the parent key |
| Compute.MergeInto | lambda/update_prefix_suggestions.py:107-110 | the parent object's state becomes MergeState(parent, child's labels) |
| Compute.InjectChild | lambda/update_prefix_suggestions.py:99-110 | one child injected into the shorter dictionary, which matches InjectKey |
| Compute.InjectOne | lambda/update_prefix_suggestions.py:95-110 | one more child in the iteration order; the objects match InjectSeq |
| Compute.Enumerate | lambda/update_prefix_suggestions.py:95 | an iteration order of the keys: every key exactly once |
| Compute.InjectIntoShorter | lambda/update_prefix_suggestions.py:94-113 | the shorter dictionary ends as InjectSeq over an order that lists every key of the longer one, and the longer one is untouched |
| Compute.FoldedUpdate | lambda/update_prefix_suggestions.py:136-140 | replacing the next shorter dictionary by a complete one extends the folded range by one |
| Compute.FoldStep | lambda/update_prefix_suggestions.py:137-140 | one fold iteration extends the folded range by one |
| Compute.FoldOne | lambda/update_prefix_suggestions.py:137-140 | one fold iteration on the objects; the shorter dictionary becomes InjectSeq of the longer |
| Compute.ComputeSuggestions | lambda/update_prefix_suggestions.py:116-142 | fifteen dictionaries; slot i is complete for the prefixes of length i+1: exact keys, and every valid record under a key retained or beaten-or-tied by ten retained labels |
| Store.Table.PutItem | lambda/update_prefix_suggestions.py:159 | a write sets the prefix's suggestion list unless it is rejected, in which case nothing changes |
| Store.Table.DeleteItem | lambda/update_prefix_suggestions.py:179 | a delete removes the prefix unless it is rejected, in which case nothing changes |
| Store.Puts | lambda/update_prefix_suggestions.py:150-159 | the prefixes written are exactly the indexed ones that are not rejected |
| Store.TallyCard | lambda/update_prefix_suggestions.py:160-163 | the success counter counts the distinct non-rejected keys, the failure counter the rejected ones |
| Store.PutNext | lambda/update_prefix_suggestions.py:150-163 | one write and its counter update |
| Store.UpdateSlot | lambda/update_prefix_suggestions.py:150-163 | a dictionary's entries are written with their suggestion lists; updates + failures equals the number of entries |
| Store.BatchUpdate | lambda/update_prefix_suggestions.py:145-165 | the table gains Written(view); the counters are the numbers of accepted and rejected writes |
| Store.WrittenAt | lambda/update_prefix_suggestions.py:149-159 | a prefix is written iff it is indexed and not rejected, and then it carries its entry's suggestion list |
| Store.DoomedOneMore | lambda/update_prefix_suggestions.py:172-177 | an existing prefix joins the deleted ones exactly when it is obsolete |
| Store.DeleteObsolete | lambda/update_prefix_suggestions.py:178-183 | an obsolete prefix is deleted, or counted as failed when its delete is rejected |
| Store.DeleteNext | lambda/update_prefix_suggestions.py:172-183 | one existing prefix: skipped when its truncation is empty or indexed, otherwise deleted by its untruncated key or counted as failed |
| Store.BatchDelete | lambda/update_prefix_suggestions.py:168-184 | the table loses exactly the obsolete existing prefixes that are not rejected; deletes and failures count them |
| Store.ObsoleteIffNotIndexed | lambda/update_prefix_suggestions.py:173-177 | a prefix of 1 to 15 characters is obsolete iff it is not a key of the index |
| Store.SameObsolete | lambda/update_prefix_suggestions.py:177 | the obsolete prefixes depend only on the keys of the dictionaries |
| Store.UpdateTable | lambda/update_prefix_suggestions.py:187-231 | a failing scan raises and leaves the table unchanged; otherwise the table becomes SyncLetter and the four counters are the write and delete tallies |
| Store.SyncLetterAt | lambda/update_prefix_suggestions.py:187-231 | after a letter's update, an indexed prefix that is not rejected carries its suggestions; an obsolete existing prefix of the letter that is not rejected is gone; every other key is unchanged |
| Store.SyncIdempotent | lambda/update_prefix_suggestions.py:187-231 | updating the table for a letter twice with the same index gives the same table as once |
| Store.SyncLetterExact | lambda/update_prefix_suggestions.py:213-219 | with no rejected writes, a prefix of the letter of 1 to 15 characters is in the table iff it is indexed, with its suggestion list |
| Store.Records | lambda/update_prefix_suggestions.py:120-122 | the items convert iff every item has a name and a count, and then record by record |
| Store.FailedLettersExact | lambda/update_prefix_suggestions.py:256-278 | a letter is reported failed iff its labels were read and computing or updating raised; a letter whose scan gave nothing is skipped, not failed |
| Store.FailedLettersBefore | lambda/update_prefix_suggestions.py:256-277 | a letter is not reported before it is processed |
| Store.AfterLettersFrame | lambda/update_prefix_suggestions.py:256-278 | the table after the first n letters depends only on those letters' indexes |
| Store.AfterLettersStep | lambda/update_prefix_suggestions.py:256-278 | processing one more letter syncs the table for it exactly when it was read, parsed and its scan succeeded |
| Store.ProcessLetter | lambda/update_prefix_suggestions.py:257-278 | a letter fails iff its items do not convert or its scan raises; on success the table is synced with the index computed from its records, and a failed letter leaves it unchanged |
| Store.Handler | lambda/update_prefix_suggestions.py:247-297 | a failed connection gives status 500 and no change; otherwise status 200 with exactly the failed letters in order, and the table after all 26 letters are synced in turn |
| Upload.FindFrom | lambda/upload_image.py:146 | the first occurrence at or after i, or -1 when there is none |
| Upload.Find | lambda/upload_image.py:146 | bytes.find: the first occurrence, or -1 when there is none |
| Upload.RFindBelow | lambda/upload_image.py:147 | the last occurrence below n, or -1 |
| Upload.RFind | lambda/upload_image.py:147 | bytes.rfind: the last occurrence, or -1 when there is none |
| Upload.Contains | lambda/upload_image.py:136 | `in` on bytes: true iff the pattern occurs somewhere |
| Upload.Split | lambda/upload_image.py:133 | bytes.split: at least one piece, and two or more iff the separator occurs |
| Upload.SplitJoin | lambda/upload_image.py:133 | joining the pieces with the separator gives back the input |
| Upload.SplitPiecesFree | lambda/upload_image.py:133 | no piece contains the separator |
| Upload.SplitFirst | lambda/upload_image.py:142 | piece 0 is the text up to the first separator, or all of it |
| Upload.SplitSecond | lambda/upload_image.py:130 | piece 1 is the text after the first separator, up to the next one or the end |
| Upload.OccursInPiece | lambda/upload_image.py:139-141 | a pattern that shares no byte with the separator lies inside one piece |
| Upload.NoneBeforeFirst | lambda/upload_image.py:146 | the text before the first occurrence does not contain the pattern |
| Upload.FindAfter | lambda/upload_image.py:146 | the first blank line after a header block is found at the header block's end |
| Upload.RFindEnd | lambda/upload_image.py:147 | a trailing CRLF is the last CRLF |
| Upload.Boundary | lambda/upload_image.py:130 | no boundary iff `boundary=` is absent; otherwise the text after the first `boundary=`, up to the next one or the end |
| Upload.FirstFilePart | lambda/upload_image.py:135-136 | the index of the first part carrying both markers, or the number of parts when none does |
| Upload.FirstFilePartUnique | lambda/upload_image.py:135-136 | the first file part is unique |
| Upload.FirstFilePartAtIsFirst | lambda/upload_image.py:135-136 | any part that is the first file part is the one the search stops at; with no file part the search runs off the end |
| Upload.FirstNamedLine | lambda/upload_image.py:140-143 | the index of the first line containing `filename=`, or the number of lines |
| Upload.FirstNamedUnique | lambda/upload_image.py:140-143 | the first named line is unique |
| Upload.FirstNamedAtIsFirst | lambda/upload_image.py:140-143 | any line that is the first named line is the one the inner loop breaks at |
| Upload.NameOfSecondPiece | lambda/upload_image.py:142 | the second piece after `filename="`, cut at the first quote, is the name that starts there |
| Upload.UpToQuote | lambda/upload_image.py:142 | text up to the first quote within the piece after `filename="` is a name there |
| Upload.FilenameOf | lambda/upload_image.py:142 | no name iff the line lacks `filename="` (the IndexError); otherwise the bytes after the first `filename="`, up to a quote, the next `filename="` or the line's end |
| Upload.PartDataRoundTrip | lambda/upload_image.py:146-151 | headers, blank line, content and closing CRLF give back exactly the content, including empty content |
| Upload.DataAsWrittenRoundTrip | lambda/upload_image.py:146-151 | the data as written gives back the content when the content is non-empty |
| Upload.DataAsWrittenEmptyFile | lambda/upload_image.py:146-151 | the data as written of a part with empty content is CRLF, not empty |
| Upload.DataRulesDiffer | lambda/upload_image.py:146-151 | the data as written and the corrected data agree unless the last CRLF starts where the data start and is the part's last two bytes; there the corrected data are empty and the data as written are that CRLF |
| Upload.CutShortPartKept | lambda/upload_image.py:146-151 | a part cut short before its closing delimiter, whose data begin with a CRLF and go on without another CRLF, keeps all its data under both rules |
| Upload.KeyInSomeLine | lambda/upload_image.py:136-143 | a file part always has a line containing `filename=`, so its name is never left None |
| Upload.ParsePart | lambda/upload_image.py:136-153 | the data are the part's data; the result is no file iff the first named line has no `filename="` or the name is not UTF-8 (the caught exception); otherwise the name is that line's name |
| Upload.ParseMultipart | lambda/upload_image.py:126-159 | (None, None) when there is no boundary or no part carries both markers; otherwise the result of the first file part, with later parts ignored; a found file always has a name |
| Upload.Lower | lambda/upload_image.py:117 | same length; every byte lower-cased one by one |
| Upload.LowerIdempotent | lambda/upload_image.py:117 | a lower-cased name has no upper-case letters, and lower-casing it again changes nothing |
| Upload.NonDotBefore | lambda/upload_image.py:117 | true iff some byte in the range is not a dot |
| Upload.SplitExt | lambda/upload_image.py:117 | os.path.splitext: root + extension is the path; the extension is empty or a dot followed by neither a dot nor a slash; a leading-dots name has no extension, and a non-empty extension follows a non-dot byte of the last component |
| Upload.Extension | lambda/upload_image.py:117 | the extension is a suffix of the lower-cased name, empty or starting with a dot |
| Upload.EmptyNotMapped | lambda/upload_image.py:15-20 | the empty extension is not accepted |
| Upload.MappedTypes | lambda/upload_image.py:15-20 | every accepted extension maps to an image content type |
| Upload.ContentTypeOf | lambda/upload_image.py:96 | the content-type header, or empty when the headers or that header are missing; no content type (the raised error) exactly when the headers field is null |
| Upload.GetFileNameAndData | lambda/upload_image.py:95-123 | every error has status 400; "Content-Type must be multipart/form-data" iff the header lacks multipart/form-data; "No file provided" iff the parse found no file or empty data or name; "File type ext not allowed" carries an unmapped extension; an accepted upload has the parsed data and name and a mapped extension that the lower-cased name ends with |
| Upload.UploadObject | lambda/upload_image.py:47-57 | a client error passes through unchanged; an accepted upload is stored under uploads/ plus its name, with its data and an image content type, and the mapping lookup cannot fail |
| Upload.HandleUpload | lambda/upload_image.py:47-92 | an internal error (status 500) exactly when the headers field is null; otherwise stored (status 200) exactly when the upload path accepts, with that stored object, and a client error (status 400) is the upload path's error |

## Left out

- DynamoDB and S3 I/O are not modelled: the boto3 resource and table setup,
  the paginated scans, the batch writer and `put_object`. Their outcomes are
  inputs:
  - whether the connection can be set up;
  - whether a letter's label scan returns items or nothing;
  - whether the existing-prefix scan raises;
  - which prefixes' writes are rejected.
- The exception classes of `_query_labels_by_letter` are not modelled. A
  scan either returns items or returns nothing.
- Errors the batch writer raises when it flushes on exit are not modelled.
  Each item's write succeeds or fails on its own.
- The heap layout and the choice among equal-count labels are not modelled.
  - `Accept` evicts the first minimum of the eleven candidates, and
    `SortDesc` is an insertion sort.
  - No contract depends on either choice: they are stated as "a minimum",
    "beaten-or-tied" and "some descending permutation".
- Python dictionary iteration order is not modelled. The fold is proved
  correct for every iteration order (`Compute.Enumerate`), and the batch
  writes are stated as sets.
- The `if not prefix` guard of the fold is not modelled. It cannot fire,
  because every key of the dictionaries folded from has at least two
  characters. Neither is the fold's `except (ValueError, KeyError,
  AttributeError)`, which skips a prefix. It cannot fire either: the labels
  reinserted already passed `Entry.Validate`, and the parent key is either
  present or created by the copy (`Index.ParentPresent`).
- `overallCount` is kept and proved to be the sum of every accepted count,
  including the labels reinserted during the fold. Nothing reads it when
  the suggestions are written.
- Logging is not modelled. Neither are the JSON response bodies, the CORS
  headers or the OPTIONS branch of the upload handler.
- `Upload.UploadObject` does not model the S3 error paths (statuses 500).
- `Upload.UploadObject` stores nothing for a file part with empty content
  and answers "No file provided". The code as written stores the two bytes
  `\r\n` and answers 200 (see Findings). Such a part is one whose first
  blank line is followed only by a CRLF that ends the part.
- `Upload.ParsePart` gives empty data for a file part with empty content,
  where the code as written gives `\r\n`. The rules differ exactly when
  `RFind(part, CRLF) == Find(part, BlankLine) + 4` and that CRLF is the
  part's last two bytes (`Upload.DataRulesDiffer`). A part cut short
  before its closing delimiter whose data begin with a CRLF, such as
  `H\r\n\r\n\r\nx`, keeps `\r\nx` under both rules
  (`Upload.CutShortPartKept`).
- `Upload.ParseMultipart` inherits the empty-content difference of
  `Upload.ParsePart`. Every other input gets the data as written.
- `Upload.GetFileNameAndData` rejects a file part with empty content as
  "No file provided", where the code as written accepts `\r\n` as the
  file's data.
- `Upload.ContentTypeOf` takes every header value as bytes. A header value
  that is JSON null or not a string, which makes the `in` test raise and
  the handler answer 500, is not modelled.
- `Upload.HandleUpload` does not model the S3 upload failing, which is
  also a 500 reply (body decoding errors are outside the model, see below). For a file part with empty content it answers
  `ClientFailed(NoFileProvided)` with status 400, where the code as written
  stores `\r\n` and answers 200 (see Findings).
- Base64 and latin-1 body decoding are not modelled. The body is the decoded
  bytes.
- The content-type header is taken as its UTF-8 bytes, so `in` and `split`
  on it agree with the same tests on the text.
- File names stay bytes. `decode()` is modelled only as the strict UTF-8
  check of RFC 3629 (`Upload.ValidUtf8`).
- `Upload.Lower` is modelled on ASCII letters only. Lower-casing non-ASCII
  letters of a UTF-8 name is not modelled.
- `Upload.Extension`: its own contract states only the shape of the result.
  The full `os.path.splitext` rule is stated by `Upload.SplitExt`, which
  `Extension` applies to the lower-cased name.
- The other handlers of the service are not part of this model, nor are the
  scripts and the web front end.

## Findings

| source | as written | input that shows it | evidently intended | confidence | as-written member | corrected member |
|---|---|---|---|---|---|---|
| lambda/upload_image.py:146-151 | the data end must lie strictly after the data start; when they are equal, the data run to the end of the part | a file part with empty content, `headers\r\n\r\n\r\n` before the next delimiter: the start and end positions coincide, the data become `\r\n`, and a 2-byte file is uploaded instead of "No file provided" | when the data start at a CRLF that ends the part, the data are empty; every other part keeps the data as written | not executed | Upload.DataAsWrittenEmptyFile | Upload.PartDataRoundTrip |

`Upload.ParseMultipart` uses the corrected `Upload.PartData`. The code as
written is `Upload.DataAsWritten`.
