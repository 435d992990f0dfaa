# Document translation page: a Dafny model

This project models the core of a Streamlit page that translates one
uploaded office document or PDF with the Azure Document Translation
service, and of the secrets-based login with its permission table kept in
Azure Blob Storage.

Modelled:

- **`is_drm_protected`** (`file_guard.dfy`). The decision on the file's
  last extension, with the PDF library and the zip reader as oracles.
- **`generate_sas_url`** (`sas_url.dfy`). This covers several steps:
  - the removal of page references such as ` (p.3)` from the blob name;
  - the content type and disposition;
  - the two SAS requests with their permissions and validity window;
  - the blob and container URLs, with `urllib.parse.quote` modelled in
    `percent.dfy`;
  - the Office web viewer and `#page=` wrapping;
  - the `"#"` sentinel returned when signing fails.
- **The name of the translated file** (`naming.dfy`). This is
  `os.path.splitext`, the `LANG_SUFFIX_OVERRIDE` table and `upper()`.
  The same file holds the loop that picks the default (Korean) entry of the
  language box.
- **The start/retry block** (`processing.dfy`). It is a class
  `TranslationSession` over the blob container (a map from name to bytes)
  and `processing_state` (a map from file id to the recorded outcome). It
  covers:
  - clearing an earlier success;
  - uploading the source only once;
  - the source and target URLs;
  - the `IndexError` when the container SAS has no `?`;
  - scanning the per-document statuses;
  - listing, downloading and deleting the outputs;
  - recording success or failure, including an escaping exception.
- **`PermissionManager`** (`permissions.dfy`). The class keeps the stored
  permission table as a field.
- **`AuthManager`** (`auth.dfy`). This covers `login`, `get_user_by_email`,
  `get_all_users`, `update_user_permissions` and the rule that a non-empty
  stored permission list overrides the one in the secrets.

Supporting modules:

- `text.dfy` holds the Python string operations the code relies on:
  `strip`, `lower`, `upper`, `split`, `in`, `str(int)`, and code-point
  order.
- `wrappers.dfy` holds `Option` and `Result`.

Python exceptions that the source catches become `Option`/`Result` values
or explicit error entries. Uncaught exceptions, such as `KeyError` on a
record without `name`, are `Failure` values that carry the missing key.

## Model

| member | source | states |
|---|---|---|
| Text.LowerSpec | app.py:155 | `lower()` keeps the length and maps every character on its own |
| Text.UpperSpec | app.py:473 | `upper()` keeps the length and maps every character on its own |
| Text.StripLeftSpec | utils/auth_manager.py:40 | `lstrip()` returns the longest suffix that does not start with white space; everything cut is white space |
| Text.StripRightSpec | utils/auth_manager.py:40 | `rstrip()` returns the longest prefix that does not end with white space; everything cut is white space |
| Text.StripSpec | app.py:148 | `strip()` returns a slice of its input with no white space at either end, and only white space is cut around it |
| Text.StripTrimmed | utils/auth_manager.py:43 | a string with no white space at its ends is left unchanged by `strip()` |
| Text.StripIdempotent | utils/auth_manager.py:43 | stripping twice is stripping once |
| Text.LowerKeepsSpace | utils/auth_manager.py:43 | lower-casing keeps the length and turns no character into or out of white space |
| Text.LowerTrimmed | utils/auth_manager.py:43 | lower-casing a stripped string leaves it stripped |
| Text.LowerIdempotent | utils/auth_manager.py:43 | lower-casing twice is lower-casing once |
| Text.Contains | app.py:330 | `needle in s` holds exactly when the needle occurs at some index of `s` |
| Text.Split | app.py:214 | `split(sep)` gives at least one piece and no piece contains the separator |
| Text.JoinSplit | app.py:214 | joining the pieces of `split` with the separator gives back the input |
| Text.SplitJoin | app.py:415 | splitting a join of separator-free pieces gives back the pieces |
| Text.SplitFree | app.py:415 | a string without the separator splits into itself alone |
| Text.SplitPrefix | app.py:415 | a separator-free head joins the first piece of the rest |
| Text.NatToStringDigits | app.py:188 | `str(n)` is a non-empty run of digits without a leading zero |
| Text.NatToStringValue | app.py:188 | reading back the digits of `str(n)` gives `n` |
| Text.IntToStringSign | app.py:188 | `str(i)` is non-empty and starts with `-` exactly when `i` is negative |
| Text.LexLeTotal | app.py:458 | the code-point order of blob names is total |
| Text.LexLeAntisymmetric | app.py:458 | the code-point order of blob names is antisymmetric |
| Text.LexLeTransitive | app.py:458 | the code-point order of blob names is transitive |
| Percent.Utf8Char | app.py:175 | a character encodes to 1 to 4 bytes, and to one byte equal to itself exactly when it is ASCII |
| Percent.Utf8Append | app.py:175 | UTF-8 encoding distributes over concatenation |
| Percent.HexDigit | app.py:175 | every hexadecimal digit `quote` writes is an unreserved character |
| Percent.EscapeByte | app.py:175 | a byte escapes to three characters starting with `%` |
| Percent.Quote | app.py:175 | every character `quote` emits is unreserved, a kept member of `safe`, or the `%` of an escape |
| Percent.EscapeChars | app.py:182 | escaped bytes consist only of `%` and unreserved characters |
| Percent.HexValue | app.py:175 | a hexadecimal byte denotes a digit below 16 |
| Percent.HexDigitRoundTrip | app.py:175 | the digit `quote` writes encodes to one byte, which decodes back to the same digit value |
| Percent.EscapeByteBytes | app.py:175 | the escape of a byte is the bytes `%`, high digit, low digit |
| Percent.EscapeByteDecodes | app.py:175 | decoding an escaped byte followed by any tail gives the byte, then the decoded tail |
| Percent.DecodeEscape | app.py:182 | decoding the escapes of a byte string gives the bytes back, whatever follows |
| Percent.UnquoteQuote | app.py:175 | with `%` not in `safe`, unquoting `quote(s, safe)` gives the UTF-8 bytes of `s` |
| FileGuard.SplitLastPiece | app.py:214 | the last piece of `split('.')` is the text after the last dot, or the whole name without a dot |
| FileGuard.FileType | app.py:214 | the file type has no dot and is no longer than the name; its meaning is stated by `FileTypeSpec` |
| FileGuard.FileTypeSpec | app.py:214 | the file type is the lower-cased text after the last dot |
| FileGuard.IsDrmProtected | app.py:208-250 | no readable name gives False; a PDF is protected exactly when opening fails or it is encrypted; docx, pptx and xlsx are protected exactly when not a zip or missing `[Content_Types].xml`; any other type is not protected |
| FileGuard.OtherTypesNeverInspected | app.py:247 | for other extensions the verdict is False, whatever the bytes or libraries say |
| FileGuard.LastExtensionUnique | app.py:214 | the text after the last dot is determined by the name |
| FileGuard.FileTypeAfterLastDot | app.py:214 | the type of `stem.ext` with a dot-free `ext` is `ext` lower-cased, whatever the stem |
| FileGuard.FileTypeIgnoresCase | app.py:214 | `Report.PDF` is a pdf |
| FileGuard.FileTypeUsesLastDot | app.py:214 | `minutes.pdf.docx` is a docx |
| SasUrl.SkipSpacesSpec | app.py:148 | `\s*` consumes exactly the maximal run of white space |
| SasUrl.SkipDigitsSpec | app.py:148 | the digit scan consumes exactly the maximal run of digits |
| SasUrl.PageRefAt | app.py:148 | a match of the page-reference pattern ends after where it starts; what it matches is stated by `PageRefAtSpec` |
| SasUrl.PageRefAtMatches | app.py:148 | where the scan finds an end, the text splits along `\s*\(\s*p\.?\s*\d+\s*\)` up to that end |
| SasUrl.MatchIsPageRef | app.py:148 | every split of the text along the pattern ends where the scan ends |
| SasUrl.PageRefAtSpec | app.py:148 | the scan finds an end exactly when the pattern matches up to that end |
| SasUrl.PageRefMatchUnique | app.py:148 | a match starting at a given index can end in one place only, so the greedy scan loses no match |
| SasUrl.DotTaken | app.py:148 | the optional dot after `p` is always taken when present, because what follows it cannot start with a dot |
| SasUrl.CleanBlobName | app.py:148 | the cleaned name has no white space at either end |
| SasUrl.CleanDropsPageRef | app.py:148 | a stripped base without `(` followed by any one page reference (any spacing, with or without the dot) cleans to the base |
| SasUrl.RemoveNothing | app.py:148 | with no match left, `re.sub` copies the rest |
| SasUrl.CleanKeepsPlainName | app.py:148 | a stripped name with no page reference is not changed by the cleaning |
| SasUrl.NoParenNoPageRef | app.py:148 | no match of the pattern starts in a name without `(` |
| SasUrl.CleanDropsPageSuffix | app.py:148 | `base + " (p.N)"` cleans to `base` for a stripped base without `(` |
| SasUrl.RemoveUpToLastMatch | app.py:148 | a single match running to the end leaves only what precedes it |
| SasUrl.NoPageRefInBase | app.py:148 | no match starts inside a base without `(` |
| SasUrl.PageRefAtSuffix | app.py:148 | the pattern matches ` (p.N)` from its leading space to its end |
| SasUrl.DigitsRun | app.py:148 | `\d+` consumes exactly the maximal digit run |
| SasUrl.RemoveTail | app.py:148 | a match running to the end removes everything from its start |
| SasUrl.CopyPrefix | app.py:148 | the text before the next match is copied unchanged |
| SasUrl.CleanExample | app.py:146-148 | `report.pdf (p.3)` cleans to `report.pdf` |
| SasUrl.ContentSettings | app.py:150-162 | PDFs are always `application/pdf`, inline; otherwise the guessed type or `application/octet-stream`, and the given disposition or `inline` |
| SasUrl.SignedBlobUrl | app.py:164-175 | a signed blob URL is non-empty and starts with the `h` of `https`, so it can never be the sentinel |
| SasUrl.SignedContainerUrl | app.py:194-202 | a signed container URL is non-empty and starts with the `h` of `https`, so it can never be the sentinel |
| SasUrl.ViewerUrl | app.py:177-191 | with `no_viewer` the signed URL itself; otherwise the result starts with the signed URL or with the Office viewer address |
| SasUrl.ViewerUrlNotSentinel | app.py:177-191 | the viewer wrapping never produces the sentinel `#` |
| SasUrl.GenerateSasUrl | app.py:128-206 | the result is the sentinel `#` exactly when the blob signer (for a non-empty name) or the container signer (otherwise) fails |
| SasUrl.SignatureScopes | app.py:142-143 | the blob SAS is read-only for the cleaned name; the container SAS is read, write, list and delete; both start 15 minutes early and last `expiry_hours` past now |
| SasUrl.PdfAlwaysInline | app.py:155-157 | a PDF is signed as `application/pdf` inline, whatever disposition was asked |
| SasUrl.SignedBlobUrlShape | app.py:175 | a signed blob URL is the account host, container, quoted clean name and the token |
| SasUrl.BlobSasUsesCleanName | app.py:145-191 | for a non-empty blob name the result is the viewer wrapping of the signed URL of the cleaned name |
| SasUrl.NoViewerGivesSignedUrl | app.py:177-178 | with `no_viewer` a blob request returns the signed URL unchanged |
| SasUrl.PdfNotOffice | app.py:181-184 | a name ending in `.pdf` never takes the Office viewer branch |
| SasUrl.PdfViewerUrl | app.py:184-189 | outside the viewer a PDF gets `#page=` and the page exactly when the page is truthy |
| SasUrl.PageNumberReadsBack | app.py:188 | the number written after `#page=` reads back as the page |
| SasUrl.PdfPageFragment | app.py:184-189 | for a PDF blob the result is the signed URL plus `#page=` and the page exactly when the page is not `None` or 0, and that number reads back as the page |
| SasUrl.OtherNamesPlainUrl | app.py:190-191 | a blob that is neither an Office document nor a PDF gets the signed URL itself |
| SasUrl.ContainerUrlShape | app.py:192-202 | a container SAS URL is the account host, container and token |
| SasUrl.ViewerSourceDecodes | app.py:180-183 | for Office names the viewer URL's `src` parameter decodes back to the signed URL |
| SasUrl.BlobPathDecodes | app.py:175 | the quoted blob path decodes back to the clean name |
| Naming.RFind | app.py:472 | the last occurrence of a character, or -1 |
| Naming.RFindIs | app.py:472 | any index satisfying the last-occurrence property is the result of the search |
| Naming.SplitExt | app.py:472 | `splitext` splits the path into two parts that concatenate back to it; the extension is empty or a dot with no further dot or slash |
| Naming.SplitExtFindsExtension | app.py:472 | `stem.ext` with a dot- and slash-free `ext` splits into `stem` and `.ext` whenever the stem's last component has a character other than a dot |
| Naming.SplitExtNoDot | app.py:472 | a path whose last component has no dot has an empty extension |
| Naming.LangSuffix | app.py:310-313 | override codes map to their suffixes (`zh-Hans` to `CN`, `zh-Hant` to `TW`); other codes are upper-cased character by character |
| Naming.SuffixPlain | app.py:473 | a suffix from a code without dots or slashes has none either |
| Naming.FinalFilename | app.py:472-474 | the final name is the original's length plus `_` and the suffix, starts with the original stem and ends with the original extension |
| Naming.FinalFilenameKeepsExtension | app.py:472-474 | the final file name keeps the original extension and its stem is the original stem, `_` and the suffix |
| Naming.AppendWithoutExtension | app.py:472 | appending dot- and slash-free text to a name without extension gives no extension |
| Naming.InsertBeforeExtension | app.py:472 | inserting dot- and slash-free text before the extension keeps the extension |
| Naming.InsertedSearch | app.py:472 | after the insertion the last dot is the extension's and the last slash is unchanged |
| Naming.RFindNone | app.py:472 | the search finds nothing in a string without the character |
| Naming.RFindConcat | app.py:472 | the last occurrence in a concatenation is in the second part when there is one, else in the first |
| Naming.FinalFilenameFrench | app.py:472-474 | `report.pdf` in French becomes `report_FR.pdf` |
| Naming.FinalFilenameSimplifiedChinese | app.py:472-474 | `report.pdf` in Simplified Chinese becomes `report_CN.pdf` |
| Naming.FinalFilenameLeadingDot | app.py:472-474 | `.env` has no extension and becomes `.env_FR` |
| Naming.DefaultLanguageIndex | app.py:326-332 | the index of the first label naming Korean in English or Korean, or 0 when there is none |
| Naming.FallbackPreselectsKorean | app.py:294-306 | the first entry of the fallback language table is the Korean one, code `ko` |
| Permissions.Loaded | utils/permission_manager.py:26-37 | loading gives the stored table; a missing or unreadable blob gives the empty table |
| Permissions.PermissionsOf | utils/permission_manager.py:50-53 | a user's permissions are the stored list, or empty when the e-mail has no entry |
| Permissions.GetAfterSet | utils/permission_manager.py:55-59 | after setting an entry, getting it returns the list just set |
| Permissions.SetKeepsOthers | utils/permission_manager.py:55-59 | setting one user's entry leaves every other user's permissions unchanged |
| Permissions.UnreadableTableReplaced | utils/permission_manager.py:55-59 | setting over a missing or unreadable table saves a table with that entry alone |
| Permissions.SetIdempotent | utils/permission_manager.py:55-59 | setting the same entry twice is setting it once |
| Permissions.PermissionManager.constructor | utils/permission_manager.py:11-15 | the manager starts over the given storage contents |
| Permissions.PermissionManager.LoadPermissions | utils/permission_manager.py:26-37 | the stored table when readable, otherwise empty |
| Permissions.PermissionManager.SavePermissions | utils/permission_manager.py:39-48 | returns storage's answer to this upload; when accepted, storage holds the data, otherwise it is unchanged |
| Permissions.PermissionManager.GetUserPermissions | utils/permission_manager.py:50-53 | the loaded entry for the e-mail, or the empty list |
| Permissions.PermissionManager.SetUserPermissions | utils/permission_manager.py:55-59 | returns storage's answer to the upload; when accepted the table gains or replaces the entry, reading it back gives the list and every other user's permissions stay as they were; otherwise nothing changes |
| Processing.SourceOutsideOutputs | app.py:400-413 | for a uuid-shaped file id the source blob never lies under the output prefix |
| Processing.TargetUrl | app.py:414-415 | the target URL is undefined (the indexing raises) exactly when the container SAS URL has no `?` |
| Processing.SplitOnePiece | app.py:415 | fewer than two pieces means the separator is absent |
| Processing.SplitSeparated | app.py:415 | two or more pieces means the separator is present |
| Processing.TargetUrlCarriesToken | app.py:413-415 | with a `?`-free token, the target is the container address, `/`, the output prefix, and the container token |
| Processing.SentinelHasNoTarget | app.py:204-206 | when the container SAS cannot be signed there is no target URL |
| Processing.LastFailureSpec | app.py:437-448 | no failure is recorded exactly when every document succeeded; otherwise the recorded document failed and every document after it succeeded |
| Processing.ErrorText | app.py:441 | the error text is `Unknown Error` exactly when the service gave no error, else it ends with `code - message` |
| Processing.Placed | app.py:452 | every output the service writes lands under the output prefix with its bytes |
| Processing.PrefixCancels | app.py:452 | names under a common prefix are equal only when their rests are |
| Processing.Listed | app.py:454 | the listing is exactly the blobs whose names start with the prefix |
| Processing.LeastExists | app.py:458 | a non-empty listing has a first name |
| Processing.LeastUnique | app.py:458 | the first name of a listing is unique |
| Processing.LeastOf | app.py:458 | names the first entry of a non-empty listing |
| Processing.FirstListed | app.py:458 | returns the least name of a non-empty listing |
| Processing.UploadOnce | app.py:404-406 | the source holds the existing bytes when the blob exists, else the upload; no other blob changes |
| Processing.AfterOutcome | app.py:434-490 | the translation outcome either records an entry for the file or leaves the recorded states as they were; its effects are stated by the lemmas below |
| Processing.AfterStart | app.py:384-490 | pressing start either records an entry for the file or only drops an earlier success; its effects are stated by the lemmas below |
| Processing.TranslationSession.constructor | app.py:320-321 | a new session starts with an empty `processing_state` |
| Processing.TranslationSession.Start | app.py:384-490 | container and `processing_state` become the specified after-start store |
| Processing.TranslationSession.HandleOutcome | app.py:434-481 | the store becomes the specified result of the translation outcome |
| Processing.TranslationSession.RecordDocuments | app.py:437-448 | success is false exactly when some document failed, and then the last failure is recorded; blobs are untouched |
| Processing.TranslationSession.DeleteAll | app.py:463-466 | the named blobs are removed and nothing else changes |
| Processing.TranslationSession.CollectOutputs | app.py:454-481 | the store becomes the specified clean-up result |
| Processing.CollectedElsewhere | app.py:477-481 | the clean-up changes no other file's entry |
| Processing.OutcomeElsewhere | app.py:437-490 | handling the outcome changes no other file's entry |
| Processing.OtherEntriesUnchanged | app.py:384-490 | pressing start for one file leaves every other file's recorded state unchanged |
| Processing.CollectedBlobs | app.py:463-466 | the clean-up touches only the source and blobs under the output prefix |
| Processing.OutcomeBlobs | app.py:434-490 | the outcome touches only the source and blobs under the output prefix |
| Processing.OtherBlobsUnchanged | app.py:384-490 | pressing start leaves every blob other than the source and the outputs unchanged |
| Processing.AfterRequest | app.py:409-434 | with a request, the block's result is the outcome handled on the uploaded store |
| Processing.FailedDocumentRecorded | app.py:437-448 | a failed document records `failed` with the source blob, the output prefix and its error text; the outputs stay in the container |
| Processing.ExceptionRecorded | app.py:484-490 | an exception, including the index error, records `failed` with only its text, after the upload; the index error writes nothing else, and a translation that raises leaves in the container whatever the service wrote |
| Processing.SentinelRecordsIndexError | app.py:414-415 | a failed container signature ends in `failed` with `list index out of range` |
| Processing.EmptyListingKeepsEntry | app.py:454-456 | success with an empty listing records nothing new and deletes nothing |
| Processing.SuccessRecorded | app.py:458-481 | on success the first listed output's bytes are kept under the final file name, and the source and every listed output are deleted |
| Processing.CollectedSuccess | app.py:463-481 | a recorded success leaves neither the source nor any output behind |
| Processing.OutcomeSuccess | app.py:450-481 | a newly recorded success leaves neither the source nor any output behind |
| Processing.SuccessLeavesNothingBehind | app.py:384-481 | whenever the block ends in success, the source and all outputs are gone and the final file name is recorded |
| Processing.OutcomeKeepsSource | app.py:437-490 | an outcome that is not a success keeps the source blob intact |
| Processing.SourceKeptUnlessSucceeded | app.py:398-406 | unless the block succeeds, the source blob stays, holding the bytes first uploaded, for a retry |
| Auth.NormalizeIdempotent | utils/auth_manager.py:40-43 | normalising an e-mail twice is normalising it once |
| Auth.FirstMatchFrom | utils/auth_manager.py:42-45 | the index of the first record whose normalised e-mail equals the input, or none when no record matches |
| Auth.EffectivePermissions | utils/auth_manager.py:27-33 | a non-empty stored list overrides the secrets' list; otherwise the secrets' list is used |
| Auth.Record | utils/auth_manager.py:55-61 | a `KeyError` on `email`, then `name`, exactly when missing; otherwise id, email, name, role (default `user`) and effective permissions |
| Auth.Login | utils/auth_manager.py:35-66 | user information comes with success and only with it; a refusal says wrong password or unknown e-mail; only a missing `email` or `name` key raises |
| Auth.LoginFrom | utils/auth_manager.py:42-66 | the first matching record decides; no match gives `unknown e-mail` |
| Auth.LoginSucceedsIff | utils/auth_manager.py:35-66 | login succeeds exactly when the first match has exactly the given password and has e-mail and name |
| Auth.LoginReportsRecord | utils/auth_manager.py:55-62 | a successful login reports the first match's record and the welcome message with its name |
| Auth.LoginIgnoresEmailSpelling | utils/auth_manager.py:40 | the e-mail's case and surrounding white space do not affect login |
| Auth.GetUserByEmail | utils/auth_manager.py:68-84 | no user exactly when no record's e-mail matches; a user found has an e-mail that normalises to the one asked for |
| Auth.UserFrom | utils/auth_manager.py:71-84 | the first matching record's user info, or none |
| Auth.LookupAgreesWithLogin | utils/auth_manager.py:68-84 | a lookup and a login with the right password report the same user |
| Auth.AuthManager.constructor | utils/auth_manager.py:12-16 | the manager keeps the user table and the optional permission manager |
| Auth.AuthManager.ManagerTable | utils/auth_manager.py:29 | there is no table exactly when there is no permission manager |
| Auth.AuthManager.GetAllUsers | utils/auth_manager.py:86-101 | succeeds exactly when every record has e-mail and name, then lists them all in order; otherwise raises the first record's missing key |
| Auth.AuthManager.UpdateUserPermissions | utils/auth_manager.py:103-111 | without a manager fails with its message; otherwise succeeds exactly when storage accepts the upload, updating the table |
| Auth.UpdatedPermissionsTakeEffect | utils/auth_manager.py:27-33 | after a non-empty list is set, the next successful login reports exactly that list |

## Left out

- The Streamlit UI is not modelled. This covers widgets, `st.error`/`st.success` messages, `st.rerun`, the download button and `login_page`. The result display before the block is reduced to clearing an earlier success.
- `get_supported_languages` queries the Translator web API, so it is not modelled. Only its fallback table and the default-index loop are.
- The model's `lower()` and `upper()` change ASCII letters only; Python's change every cased letter. So an e-mail that differs from the stored one only in the case of a non-ASCII letter (`É` against `é`) logs in under the program but not under the model.
- The model's `\d` matches ASCII digits only; Python's matches every Unicode decimal digit. So a page reference written with other digits (Arabic-Indic, say) is removed by the program but kept by the model.
- The white space of `\s` and `strip()` is Python's `isspace` set, listed explicitly.
- Secrets values are strings or integers. Other TOML kinds (floats, booleans, tables) are not modelled, and `str()` of them is left out.
- JSON encoding and decoding of the permission blob are assumed inverse to each other.
- A blob that decodes to something other than an object is simplified to an unreadable one, like a failed download. In the program `get_user_permissions` then raises `AttributeError` (utils/permission_manager.py:53) and `set_user_permissions` raises `TypeError` (utils/permission_manager.py:58). Neither `login` nor `update_user_permissions` catches them.
- Storage's answer to a permission upload is a parameter of each save, so the model does not say why an upload fails.
- Storage calls in the translation block never fail in the model. These are the existence check, upload, list, download and delete. An exception from any of them would take the same `failed` path as a translation error. Container creation is not modelled.
- `file_id` is never assigned in the source, which only sets `current_file_id` from `uuid4`. The model takes it as a parameter that must have the hexadecimal-and-hyphen shape of a uuid4 string.
- The two clock reads in `generate_sas_url` are merged into one `now`, in seconds.
- The SAS signers, `mimetypes.guess_type`, the PDF library, the zip reader and the translation service are oracles given as function parameters. A failure to read the account key is `None`.
- The service's outputs are placed at `prefix/name` in the container. The real folder layout is decided by the service.
- Blob listing order is taken as code-point lexicographic order on names, and `output_blobs[0]` is the least name.
- `is_drm_protected` runs before the block and only gates it. It is modelled on its own and not chained into `Start`.
- `generate_sas_url` ignores its `permission` argument, so the model has no such parameter.
- `is_drm_protected`'s outer handler returns False, so the check fails open (app.py:248-250); the model has that verdict.
- One file is translated into one language per press of the start button. There is no batching and no archive output.

