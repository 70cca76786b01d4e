# docgen core, modelled in Dafny

docgen collects the documents and source files of a directory tree. It
formats each one into a fenced block, shows the block count and total size,
asks the user to confirm with `y`, and sends the blocks to the Gemini
`generateContent` API. It then extracts the generated text from the JSON
reply. A second, stand-alone routine pulls the run text out of a Word
document.

The model covers three pieces of logic:

- **Paths** and **Classifier**: `is_document_or_source_code`. Rust's
  `Path::extension` rule is modelled over OS strings, which are sequences of
  characters and raw non-UTF-8 bytes. The file name is the last normal
  component. The extension is the text after the last dot of that name. A
  name whose only dot is its first character, and the name `..`, have no
  extension. The extension is then matched against the 49 literals of the
  allow-list.
- **Corpus** and **Summary**: `scan_for_files` and what `main` does with the
  blocks.
  - `ScanForFiles` is a loop over an abstract walk (entries and walk errors)
    and a map from paths to file contents. It is proved against the
    entry-by-entry specification `ScanSpec`.
  - The block template is modelled exactly, with its 20-space indentation.
  - Also modelled: the byte-length aggregates (`str::len` is the UTF-8
    length), the newline fold `contents_str`, and the `trim() == "y"`
    confirmation with Unicode White_Space.
- **Docx**: `read`.
  - `ReadDocument` is the event loop over an abstract sequence of XML events,
    proved against the recursive `Runs`.
  - Each `Start` event carries the outcome that `read_text` would give.
    `if let Ok(text) = reader.read_text(..)` (src/suppot/docx.rs:35) drops a
    failed read, so malformed XML or an early end of file inside a `w:t` run
    is skipped, not returned as `Err`; only an error from `read_event` itself
    ends `read` with `Err`.
  - The result is the runs joined with no separator, with U+3000 replaced by a
    space. The error message is `Error at position N: detail`.
  - The document layout follows WordprocessingML (ECMA-376 Part 1): `w:t`
    elements in `word/document.xml`.
- **Gemini**: `get_content`. A small JSON datatype is used, with serde-style
  `get`. The three outcomes are the text, `Err` with the response, and the
  `expect` panic.

Behaviour of the code worth knowing:

- An accepted file that cannot be read, or whose path is not UTF-8, makes
  `scan_for_files` panic (src/main.rs:31-32); it is not skipped.
- Container failures in `read` (src/suppot/docx.rs:10-21) are `unwrap`
  panics, not returned errors.
- The allow-list literals `env.sample` … `env.stg` (src/main.rs:94-105) can
  never match, because an extension never contains a dot. `.env.production`
  is classified by `production`, and `.env` has no extension at all. The
  model keeps the list as written and proves the dotted entries unreachable.

## Model

| member | source | states |
|---|---|---|
| Paths.ToStr | src/main.rs:56 | `OsStr::to_str`: the characters of a path with no raw byte; its promises are stated by ToStrIsUtf8Check and ToStrFromString |
| Paths.FileName | src/main.rs:56 | `Path::file_name`: the last normal component, absent for `..` or an empty path, with trailing `/` and `.` components skipped; its promises are stated by FileNameIsNormal, FileNameOfChild, FileNameOfName, ParentHasNoFileName and TrailingComponentsSkipped |
| Paths.NameExtension | src/main.rs:56 | the extension rule on one file name; its promises are stated by NameExtensionAfterLastDot, ExtensionAfterLastDot and HiddenNameHasNoExtension |
| Paths.Extension | src/main.rs:56 | `Path::extension`: the extension of the file name; its promises are stated by ExtensionHasNoDot and ExtensionStrHasNoDot |
| Paths.ToStrIsUtf8Check | src/main.rs:56 | `to_str` succeeds exactly when every unit is a character, and then gives back those characters |
| Paths.FileNameIsNormal | src/main.rs:56 | a file name is a non-empty component holding no `/`, and is neither `.` nor `..` |
| Paths.NameExtensionAfterLastDot | src/main.rs:56 | a name's extension is everything after its last dot and holds no dot; it is absent exactly for `..`, for a name with no dot, and for a name whose last dot is its first character |
| Paths.ExtensionStr | src/main.rs:56 | `extension().and_then(to_str)`: the extension as text when it is UTF-8; its promises are stated by ExtensionStrHasNoDot and ExtensionStrOfFile |
| Paths.ExtensionStrHasNoDot | src/main.rs:56 | the extension handed to the match never holds `.` or `/`; it is the UTF-8 reading of `Path::extension`, and absent exactly when there is no extension or the extension is not UTF-8 |
| Paths.ParentHasNoFileName | src/main.rs:56 | the empty path, `..`, and every path ending in `/..` have no file name |
| Paths.TrailingComponentsSkipped | src/main.rs:56 | `dir/name/` and `dir/name/.` have the file name `name`: trailing separators and `.` components are skipped |
| Paths.SplitLast | src/main.rs:56 | splitting `dir/name` gives the pieces of `dir` followed by `name` |
| Paths.FileNameOfChild | src/main.rs:56 | the file name of `dir/name` is `name` for any normal `name` |
| Paths.ExtensionStrOfFile | src/main.rs:56 | a file `stem.ext`, with or without a directory, has extension `ext` when `stem` is non-empty and holds no `/`, `ext` holds no dot or `/`, and the name is not `..` |
| Paths.HiddenFileHasNoExtension | src/main.rs:56 | a file name whose only dot is its first character has no extension |
| Paths.NoDotFileHasNoExtension | src/main.rs:56 | a file name without a dot has no extension |
| Classifier.IsDocumentOrSourceCode | src/main.rs:54-107 | `is_document_or_source_code`: the UTF-8 extension matched against the 49 literals; DottedEntriesUnreachable and ClassifiedByExtension state that exactly the 37 dot-free literals decide, NoUsableExtensionRejected and UpperCaseRejected state what is rejected |
| Classifier.DottedEntriesContainDot | src/main.rs:57-105 | the list has 49 literals: the 37 dot-free literals followed by the 12 `env.*` literals, each of which holds a dot |
| Classifier.DottedEntriesUnreachable | src/main.rs:94-105 | no extension equals a dotted literal, so acceptance depends only on the dot-free literals |
| Classifier.ReachableIsLowerCase | src/main.rs:57-93 | every dot-free literal is spelled with lower-case letters and digits only |
| Classifier.UpperCaseRejected | src/main.rs:57-105 | matching is case-sensitive: an extension holding any character other than `a`-`z` and `0`-`9`, so any upper-case letter, is rejected |
| Classifier.NoUsableExtensionRejected | src/main.rs:56 | no extension, an empty extension, or a non-UTF-8 extension is rejected |
| Classifier.AcceptedExtensionUnwraps | src/main.rs:40 | for an accepted path, `extension().unwrap().to_str().unwrap()` cannot fail, and it yields a listed literal |
| Classifier.ClassifiedByExtension | src/main.rs:54-107 | once the extension is known, the path is accepted exactly when the extension is a dot-free literal |
| Classifier.ListedFileAccepted | src/main.rs:54-93 | `dir/stem.ext` is accepted for every directory and every non-empty stem holding no `/` when `ext` is one of the dot-free literals |
| Classifier.ListedFilesAccepted | src/main.rs:57-93 | `dir/main.rs` is accepted, and so is `dir/app.env` through the `env` literal |
| Classifier.DottedEnvFileExtension | src/main.rs:56 | the extension of `dir/.env.production` is `production` |
| Classifier.DottedEnvFileRejected | src/main.rs:100 | `dir/.env.production` is rejected, even though `env.production` is listed |
| Classifier.HiddenEnvFileRejected | src/main.rs:92 | `dir/.env` is rejected, since it has no extension |
| Classifier.WrongCaseRejected | src/main.rs:57-59 | `dir/README.MD` and `dir/lib.Rs` are rejected |
| Classifier.TrailingDotRejected | src/main.rs:56 | `dir/notes.` has the empty extension and is rejected |
| Classifier.NoDotRejected | src/main.rs:56 | `dir/Makefile` is rejected |
| Classifier.RawByteExtensionRejected | src/main.rs:56 | every path whose extension holds a raw non-UTF-8 byte, at any position, is rejected |
| Classifier.RawByteExampleRejected | src/main.rs:56 | `a.` followed by the byte 0xFF is rejected |
| Corpus.ScanSpec | src/main.rs:20-49 | the entry-by-entry result of the loop; ScanBlocksMatchEligible, ScanDoneIffReadable, ScanPanicsOnFirstUnreadable, ScanAppend and ScanSkipsWalkErrors state its promises |
| Corpus.FileBlock | src/main.rs:31-42 | the block pushed for an accepted readable path, from its UTF-8 path, its extension and its content; Block and BlockByteSize state its shape and size |
| Corpus.PanicFor | src/main.rs:31-32 | the panic of an accepted path that cannot be used: the read failure first, then the non-UTF-8 path; ScanPanicsOnFirstUnreadable states when it is raised |
| Corpus.Block | src/main.rs:33-42 | a block is 107 template characters plus the path, extension and content; it starts with the path, holds the extension and the full content at fixed offsets, and ends with the `------------` rule |
| Corpus.Eligible | src/main.rs:27 | every path in the eligible list is accepted by the classifier |
| Corpus.ScanForFiles | src/main.rs:13-51 | the loop returns exactly what `ScanSpec` gives: the blocks in walk order, or the panic on the first unreadable accepted file |
| Corpus.ScanAppend | src/main.rs:20-49 | scanning a concatenated walk gives the first part's blocks followed by the second's, and a panic in the first part wins |
| Corpus.ScanSkipsWalkErrors | src/main.rs:45-47 | a walk error contributes nothing and does not stop the loop |
| Corpus.ScanDoneIffReadable | src/main.rs:26-32 | the scan finishes exactly when every accepted path of the walk is readable with a UTF-8 path |
| Corpus.ScanBlocksMatchEligible | src/main.rs:20-43 | a finished scan holds exactly one block per accepted path, in walk order, each built from that path, its extension and its full content |
| Corpus.ScanPanicsOnFirstUnreadable | src/main.rs:31-32 | a scan that panics does so on the first accepted path that is not readable, with the read failure taking precedence over the non-UTF-8 path |
| Corpus.UnreadableFileAbortsScan | src/main.rs:31 | an accepted file missing from the file system makes the whole scan panic; it is not skipped |
| Summary.Utf8Len | src/main.rs:172 | `str::len`: the UTF-8 byte length; its promises are stated by Utf8LenAppend and Utf8LenBounds |
| Summary.CharUtf8Len | src/main.rs:172 | a character takes 1 to 4 bytes, and 1 exactly when it is ASCII |
| Summary.Utf8LenAppend | src/main.rs:172 | the byte length of a concatenation is the sum of the byte lengths |
| Summary.Utf8LenBounds | src/main.rs:172 | the byte length lies between the character count and four times that count, and equals the character count exactly for ASCII text |
| Summary.BlockByteSize | src/main.rs:33-42 | a block's byte length is the byte lengths of path, extension and content plus 107 |
| Summary.ContentSize | src/main.rs:172 | `content_size`: the sum of the blocks' byte lengths; ContentSizeAppend, BlocksSize and ScanContentSize state its value |
| Summary.ContentSizeAppend | src/main.rs:172 | `content_size` is additive over concatenated block lists |
| Summary.BlocksSize | src/main.rs:172 | the content size of blocks built for accepted paths is their payload bytes plus 107 per block |
| Summary.ScanContentSize | src/main.rs:171-172 | after a finished scan, `content_length` is the number of accepted paths, and `content_size` is the bytes of their paths, extensions and contents plus 107 per file |
| Summary.ContentsStr | src/main.rs:192-194 | `contents_str`: each block followed by a newline, in order; ContentsStrAppend, ContentsStrSingle and ContentsStrSize state its promises |
| Summary.ContentsStrAppend | src/main.rs:192-194 | the newline fold distributes over concatenated block lists |
| Summary.ContentsStrSingle | src/main.rs:192-194 | one block folds to the block followed by a newline |
| Summary.ContentsStrSize | src/main.rs:171-194 | the fold of src/main.rs:192-194 yields a text of `content_size + content_length` bytes (src/main.rs:171-172) |
| Summary.IsWhitespace | src/main.rs:183 | `char::is_whitespace`, which `trim` uses: the 25 characters of the Unicode White_Space property; ConfirmedIff and TrimIsSlice state what it decides |
| Summary.LeadingWhitespace | src/main.rs:183 | counts the leading whitespace, and stops at the first character that is not whitespace |
| Summary.TrailingWhitespace | src/main.rs:183 | counts the trailing whitespace, and stops at the last character that is not whitespace |
| Summary.Trim | src/main.rs:183 | `str::trim`: the result is no longer than the input, neither starts nor ends with whitespace, and is empty for an all-whitespace input; TrimIsSlice states that it is the input with exactly its leading and trailing whitespace removed |
| Summary.TrimIsSlice | src/main.rs:183 | the trimmed answer is a slice of the input with only whitespace before and after it |
| Summary.Confirmed | src/main.rs:183-184 | the trimmed answer is exactly `y`; ConfirmedIff states which inputs those are |
| Summary.ConfirmedIff | src/main.rs:183-187 | sending goes ahead exactly when the input is a single `y` with only Unicode whitespace around it |
| Summary.PlainYConfirms | src/main.rs:183-187 | `y` followed by a newline confirms |
| Summary.PaddedYConfirms | src/main.rs:183-187 | `y` padded with spaces, a carriage return and a newline confirms |
| Summary.NoYCancels | src/main.rs:183-187 | an answer with no lower-case `y` anywhere in it cancels |
| Summary.OtherAnswersCancel | src/main.rs:183-187 | `Y`, `yes`, an empty line and an empty input cancel |
| Docx.Runs | src/suppot/docx.rs:28-51 | the runs the loop collects or the error that ends it; RunsOfBody, RunsOfError and IgnoredEventNeutral state its promises |
| Docx.Read | src/suppot/docx.rs:28-54 | what `read` returns: on success, text with no U+3000; on failure, an `Error at position` message; ReadOfBody, ReadOfError and ReadFailsIffError state when each happens |
| Docx.Join | src/suppot/docx.rs:54 | `join("")`: the runs concatenated with no separator; JoinAppend states that it distributes over concatenation |
| Docx.ErrorMessage | src/suppot/docx.rs:42-46 | the message starts with `Error at position `, ends with the detail, and by ErrorMessageInjective determines both position and detail |
| Docx.ReadDocument | src/suppot/docx.rs:28-54 | the event loop returns exactly what `Read` gives for the event sequence |
| Docx.RunsOfBody | src/suppot/docx.rs:28-40 | events without end of file or error yield exactly their captured `w:t` texts in order, and nothing after an end of file matters |
| Docx.RunsOfError | src/suppot/docx.rs:41-47 | an error event ends the loop with that error, whatever text came before it |
| Docx.ReadOfBody | src/suppot/docx.rs:28-38 | on success the result is the captured texts in order, joined with no separator, with U+3000 replaced |
| Docx.ReadOfError | src/suppot/docx.rs:41-47 | an error event from `read_event` returns `Err` with the positioned message and no partial text; errors inside `read_text` are skipped instead (FailedRunSkipped) |
| Docx.ReadFailsIffError | src/suppot/docx.rs:30-47 | `read` fails exactly when an error event from `read_event` comes before any end of file |
| Docx.IgnoredEventNeutral | src/suppot/docx.rs:32-48 | inserting another element's start, a `w:t` whose text cannot be read, or any other event changes nothing |
| Docx.FailedRunSkipped | src/suppot/docx.rs:35-37 | a `w:t` run whose text cannot be read is skipped and extraction goes on |
| Docx.Normalize | src/suppot/docx.rs:54 | the replacement keeps the character count, turns every U+3000 into a space, leaves every other character unchanged, and leaves no U+3000 |
| Docx.NormalizeIdempotent | src/suppot/docx.rs:54 | replacing twice is the same as replacing once |
| Docx.NormalizeKeepsPlainText | src/suppot/docx.rs:54 | text without U+3000 comes back unchanged |
| Docx.JoinAppend | src/suppot/docx.rs:54 | joining concatenated run lists concatenates the joined texts |
| Docx.Decimal | src/suppot/docx.rs:43-44 | the rendered position is a non-empty string of decimal digits |
| Docx.DecimalRoundTrip | src/suppot/docx.rs:43-44 | reading the rendered digits back gives the position |
| Docx.MessageAt | src/suppot/docx.rs:42-46 | after the fixed prefix the message holds the position's digits, then a colon |
| Docx.MessageParts | src/suppot/docx.rs:42-46 | the message splits back into the position's digits and the detail |
| Docx.ErrorMessageInjective | src/suppot/docx.rs:42-46 | the error message determines both the position and the detail |
| Docx.HelloWorld | src/suppot/docx.rs:62-68 | the runs `Hello` and `, world!` around other markup read as `Hello, world!` |
| Gemini.Get | src/req/gemini.rs:11-16 | serde `get`: a value is found only for a present member of an object or an in-range element of an array, and then it is that member or element, so a wrong kind or a missing key or index gives None |
| Gemini.GetContent | src/req/gemini.rs:5-29 | `get_content`: an `Err` carries the whole response and a panic carries a non-string value; GetContentOutcomes characterises all three outcomes |
| Gemini.PointerSnoc | src/req/gemini.rs:11-16 | following one more index extends a path lookup by one `and_then(get)` |
| Gemini.ChainIsPointer | src/req/gemini.rs:10-16 | the chain of `get` calls is the lookup of `candidates[0].content.parts[0].text` |
| Gemini.GetContentOutcomes | src/req/gemini.rs:5-29 | `Ok(s)` exactly when the located value is the string `s`, returned unchanged; `Err` with the whole response exactly when a step is missing; a panic exactly when the located value is not a string |
| Gemini.NoCandidatesNotFound | src/req/gemini.rs:11 | a reply that is not an object, or has no `candidates` member, gives `Err` |
| Gemini.EmptyCandidatesNotFound | src/req/gemini.rs:12 | an empty `candidates` array gives `Err` |
| Gemini.EmptyPartsNotFound | src/req/gemini.rs:15 | an empty `parts` array gives `Err` |
| Gemini.ExtraCandidatesIgnored | src/req/gemini.rs:12 | candidates after the first never change the located value |
| Gemini.ExtraPartsIgnored | src/req/gemini.rs:15 | parts after the first never change the located value |
| Gemini.ExtraCandidatesKeepText | src/req/gemini.rs:12-25 | when the text is located, extra candidates leave the whole result unchanged |
| Gemini.TypicalResponse | src/req/gemini.rs:10-28 | a one-candidate, one-part reply yields its text |
| Gemini.NumericTextPanics | src/req/gemini.rs:22-25 | a `text` member holding a number makes `get_content` panic |

## Left out

- Paths are modelled with Unix rules only: `/` is the one separator. On Windows `Path` also splits at `\` and recognises prefixes such as `C:` and `\\?\`; those are not part of this model, so the extension rule is not proved for Windows paths.
- Path bytes are taken in decoded form: a byte sequence that is valid UTF-8 is given as its characters, and only leftover bytes are `Raw`. The `OsStr` type does not enforce this.
- The directory walk (src/main.rs:15-18) is an input sequence of entries and errors. `.gitignore` handling, hidden-file filtering and symlink following are not part of this model, because they belong to the `ignore` crate.
- File reading and UTF-8 decoding (src/main.rs:31) are an input map from path to text; a missing key stands for every read failure. A file that exists but is not valid UTF-8 is one of those failures.
- The `println!` and `eprintln!` output is not modelled (src/main.rs:28, 46, 174-177, 181, 185, 208, 210, 216, 227). It is console I/O.
- The megabyte figure (src/main.rs:173) is not modelled, because it is floating point.
- Reading the answer from stdin (src/main.rs:180-182) is I/O; the confirmation is modelled on the string read.
- Building the request body with `json!` (src/main.rs:195-206) is not modelled. It is a library macro that formats the prompt, `contents_str`, `content_length` and the megabyte figure into JSON; of these only `contents_str` and `content_length` are modelled.
- Argument parsing with clap (src/main.rs:112-161) is not modelled; the directory, model name and prompt only feed I/O.
- `request` (src/req/gemini.rs:31-59) is not modelled: it reads an environment variable, does an HTTP POST and decodes JSON asynchronously, all network and I/O.
- In `main`, `get_content(&json).unwrap()`, the timestamped file name and the file write (src/main.rs:215-225) are not modelled. They are I/O; the outcomes of `get_content` itself are modelled.
- In `read`, opening the file, the zip archive, `by_name("word/document.xml")`, `read_to_string` and quick_xml tokenising (src/suppot/docx.rs:10-25) are foreign code. The model starts from the event sequence the tokeniser yields; `trim_text(true)` is assumed already applied to the captured texts.
- `buf.clear()` (src/suppot/docx.rs:50) only recycles a buffer and has no observable effect.
- The Debug rendering `{:?}` of a quick_xml error is an input string, and so is the serde_json Debug rendering of the reply inside the `get_content` error message; the model carries the reply itself.
- `usize` overflow of `content_size` is not modelled: sizes are unbounded.
- `read` is not called from `main` (src/main.rs:10 declares only `mod req`); it is modelled stand-alone.
