# eml-to-txt converter: a Dafny model of the per-message conversion

This project models the part of `eml-to-txt-converter.py` that turns one
parsed e-mail message into its text report and its extracted attachments:

- `decode_content`: undoing a Content-Transfer-Encoding by name.
- `decode_header_value`: decoding RFC 2047 encoded-words run by run and
  joining the runs with single spaces.
- `sanitize_filename`: replacing `<>:"/\|?*` by `_`, then the
  200-character limit around `os.path.splitext`.
- `extract_attachment`: the saved name, `<message name up to its first
  '.'>_<sanitized name>`, and the record it returns.
- `get_attachment_info`: which parts are described, and the
  `[ATTACHMENT: name (type, ~N.N KB)]` line.
- The nested `extract_parts` walk of `process_eml_file`: depth-first and
  pre-order, appending to three shared lists.
- The rest of `process_eml_file`: the banner, the six headers, the BODY and
  ATTACHMENTS sections, and the final `'\n'.join`.

The modules follow the program's structure:

- `Strings`: string helpers such as `join` and `split`.
- `Runtime`: the library calls the converter makes, as a `Library` value.
- `Mime`: the parsed message tree.
- `Content`: `decode_content`, and the `text/plain` branch of
  `extract_parts` that decodes a body part in its charset.
- `Headers`: `decode_header_value`.
- `Filenames`: `sanitize_filename`, and the `<message name up to its first
  '.'>_<name>` naming of `extract_attachment`.
- `Attachments`: `get_attachment_info` and `extract_attachment`.
- `Walk`: `extract_parts`. The `Walker` class holds the lists it mutates.
  The `Walk`/`WalkAll` functions specify it.
- `Report`: `process_eml_file`.

The email package, `base64`, `quopri`, the codecs and `mimetypes` are not
modelled. They are the fields of a `Runtime.Library` value passed as a
parameter:

- header decoding into runs
- whether a charset name is known
- decoding bytes in a charset and in UTF-8
- base64 decoding, which may fail
- quoted-printable decoding
- `guess_extension`

The parsed message is a `Mime.Part` tree. Each part carries the values the
accessors return: the content type, the raw Content-Disposition text, the
parsed disposition, the file name, the charset, the Content-Transfer-Encoding
header, and the payload undecoded and decoded.

## Where the model follows the code rather than the documented behaviour

- **Raw bytes for 7bit, 8bit or missing encodings.** `decode_content`
  returns the payload bytes unchanged for these encodings. The walk uses it
  only when `content.decode(charset)` raises, as it does for an unknown
  charset name. The bytes then land in `body_text`. The output file is
  opened for writing before `'\n'.join(output)` raises `TypeError`, so it is
  left empty (an existing one is truncated). The attachments saved during
  the walk stay on disk. `Content.Fragment` keeps text and bytes
  apart. `Report.ConversionSucceeds` states exactly when the conversion
  fails.
- **The 200-character limit.** For names longer than 200 characters, it
  holds only when the extension, dot included, has at most 5 characters
  (`Filenames.SanitizedBounded`).
  `Filenames.SanitizedKeepsLongExtension` shows names of any length that
  come back unshortened.
- **Two tests for "is an attachment".** The walk tests for the substrings
  "attachment" and "inline" in the raw Content-Disposition header.
  `get_attachment_info` uses the parsed disposition. A `multipart/related`
  part with a file name enters the attachment branch, gets no description
  line, and its sub-parts are never visited
  (`Walk.RelatedWithFilenameVanishes`).
- **The size shown.** The description's size is the length of the
  undecoded payload (for a multipart part, its number of sub-parts). The
  record's `size` is the length of the decoded payload.
- **Names of unnamed attachments.** An attachment without a name is
  described as `unnamed_attachment<ext>`. It is saved as
  `unnamed_attachment_<type with '/' as '_'><ext>`.
- **The fallback decodes twice.** The fallback after a failed charset
  decode hands the already transfer-decoded payload to `decode_content`,
  which undoes the transfer encoding a second time.

## Model

| member | source | states |
|---|---|---|
| Content.DecodeContent | eml-to-txt-converter.py:18-30 | base64 gives the UTF-8 text of the decoded bytes, or the fixed marker when decoding fails; quoted-printable gives the UTF-8 text of the decoded bytes; the result is the input bytes unchanged exactly for 7bit, 8bit and a missing encoding; any other name gives `[UNKNOWN ENCODING: name]` |
| Content.CharsetOrUtf8 | eml-to-txt-converter.py:195 | the declared charset when there is a non-empty one, otherwise "utf-8" |
| Content.PlainText | eml-to-txt-converter.py:193-203 | a charset whose decode does not raise gives the decoded text; otherwise the fragment is `decode_content` of the decoded payload; the fragment is bytes exactly when the charset is unknown and the encoding passes through |
| Headers.SegmentText | eml-to-txt-converter.py:40-49 | a `str` run is kept as it is; a bytes run with a known charset is decoded in it; a bytes run without a charset, or with one Python cannot decode, is decoded as UTF-8 |
| Headers.SegmentTexts | eml-to-txt-converter.py:39-49 | one decoded text per run, in the same order |
| Headers.DecodeHeaderValue | eml-to-txt-converter.py:33-51 | the loop's result is the decoded runs joined with single spaces, and "" for a missing value |
| Headers.HeaderTextMissing | eml-to-txt-converter.py:35-36 | a missing header decodes to the empty string |
| Headers.HeaderTextUnencoded | eml-to-txt-converter.py:48-51 | a value without encoded-words comes back unchanged |
| Headers.HeaderTextPieces | eml-to-txt-converter.py:51 | splitting the result on spaces gives back the decoded runs, when none of them holds a space |
| Headers.HeaderTextLength | eml-to-txt-converter.py:51 | the length is the sum of the runs' lengths plus one per gap between runs |
| Filenames.ReplaceChar | eml-to-txt-converter.py:59 | same length; each occurrence of the character is replaced and every other character is kept |
| Filenames.RFind | eml-to-txt-converter.py:63 | the index of the last occurrence of the character, or -1 when it does not occur |
| Filenames.SplitExt | eml-to-txt-converter.py:63 | stem and extension concatenate back to the name; the extension is empty, or one leading '.' with no further '.' and no '/'; it is non-empty exactly when the last path component has a '.' after a character other than '.' |
| Filenames.DotAfterNonDotSplits | eml-to-txt-converter.py:63 | splitext's test on the last '/' and the last '.' holds exactly when the last path component has a '.' after a non-dot |
| Filenames.SanitizeFilename | eml-to-txt-converter.py:54-66 | the replacement loop and the length limit compute `Sanitized` |
| Filenames.SanitizedIsClean | eml-to-txt-converter.py:57-64 | no invalid character remains in the result |
| Filenames.SanitizedShort | eml-to-txt-converter.py:57-62 | a name of at most 200 characters keeps its length, with each invalid character replaced by '_' in place |
| Filenames.SanitizedLong | eml-to-txt-converter.py:62-64 | a longer name becomes the first 195 characters of its stem plus its extension |
| Filenames.SanitizedBounded | eml-to-txt-converter.py:61-64 | the result has at most 200 characters when the extension has at most 5 |
| Filenames.SanitizedKeepsLongExtension | eml-to-txt-converter.py:61-64 | "a." followed by 200 or more plain characters is returned whole, longer than 200 |
| Filenames.SanitizedIdempotent | eml-to-txt-converter.py:54-66 | sanitizing a sanitized name of at most 200 characters changes nothing |
| Filenames.EmailPrefix | eml-to-txt-converter.py:83 | the prefix holds no '.', is a prefix of the message name, and is followed by a '.' unless it is the whole name |
| Filenames.UniqueNamesApart | eml-to-txt-converter.py:82-84 | two messages give the same saved name to one attachment only if their names agree up to the first '.' |
| Filenames.ExtensionOrBin | eml-to-txt-converter.py:75 | the guessed extension when there is a non-empty one, else ".bin" |
| Filenames.SynthesizedName | eml-to-txt-converter.py:72-76 | the synthesized name holds the content type with every '/' replaced |
| Attachments.KbTenthsNearest | eml-to-txt-converter.py:126 | the tenths shown are nearest to size/1024, ties to even |
| Attachments.KbTextReadsBack | eml-to-txt-converter.py:126 | the size text is digits without a leading zero (unless the whole part is 0), a '.', and one digit, and reads back as the tenths computed |
| Attachments.ExtractAttachment | eml-to-txt-converter.py:69-100 | a record exists exactly when the decoded payload is non-empty; it names the sanitized file, the prefixed unique name, the decoded size, the type and the path in the directory; the original name holds no invalid character |
| Attachments.AttachmentInfo | eml-to-txt-converter.py:103-134 | a description exists exactly when the part has a name or an attachment/inline disposition and is not one of the three structural multipart types; its line shows the name (or `unnamed_attachment<ext>`), the type and the undecoded size, plus " - Saved as: <unique name>" exactly when a record was saved; a record is saved exactly when extraction is configured and the payload is non-empty |
| Attachments.AttachmentInfoOpens | eml-to-txt-converter.py:126 | every description line opens with "[ATTACHMENT: " |
| Attachments.SavedSuffixOnly | eml-to-txt-converter.py:119-128 | extracting changes the line only by the appended " - Saved as: " suffix |
| Mime.GetHeader | eml-to-txt-converter.py:159-160 | missing exactly when no header has the name, ignoring case; otherwise the value of the first header that has it |
| Walk.Walk | eml-to-txt-converter.py:173-212 | the lists are consistent: no more records than lines, one write per record, each record saved under the prefixed name; the attachment branch adds no body text and at most one line, and a line exactly when `get_attachment_info` gives one |
| Walk.WalkAll | eml-to-txt-converter.py:210-212 | walking the sub-parts in turn keeps the lists consistent |
| Walk.WalkMessage | eml-to-txt-converter.py:214-219 | walking from the root keeps the lists consistent |
| Walk.AttachmentOutcomeConsistent | eml-to-txt-converter.py:186-189 | the attachment branch appends at most one line, and a record only with its file write |
| Walk.Walker.constructor | eml-to-txt-converter.py:168-170 | the three lists start empty |
| Walk.Walker.ExtractParts | eml-to-txt-converter.py:173-212 | the lists become their old contents followed by the walk of the part |
| Walk.Walker.AppendAttachment | eml-to-txt-converter.py:180-190 | appends the description line and, when one was saved, the record and its write |
| Walk.Walker.ExtractChildren | eml-to-txt-converter.py:210-212 | the lists become their old contents followed by the walks of the sub-parts in order |
| Walk.Walker.ExtractMessage | eml-to-txt-converter.py:214-219 | the lists become their old contents followed by the walk from the root |
| Walk.Visited | eml-to-txt-converter.py:173-212 | the visited parts start with the part itself |
| Walk.WalkStep | eml-to-txt-converter.py:177-212 | a part that descends adds nothing itself and walks its sub-parts; any other part adds only its own contribution |
| Walk.WalkIsPreOrder | eml-to-txt-converter.py:173-212 | the walk equals the visited parts' own contributions, in pre-order |
| Walk.WalkAllIsPreOrder | eml-to-txt-converter.py:210-212 | the same for a list of sub-parts |
| Walk.WalkMessageIsPreOrder | eml-to-txt-converter.py:214-219 | the same from the root |
| Walk.CollectInfosCount | eml-to-txt-converter.py:186-187 | one line per visited part that takes the attachment branch and gets a description |
| Walk.WalkDescriptionCount | eml-to-txt-converter.py:178-190 | the number of description lines is the number of visited parts described |
| Walk.RelatedWithFilenameVanishes | eml-to-txt-converter.py:179-190 | a multipart/related part with a name adds nothing and none of its sub-parts is visited |
| Walk.WalkNonAttachment | eml-to-txt-converter.py:193-212 | outside the attachment branch: plain text adds its fragment, HTML adds the marker, multipart walks its sub-parts, anything else adds nothing |
| Walk.OwnHasBytes | eml-to-txt-converter.py:193-203 | a part adds bytes exactly when it is plain text with an unknown charset and a pass-through encoding |
| Walk.CollectHasBytes | eml-to-txt-converter.py:198-203 | the collected body holds bytes exactly when some visited part adds them |
| Walk.WalkMessageHasBytes | eml-to-txt-converter.py:214-219 | the message's body holds bytes exactly when such a part is visited |
| Report.AppendHeaders | eml-to-txt-converter.py:157-161 | the loop appends one line per listed header present, in the fixed order |
| Report.AppendHeader | eml-to-txt-converter.py:159-161 | the line for one header if present, nothing otherwise |
| Report.AppendHead | eml-to-txt-converter.py:150-165 | the banner, the header lines and the divider, in order |
| Report.AppendSections | eml-to-txt-converter.py:221-232 | the BODY and ATTACHMENTS sections, each only when its list is non-empty |
| Report.ProcessEmlFile | eml-to-txt-converter.py:137-241 | the files written are the walk's writes, and the result is the joined report with the walk's records, or failure where the join raises |
| Report.HeaderLineNamed | eml-to-txt-converter.py:158-161 | every header line is `<name>: <decoded value>` for a listed header the message has |
| Report.HeaderLinesComplete | eml-to-txt-converter.py:158-161 | every listed header the message has gets its line |
| Report.HeaderPresence | eml-to-txt-converter.py:158-161 | for names with distinct initials, a line for a name appears exactly when the header is present |
| Report.ReportHeaderPresence | eml-to-txt-converter.py:157-161 | the From, To, Cc, Bcc, Subject and Date lines appear exactly when the message has those headers, with decoded values |
| Report.HeaderLinesCount | eml-to-txt-converter.py:158-161 | as many header lines as listed headers present |
| Report.ReportOpens | eml-to-txt-converter.py:150-154 | the report opens with 80 '=', "EMAIL: <name>", 80 '=' and a blank line |
| Report.HeadHasNoSectionTitle | eml-to-txt-converter.py:150-165 | no line before the sections reads "BODY:" or "ATTACHMENTS:" |
| Report.ReportBodySection | eml-to-txt-converter.py:221-225 | "BODY:" is a line of the report exactly when the body list is non-empty |
| Report.ReportAttachmentSection | eml-to-txt-converter.py:227-232 | with description lines, the report ends with "ATTACHMENTS:" and the lines in order |
| Report.ReportNoAttachmentSection | eml-to-txt-converter.py:227-232 | without description lines, "ATTACHMENTS:" appears only if a body fragment is that text |
| Report.ReportAllText | eml-to-txt-converter.py:221-236 | every line of the report is text exactly when the body holds no bytes |
| Report.JoinLines | eml-to-txt-converter.py:236 | the join succeeds exactly when every line is text |
| Report.JoinLinesSplit | eml-to-txt-converter.py:236 | splitting the joined text on newlines gives the lines back, when none holds a newline |
| Report.ConversionSucceeds | eml-to-txt-converter.py:234-241 | the conversion fails exactly when the walk visits a plain-text part whose bytes pass through undecoded; on success the records are the walk's |
| Report.ConversionLines | eml-to-txt-converter.py:234-236 | the written text, split on newlines, is the report's lines |

## Left out

- Reading the .eml file, `email.message_from_binary_file` and the email
  package's parsing. The model starts from the parsed `Mime.Message`.
- `Report.ProcessEmlFile`: requires `Parsed(msg.root)`, the parser's
  guarantee that a `text/plain` part has a non-multipart payload.
- `Report.ProcessEmlFile`: its `None` result does not say that the output
  file was already opened for writing, so it is left empty or truncated.
  Output files are not part of the model's state.
- `Headers.SegmentText`: `decode_header_value` catches only `LookupError`.
  A codec that raises anything else (the `idna` codec, say) makes it raise.
  The model falls back to UTF-8 whenever the charset cannot be decoded.
- `Runtime.Library.knownCharset` decides by the charset name alone whether
  a decode raises. A codec that fails only on some data is not modelled.
- Writing files: the text report and each saved attachment are returned as
  values (`Report.Converted`, `Walk.FileWrite`). Their failures are not
  modelled.
- The `mkdir` of the attachments directory, and the default output path
  (`with_suffix('.txt')`). The output path is returned unchanged, so it is
  not modelled.
- `convert_folder` and `main`: directory traversal, argument parsing and
  printing are outside this model.
- `Path(attachments_dir) / unique_filename` is kept as its two halves
  (`Attachments.SavedPath`). Path normalisation is not modelled.
- The codecs, `base64`, `quopri`, `decode_header` and
  `mimetypes.guess_extension`: fields of `Runtime.Library` without their
  own definitions. What the model proves holds for any such functions.
- `Mime.GetHeader`: compares names case-insensitively for ASCII letters
  only. Python's header lookup also folds other letters.
- `Attachments.KbTenths`: computes `{size/1024:.1f}` on exact rationals. It
  agrees with Python's floating-point formatting while size/1024 is an exact
  double, that is for sizes below 2^53 bytes.
- `msg[header]` returning a `Header` object rather than a string is not
  modelled. The model treats every header value as a string.
- Exceptions other than the `TypeError` from joining bytes are not modelled:
  I/O errors and parser errors.
