# jsreport export converter: a verified model of its core

The converter turns a jsreport export archive into a flat list of
self-contained templates. Placeholders in each template's `content` that
name an asset are replaced:

- stylesheet tags are replaced by the stylesheet's text;
- image tags and `src` attributes are replaced by a `data:` URL.

This project models the class `JSReportExportConverter` of `main.py`, and in
it the four steps that do this work:

- `decode_base64_if_needed`: the heuristic that decodes stylesheet content
  which looks base64-encoded. It applies a pattern test, then
  `base64.b64decode`, then strict UTF-8 decoding. If any step fails, the
  content is returned unchanged.
- `process_assets`: builds the asset registry from the parsed asset
  descriptors, in listing order. A nameless descriptor is skipped. The entry
  is classified by the suffix of its name, and a later descriptor with the
  same name overwrites an earlier one.
- `replace_assets_in_content`: loops over the registry in the dict's
  iteration order. For each entry, every fixed placeholder text that occurs
  in the content is replaced everywhere.
- `process_templates`: copies each parsed template record and rewrites its
  `content` when present. The copy is appended to the output, and a record
  without `name` ends the run with an error.

Modules, leaf first:

- `Wrappers`: Option and Result.
- `Text`: Python's `in`, `str.replace`, `endswith`, `lower` and `split('.')[-1]`
  on strings, with their lemmas.
- `Base64`: the pattern `^[A-Za-z0-9+/]*={0,2}$` as `re.match` reads it.
  - `$` also matches before a final newline.
  - The decoder is CPython's non-strict `b64decode`:
    - characters outside the alphabet are skipped;
    - a pad that completes a quantum of two or three characters stops decoding;
    - a quantum left incomplete raises;
    - non-ASCII text raises.
  - A standard encoder (section 4 of RFC 4648) is the decoder's reference partner.
- `Utf8`: strict `bytes.decode('utf-8')`. It accepts exactly the well-formed
  sequences of table 3-7 of the Unicode Standard, and an encoder is its partner.
- `Assets`: the heuristic, the classification by name, and the registry as a
  function of the descriptors read.
- `Substitution`: the placeholder patterns and the substitution as a function
  of the registry.
- `Templates`: template assembly as a function of the registry.
- `Converter`: the class.
  - Its fields are `assets`, a map, and `order`, the iteration order of the
    Python dict.
  - `ProcessAssets`, `ReplaceAssetsInContent` and `ProcessTemplates` are
    loops, each proved equal to the function that specifies it.
  - `Valid()` is kept across calls. It says that `order` lists every key once
    and that every entry is classified by its own name.

The file system is replaced by parameters. The caller passes the already
parsed records of a directory in listing order, or `None` when the directory
does not exist.

`main.py` registers JSON descriptors only, and a later descriptor overwrites
an earlier one of the same name (main.py:61). It has no discovery pass over
binary or loose text files, no MIME table for fonts or scripts, no decoding
of `.js` content, no placeholder syntaxes beyond the six patterns below and
no root-level template fallback, so neither has the model.

## Model

| member | source | states |
|---|---|---|
| Base64.MatchesPattern | main.py:29 | `re.match(r'^[A-Za-z0-9+/]*={0,2}$', content)`: at most two `=` end the text, optionally followed by one newline, and everything before them is in the alphabet |
| Base64.Scan | main.py:30 | the character loop of `b64decode`: collects the sextets of alphabet characters, skips other characters, stops at a pad that completes a quantum, and fails when the text ends inside a quantum |
| Base64.SextetsToBytes | main.py:30 | the bytes of the collected sextets, three per full quantum and one or two for a final partial one |
| Base64.Decode | main.py:30 | `base64.b64decode` of a text: None for non-ASCII text or for a failed scan, otherwise the bytes of the sextets |
| Utf8.DecodeFirst | main.py:30 | the first character of a byte string and its length in bytes, or None when the bytes do not start with a well-formed sequence |
| Utf8.Decode | main.py:30 | `bytes.decode('utf-8')`: the characters read one sequence at a time, or None for the UnicodeDecodeError |
| Assets.DecodeBase64IfNeeded | main.py:25-33 | the content is returned changed only if it matches the base64 pattern |
| Assets.DecodeRecoversText | main.py:27-30 | any text whose UTF-8 bytes were base64-encoded is decoded back to exactly that text |
| Assets.UnshapedUnchanged | main.py:29-31 | content comes back unchanged if it has any of: a character outside the alphabet other than `=` or a final newline; an alphabet character after a `=`; three `=` in a row |
| Assets.BadPaddingUnchanged | main.py:27-33 | content of the pattern's shape whose padding `b64decode` refuses comes back unchanged (the exception is swallowed) |
| Assets.ShapedDecodes | main.py:29-33 | content of the pattern's shape with accepted padding becomes the UTF-8 text of its decoded bytes, or stays unchanged when those bytes are not UTF-8 |
| Base64.PatternIff | main.py:29 | the pattern matches exactly the texts made of alphabet characters, then at most two `=`, then an optional final newline |
| Base64.MatchingText | main.py:29 | a matching text holds only alphabet characters, `=` and a final newline; has no alphabet character after a `=`; and has no three `=` in a row |
| Base64.DecodeShaped | main.py:30 | on text of the pattern's shape, `b64decode` fails exactly when the padding does not fit the last quantum; otherwise it yields the bytes of the data characters |
| Base64.RoundTrip | main.py:30 | `b64decode` inverts standard base64 encoding for every byte string |
| Base64.EncodeMatchesPattern | main.py:29-30 | every standard base64 encoding passes the pattern test |
| Base64.EncodeSextetsDecode | main.py:30 | the decoder's regrouping of sextets into bytes inverts the encoder's regrouping of bytes into sextets |
| Utf8.DecodeFirstOfEncodeChar | main.py:30 | strict UTF-8 decoding reads back the first character of an encoding, and exactly the bytes that encode it |
| Utf8.DecodeFirstIsEncoding | main.py:30 | a character the decoder reads is encoded by exactly the bytes it read, so no overlong form is accepted |
| Utf8.DecodeOnlyEncodings | main.py:30 | every byte string the decoder accepts is the encoding of the text it returns |
| Utf8.RoundTrip | main.py:30 | strict UTF-8 decoding inverts UTF-8 encoding for every text |
| Utf8.DecodeIff | main.py:30 | a byte string decodes to a text exactly when that text encodes to it |
| Text.Lower | main.py:50 | `str.lower()` on ASCII letters, keeping the length |
| Text.AfterLastDot | main.py:52 | `s.split('.')[-1]`: the text after the last dot, or all of `s` when it has none |
| Text.AfterLastDotIsLastSegment | main.py:52 | `split('.')[-1]` is a dot-free suffix of the name that is either the whole name or comes right after a dot |
| Text.AfterLastDotOfExtension | main.py:52 | a name ending in `.` plus a dot-free extension has that extension as its last segment |
| Assets.KindOf | main.py:50-58 | the entry's kind: image when the lower-cased name ends in an image suffix, else stylesheet when it ends in `.css`, else unknown |
| Assets.MimeOf | main.py:52-59 | the MIME type: `image/` plus the lower-cased last segment for an image, `text/css`, or `application/octet-stream` |
| Assets.Classify | main.py:49-65 | the entry stored for a name and its content: content through the heuristic for a stylesheet only, with the name's kind and MIME type |
| Assets.ImageClassification | main.py:50-52 | a name whose lower-cased form ends in `.png`, `.jpg`, `.jpeg` or `.gif` keeps its content and gets MIME type `image/` plus exactly that extension |
| Assets.OtherClassification | main.py:53-59 | a `.css` name gets `text/css` with content run through the heuristic; any other non-image name gets `application/octet-stream` with its content kept |
| Assets.ClassifyIgnoresCase | main.py:50-53 | classification depends on the name only up to ASCII case |
| Converter.ClassifyAsset | main.py:49-59 | the branch of the loop that builds an entry gives the entry the classification specifies |
| Assets.KeyOf | main.py:43-47 | the descriptor's `name` when present and non-empty, the key it is stored under; None when the descriptor is skipped |
| Assets.ContentOf | main.py:44 | `asset_data.get('content', '')` |
| Assets.Register | main.py:43-47 | a descriptor with a missing or empty name leaves the registry as it is; otherwise exactly its name is set, to the classified entry, and every other key keeps its entry |
| Assets.RegisterAll | main.py:40-65 | the registry after the descriptors, read in listing order, each registered onto the registry the ones before it left |
| Assets.InsertionOrder | main.py:61 | the dict's iteration order after the descriptors: a new name goes to the end, an overwritten name keeps its place |
| Assets.RegisterAllKeys | main.py:40-65 | after the loop the registry's keys are exactly the keys it had plus the names of the named descriptors |
| Assets.RegisterAllLastWins | main.py:61-65 | a name's entry is the one built from the last descriptor carrying that name |
| Assets.RegisterAllUntouched | main.py:46-47 | a key that no descriptor names keeps its entry, and an absent key stays absent |
| Assets.InsertionOrderLists | main.py:61 | the dict's iteration order stays a duplicate-free list of its keys, and keys already present keep their places |
| Assets.RegisterAllClassified | main.py:50-65 | every entry the loop stores is classified by the name it is stored under |
| Converter.JSReportExportConverter.constructor | main.py:9-13 | the converter starts with an empty registry |
| Converter.JSReportExportConverter.ProcessAssets | main.py:35-67 | the new registry and its order are those of registering the listed descriptors in turn onto the old ones; an absent directory changes nothing; the registry invariant is kept |
| Text.Contains | main.py:79 | `pattern in content`: whether the pattern starts at the first index, or occurs further on |
| Text.ReplaceAll | main.py:80 | `content.replace(pattern, text)`: left to right, each occurrence replaced, the inserted text not searched again |
| Text.ContainsIff | main.py:79 | the test `pattern in content` holds exactly when the pattern occurs at some index |
| Text.ReplaceAbsent | main.py:78-80 | `str.replace` of a pattern that does not occur returns the text unchanged |
| Text.ReplaceAtFirst | main.py:80 | `str.replace` replaces the first occurrence, keeps the text before it, and resumes after it in the original text |
| Substitution.CssPatterns | main.py:74-77 | there are two stylesheet tags, both starting with `{{ asset ` |
| Substitution.ImagePatterns | main.py:85-90 | there are four image patterns: two tags starting with `{{ asset ` and two `src` attributes starting with `src="{{asset ` |
| Substitution.PatternsFor | main.py:72-90 | the patterns an entry's kind calls for: the two stylesheet tags, the four image patterns, or none for an unknown entry |
| Substitution.DataUri | main.py:91 | `data:<mime>;base64,<content>` |
| Substitution.Replacement | main.py:78-100 | the text that replaces a pattern: the content for a stylesheet, `src="<data URL>"` for a `src` pattern, the data URL for the other image patterns |
| Substitution.ApplyPatterns | main.py:78-100 | each pattern replaced in turn in the content the ones before it left; a pattern that does not occur changes nothing, as the guard `pattern in content` does |
| Substitution.ApplyAsset | main.py:72-100 | one entry's turn of the outer loop: its patterns applied to the content |
| Substitution.SubstituteAll | main.py:71-102 | the entries' turns in the registry's iteration order, each on the content the ones before it left |
| Substitution.ReplacementsOfPatterns | main.py:91-100 | an image entry's two tags become the data URL `data:<mime>;base64,<content>`; its two `src` attributes become `src="<data URL>"`; a stylesheet entry's two tags become its content |
| Substitution.CssTagResolves | main.py:74-80 | for one stylesheet entry on its own: a content that is exactly the double-quoted tag becomes the stylesheet's text, provided that text does not itself hold the single-quoted tag, which is replaced next; later entries can still rewrite the result |
| Substitution.TagsAbsentFromAttribute | main.py:86-88 | the single-quoted `src` attribute contains neither spaced image tag, whatever the name |
| Substitution.SrcTagResolves | main.py:82-100 | for one image entry on its own: a content that is exactly the single-quoted `src` attribute becomes `src="<data URL>"`, provided the data URL does not itself hold the double-quoted attribute, which is replaced next |
| Substitution.NoPlaceholderUnchanged | main.py:78-102 | content in which no entry's pattern occurs is returned unchanged; with an empty registry every content is |
| Substitution.NoBracesUnchanged | main.py:69-102 | every pattern contains `{{`, so content without `{{` is returned unchanged whatever the registry holds |
| Substitution.UnknownIgnored | main.py:71-82 | entries of unknown kind never rewrite anything: dropping them from the iteration gives the same result |
| Substitution.SubstituteAppend | main.py:71 | substitution over the registry's entries is substitution over a first part of them, then over the rest |
| Converter.ReplaceCssPatterns | main.py:72-80 | the stylesheet branch replaces each stylesheet tag, in turn, everywhere it occurs |
| Converter.ReplaceImagePatterns | main.py:82-100 | the image branch replaces each image pattern, in turn, by its data URL form everywhere it occurs |
| Converter.JSReportExportConverter.ReplaceAssetsInContent | main.py:69-102 | the result is the content with every entry's patterns applied in the registry's iteration order |
| Templates.HasRewritingAsset | main.py:71-82 | some entry is a stylesheet or an image, so `pattern in content` is evaluated on the template's content |
| Templates.RewriteRecord | main.py:115-119 | the copy of the record with `content` rewritten when it is a string; the TypeError when a non-string content is searched |
| Templates.ProcessRecord | main.py:115-122 | the rewritten copy, or the KeyError of the log call when the record has no `name` |
| Templates.ProcessAll | main.py:109-122 | the output list after the records in listing order, one rewritten copy each, or the error of the first record that fails |
| Templates.ProcessTemplatesSpec | main.py:104-108 | an absent templates directory gives an empty list |
| Templates.ProcessRecordCases | main.py:114-122 | a record goes through exactly when it has `name` and no non-string `content` is searched; the output keeps every field but `content`, which is rewritten when it is a string |
| Templates.ProcessAllOk | main.py:104-124 | the run succeeds exactly when every record goes through; it then returns one record per input record, in listing order, each rewritten from its input |
| Templates.ProcessAllFirstError | main.py:109-122 | a failed run reports the error of the first record that fails, and every record before it goes through |
| Templates.ProcessAllStopsAtError | main.py:109-122 | once a record fails, the records after it do not matter |
| Templates.EmptyRegistryKeepsRecords | main.py:114-121 | with an empty registry every named record comes out exactly as it went in |
| Converter.JSReportExportConverter.RewriteTemplate | main.py:114-119 | the copy of a record has its `content` rewritten when present, or fails with the TypeError of searching non-string content |
| Converter.JSReportExportConverter.ProcessTemplates | main.py:104-124 | the loop returns what the assembly specification gives for the current registry, including its first error |
| Converter.JSReportExportConverter.Convert | main.py:126-133 | assets are registered first, then the templates are assembled against the new registry |

## Left out

- Archive extraction, the temporary directory and its removal (main.py:19-23, 134-138): file-system I/O. The directories are parameters instead.
- Globbing and `json.load` of descriptor files (main.py:40-42, 109-112): file I/O and JSON parsing. Their order is the listing order the caller passes. Invalid JSON, unreadable files and the exceptions they raise are not modelled.
- `save`, `json.dump`, the command-line entry point and `log`/`print` with the `debug` flag (main.py:15-17, 140-163): output and plumbing.
- `export_path` and `temp_dir` (main.py:10-11): used only by the I/O above.
- Text.Lower: `str.lower()` is modelled on ASCII letters only. Only two non-ASCII characters lower to text containing ASCII: U+212A becomes `k` and U+0130 becomes `i` followed by U+0307. Neither can produce the end of `.png`, `.jpg`, `.jpeg`, `.gif` or `.css`, so the suffix tests and the image extension agree with Python's.
- Descriptor `name` or `content` values that are not strings are not modelled. The model does not capture the AttributeError that `.lower()` raises on a non-string truthy name, nor a non-string stylesheet content kept by the heuristic's exception handler.
- Templates.RewriteRecord: a non-string `content` is taken to raise TypeError as soon as a stylesheet or image entry exists. This is exact for numbers, booleans and null. For a list or an object, Python's `pattern in content` does not raise. It tests membership, and the error surfaces only if a pattern is an element or key. The model does not capture that case.
- A template file whose top-level JSON value is not an object is not modelled; records are maps from field names to values.
- Exceptions raised in `process_assets` abort `convert` in Python. The model's `ProcessAssets` has no failure path, because with parsed string fields none of its steps can raise.
