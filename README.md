# ai_product_finder: the reply parser and the upsert-by-hash

This project models the two parts of `process_image` (in `mypwa/myapp/views.py`) that hold logic, together with the catalogue row they store.

The application photographs a product and asks a vision model to describe it. The model answers with one comma-separated line `object_name,color,HxW,manufacturer,specification,description`, and the application works with that line as follows:

- **ReplyParser** turns the line into the fields of a row. The dimension field is split on `x` and shown as `Height=<h>cm, Width=<w>cm`. The last three fields are stripped and become `""` when they are missing. A non-empty transcription of the user's audio note replaces the description.
- **Catalog** looks the image up by its content hash.
  - When some row already has that hash, the first such row is counted once more and takes the new description and image. Its stored fields are returned for display.
  - Otherwise a new row with count 1 is appended, and the parsed fields are returned.

The modules:

- **Records** is the `ImageData` row from `mypwa/myapp/models.py`: its nine columns, the defaults for `count` and `image`, the declared column widths and the `__str__` text form.
- **Text** models the pieces of Python's string handling the code relies on: `str.split` with a one-character separator, `str.strip()` with Python's whitespace set, and `str(int)`.
- **Catalog** holds the table. The class `ImageTable` keeps its rows as a sequence in primary-key order. Its `Upsert` method changes the rows in place and is proved against the value-level function `Upserted`. The properties of a hit, a miss and repeated uploads are proved as lemmas about that function.
- **Wrappers** holds `Option` and `Result`.

Inputs the model takes as they are:

- The vision model's reply and the audio transcription are parameters. The transcription is `None`, or `Some` of a text.
- The image hash is an opaque text.
- The uploaded file is an `ImageFile` value that carries its name.

Two behaviours of the code that the model keeps as written:

- A reply with fewer than three comma fields, or whose third field holds no `x`, raises `IndexError`. These are the `FieldMissing(1)`, `FieldMissing(2)` and `WidthMissing` errors of `ParseError`. Only fields 3 to 5 fall back to `""`.
- The dimension field is split on every `x`, and the first two pieces are taken. So the width is the text between the first and the second `x`, and anything after a second `x` is dropped.

## Model

| member | source | states |
|---|---|---|
| Text.Split | mypwa/myapp/views.py:111 | `str.split(',')` gives at least one piece and no piece holds the separator |
| Text.SplitCount | mypwa/myapp/views.py:111 | the number of pieces is the number of separators plus one |
| Text.JoinSplit | mypwa/myapp/views.py:111 | the pieces joined with the separator give back the split text |
| Text.SplitJoin | mypwa/myapp/views.py:111 | splitting a join of separator-free pieces gives back exactly those pieces |
| Text.SplitAfter | mypwa/myapp/views.py:114 | a text whose first separator follows `a` splits into `a` and the pieces of the rest |
| Text.SplitNone | mypwa/myapp/views.py:114 | a text without the separator is a single piece |
| Text.IndexOf | mypwa/myapp/views.py:111 | the position of the first separator, or the length when there is none |
| Text.LeadingSpaces | mypwa/myapp/views.py:118 | the length of the whitespace run that opens the text, followed by a non-space |
| Text.TrailingSpaces | mypwa/myapp/views.py:118 | the length of the whitespace run that closes the text, preceded by a non-space |
| Text.Strip | mypwa/myapp/views.py:118-120 | `strip()` gives the slice after the leading whitespace, followed in the text only by whitespace, and it neither starts nor ends with whitespace |
| Text.StripMargins | mypwa/myapp/views.py:118-120 | stripping whitespace margins around a trimmed core gives that core |
| Text.StripTrimmed | mypwa/myapp/views.py:118-120 | a text with no whitespace at either end is unchanged by `strip()` |
| Text.StripIdempotent | mypwa/myapp/views.py:118-120 | stripping twice is stripping once |
| Text.LeadingSpacesMargin | mypwa/myapp/views.py:118 | a whitespace prefix before a non-space is exactly the leading run |
| Text.TrailingSpacesMargin | mypwa/myapp/views.py:118 | a whitespace suffix after a non-space is exactly the trailing run |
| Text.NatToString | mypwa/myapp/models.py:16 | the decimal form of a natural number is all digits, with no leading zero unless it is "0" |
| Text.IntToString | mypwa/myapp/models.py:16 | `str(count)` is a numeral that starts with `-` exactly when the count is negative, and its digits have no leading zero unless they are "0" |
| Text.NatToStringValue | mypwa/myapp/models.py:16 | reading the digits back gives the number |
| Text.IntToStringValue | mypwa/myapp/models.py:16 | reading `str(n)` back gives `n` |
| Records.Create | mypwa/myapp/models.py:4-13 | a row created without `count` has count 1 and exactly the given columns |
| Records.CreateWithDefaults | mypwa/myapp/models.py:7-8 | a row created without `count` and `image` has count 1, the image "images/default.jpg" and exactly the given text columns |
| Records.DisplayReadsBack | mypwa/myapp/models.py:15-16 | `__str__` is the object name, " (", the color, "): " and a numeral whose value is the count, each at its position; the numeral starts with `-` exactly when the count is negative, and has no leading zero unless its digits are "0" |
| ReplyParser.ParseFailsExactly | mypwa/myapp/views.py:111-116 | no comma gives `FieldMissing(1)` and one comma gives `FieldMissing(2)`; with two or more commas the parse fails exactly when field 2 holds no `x`, and then with `WidthMissing` |
| ReplyParser.NameAndColor | mypwa/myapp/views.py:111-113 | on success the object name and color are comma-free, unstripped, and the reply starts with them, each followed by a comma |
| ReplyParser.DimensionsFromThirdField | mypwa/myapp/views.py:114-117 | when field 2 is `h x w` followed by nothing or by another `x`, with no `x` in `h` or `w`, the parse succeeds with dimensions from `h` and `w` |
| ReplyParser.SplitHeightWidth | mypwa/myapp/views.py:114-116 | a dimension field `h x w`, followed by nothing or by another `x`, splits on `x` into pieces whose first two are `h` and `w` |
| ReplyParser.TrailingFields | mypwa/myapp/views.py:118-120 | manufacturer and specification are stripped fields 3 and 4 or `""`; without a transcription the description is stripped field 5 or `""` |
| ReplyParser.TranscriptionOverrides | mypwa/myapp/views.py:120 | a non-empty transcription replaces only the description, and never changes whether the parse fails; an empty or absent one changes nothing |
| ReplyParser.ThreeFieldReply | mypwa/myapp/views.py:110-120 | a reply of only the three mandatory fields parses, with manufacturer, specification and (without a transcription) description all `""` |
| ReplyParser.SixFieldReply | mypwa/myapp/views.py:110-120 | a well-formed six-field reply parses into its fields, the last three stripped and the description overridden by a transcription |
| ReplyParser.DeskLampDimensions | mypwa/myapp/views.py:117 | height "30" and width "15" give "Height=30cm, Width=15cm" |
| ReplyParser.DeskLampStrips | mypwa/myapp/views.py:118-120 | the trailing sample fields are unchanged by stripping |
| ReplyParser.DeskLampFields | mypwa/myapp/views.py:110-120 | the sample reply's fields, joined by commas, parse into those fields with its dimension text |
| ReplyParser.DeskLampReply | mypwa/myapp/views.py:110-120 | "Lamp,Black,30x15,IKEA,Metal base,A simple desk lamp" parses into Lamp / Black / Height=30cm, Width=15cm / IKEA / Metal base / A simple desk lamp |
| ReplyParser.DeskLampWithTranscription | mypwa/myapp/views.py:120 | with a non-empty transcription the sample reply's description is the transcription, and the other fields are unchanged |
| Catalog.FirstMatch | mypwa/myapp/views.py:123 | `filter(image_hash=…).first()` is the lowest index whose hash matches, and there is none exactly when no row matches |
| Catalog.Summary | mypwa/myapp/views.py:130-137 | the returned dict has exactly six keys, each mapped to its column, with the specification under "specifications" and no "specification" key |
| Catalog.NewRowIsDefault | mypwa/myapp/views.py:140-150 | the explicit `count=1` of the insert agrees with the column default |
| Catalog.UpsertHit | mypwa/myapp/views.py:123-137 | on the first matching row the count grows by one and description and image are replaced, with the other columns, the other rows and the length unchanged; the dict shows the stored fields with the new description |
| Catalog.UpsertMiss | mypwa/myapp/views.py:139-159 | exactly one row is appended, with count 1, the parsed fields and the hash; existing rows are untouched and the dict shows the parsed fields |
| Catalog.UpsertKeepsCountsPositive | mypwa/myapp/views.py:126 | every count stays at least 1 |
| Catalog.UpsertKeepsHashesUnique | mypwa/myapp/views.py:123-150 | sequential upserts never give a hash a second row |
| Catalog.UpsertCountsOneUpload | mypwa/myapp/views.py:122-150 | the sum of the counts grows by exactly one per upload |
| Catalog.TotalCountUpdate | mypwa/myapp/views.py:126-129 | replacing one row changes the sum of counts by the difference of the two counts |
| Catalog.RepeatUpload | mypwa/myapp/views.py:122-159 | uploading the same unseen image twice leaves one new row, with count 2 and the second upload's description and image |
| Catalog.DistinctUploads | mypwa/myapp/views.py:139-150 | two uploads with different unseen hashes append two rows, each with count 1 |
| Catalog.UpsertKeepsCaps | mypwa/myapp/models.py:5-13 | with inputs that fit the declared widths, every row stays within them |
| Catalog.ImageTable.constructor | mypwa/myapp/models.py:4 | a new table is empty |
| Catalog.ImageTable.Upsert | mypwa/myapp/views.py:122-159 | the rows and the returned dict are those of `Upserted`; counts stay positive, the count sum grows by one and unique hashes stay unique |
| Catalog.ImageTable.Process | mypwa/myapp/views.py:110-159 | a reply that does not parse leaves the table unchanged and reports the error; one that parses is upserted |

## Left out

- The HTTP views `upload_files`, `image_list` and `image_detail`, `render` and the templates are request plumbing around the core.
- Saving the uploads with `FileSystemStorage`, removing them afterwards and printing deletion errors is file I/O.
- `transcribe_audio` and the chat-completion call, including its prompt, go to an outside service. Their results are parameters of the model.
- `generate_image_hash` (MD5 over 4096-byte chunks) and `image_to_base64` are library cryptography and encoding. The hash is an opaque text input.
- Django ORM persistence (`save`, `create`, the database query) is modelled as the in-memory sequence of `ImageTable`.
- The lookup-then-write race between two concurrent uploads of the same image is not modelled, because the model is sequential. `UpsertKeepsHashesUnique` holds only for sequential upserts.
- `ImageField` storage and PIL are left out. An image is only its file name.
- Records.WithinCaps: the declared `max_length` widths are stated as a predicate and preserved by `UpsertKeepsCaps`, but nothing rejects a longer value. Whether the database enforces them depends on the backend.
- Catalog.UpsertHit: `count` is an unbounded integer, so the 32-bit range of `IntegerField` and a database error on overflow are not modelled.
- ReplyParser.DeskLampReply: the sample reply is stated as the comma-join of its six fields rather than as one string literal. This is the same text, and it keeps the proof small.
- Python truthiness of a transcription that is not a text is not modelled. The transcription is either absent or a text.
