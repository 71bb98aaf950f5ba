# Section extraction and cross-document alignment, modelled in Dafny

This project models the core of a small Word-document comparison tool. The
tool reads each document's paragraphs, embedded images and tables. It groups
them into a *content tree*: a map from heading text to a record of
`paragraphs`, `tables` and `figures`. It then lines the trees of several
documents up header by header, so that the documents can be shown side by
side.

The model follows the source's own form. The three passes of
`load_document` are methods with loops. Each loop is proved against a
specification function: `ParagraphPass`, `DecodeImages`, `TableGrid`,
`AttachFigures`, `AttachTables` and, for the whole of `load_document`,
`Extract`. Lemmas then prove what those functions mean. The alignment in
`main` is a method, `Compare`: `LoadAll` extracts every document and stops
at the first failure, and `Aggregate` builds the aligned view, whose
properties the predicate `AlignedView` states.

Files and modules:

- `wrappers.dfy` (`Wrappers`): `Option` and `Result`.
- `text.dfy` (`Text`): the Python string operations the code uses.
  `str.startswith`, the `in` substring test, `str.strip()` with Python's
  whitespace set, and the code-point order `sorted` applies to strings.
- `docx.dfy` (`Docx`): the parsed document. It holds paragraphs as
  (style name, text), relationships as (type, blob) in iteration order, and
  tables as rows of raw cell text. It also defines the heading and image tests.
- `sections.dfy` (`Sections`): the paragraph pass, a state machine over the
  current header, and what it builds for each key.
- `extractor.dfy` (`Extractor`): `extract_images`, the figure pass, the table
  pass, and `load_document` as a whole.
- `aggregator.dfy` (`Aggregator`): loading every document, the header union,
  the sorted visit and the per-document default lookup in `main`.

Images are opaque. The record type is generic in the image type `I`. Decoding
(`Image.open`) is a parameter `decode: Blob -> Option<I>`, where `None` stands
for the exception it raises. That exception aborts the whole extraction, and
the model returns `Failure(DecodeError)` in that case.

Behaviour the model keeps as the code has it:

- A heading installs a fresh record under its text. A repeated heading
  therefore discards what the earlier occurrence collected
  (main_streamlit_version.py:30).
- Each row of `df_table` is sized by its own cell count (line 44), so the
  grid built by lines 44-47 may be ragged.
- Paragraphs are appended once a header exists (`is not None`, line 31).
  Figures and tables are attached only when the final header is truthy
  (`if current_header:`, lines 40 and 49). A final heading with empty text
  therefore gets paragraphs but no figures or tables.
- Every image relationship is decoded, even when nothing will be attached
  (lines 37-40). So a bad blob fails the extraction even in a document
  without headings.

## Model

| member | source | states |
|---|---|---|
| Docx.IsHeading | main_streamlit_version.py:28 | a paragraph is a heading when its style name starts, case-sensitively, with "Heading" |
| Docx.IsImage | main_streamlit_version.py:13 | a relationship is an image when its type contains "image" (its substring meaning is stated by `Text.ContainsOccurs`) |
| Text.ContainsOccurs | main_streamlit_version.py:35 | the `in` test on the relationship type holds exactly when the substring occurs at some position |
| Text.TrimStart | main_streamlit_version.py:47 | the result is a suffix of the input, everything removed is whitespace, and the result does not start with whitespace |
| Text.TrimEnd | main_streamlit_version.py:47 | the result is a prefix of the input, everything removed is whitespace, and the result does not end with whitespace |
| Text.Strip | main_streamlit_version.py:47 | `cell.text.strip()` is a contiguous piece of the cell text with only whitespace cut on either side, and it neither starts nor ends with whitespace |
| Text.MinimumExists | main_streamlit_version.py:138 | every non-empty set of headers has a least element in Python's string order, which is what makes the sorted visit possible |
| Sections.LastHeading | main_streamlit_version.py:28-29 | the position it finds is a paragraph whose style starts with "Heading" |
| Sections.LastHeadingIsLast | main_streamlit_version.py:27-29 | no heading follows the position found, and there is no position exactly when the document has no heading, so `current_header` stays None |
| Sections.CurrentHeader | main_streamlit_version.py:25-29 | `current_header` after the loop is None exactly when no paragraph is a heading |
| Sections.LastHeadingWith | main_streamlit_version.py:28-30 | the position it finds is a heading whose text is the key |
| Sections.LastHeadingWithIsLast | main_streamlit_version.py:28-30 | no later heading has the key as its text, and there is no position exactly when no heading has that text |
| Sections.ParagraphPass | main_streamlit_version.py:27-32 | after the paragraph loop the current header, if any, has a record |
| Sections.ParagraphPassSection | main_streamlit_version.py:27-32 | a key is in the tree exactly when some heading has it as its text; its record holds, in document order, the texts of the non-heading paragraphs after the LAST such heading up to the next heading, with no tables and no figures |
| Sections.HeadingFreePrefix | main_streamlit_version.py:25-32 | paragraphs before the first heading change neither the tree nor the current header |
| Extractor.ImageIndices | main_streamlit_version.py:34-35 | the listed positions increase, each is an image relationship, and no image relationship is left out |
| Extractor.ImageBlobsAt | main_streamlit_version.py:34-37 | the blobs decoded are those of the image relationships, one per position, in iteration order |
| Extractor.DecodeAll | main_streamlit_version.py:17 | decoding succeeds exactly when every blob decodes, and then yields one image per blob, in order |
| Extractor.DecodeImagesMeaning | main_streamlit_version.py:10-19 | `extract_images` fails exactly when some image relationship's blob does not decode; otherwise it returns one decoded image per image relationship, in iteration order, and none for the others |
| Extractor.DecodeImages | main_streamlit_version.py:10-19 | on success there is exactly one image per image relationship |
| Extractor.ExtractImages | main_streamlit_version.py:10-19 | the loop returns what `DecodeImages` specifies |
| Extractor.TableGrid | main_streamlit_version.py:44-47 | a table's grid has one row per table row; row i has exactly as many entries as row i has cells; entry [i][j] is the stripped text of cell j of row i |
| Extractor.Grids | main_streamlit_version.py:43-47 | one grid per table, in table order, each the `TableGrid` of that table |
| Extractor.FillRow | main_streamlit_version.py:46-47 | the inner loop overwrites every pre-allocated entry of a row with the stripped text of its cell, so the row is exactly `StripCells` of the cells |
| Extractor.BuildGrid | main_streamlit_version.py:44-47 | pre-allocating empty strings and filling them in with two nested loops yields exactly the grid `TableGrid` specifies |
| Extractor.Truthy | main_streamlit_version.py:40 | `if current_header:` holds when a header is present and its text is not empty (the same test guards line 49) |
| Extractor.AttachFigures | main_streamlit_version.py:40-41 | the keys are unchanged; only a truthy header's record changes, and only its figures, which gain the images at the end |
| Extractor.AttachTables | main_streamlit_version.py:49-50 | the keys are unchanged; only a truthy header's record changes, and only its tables, which gain the grids at the end |
| Extractor.GroupParagraphs | main_streamlit_version.py:24-32 | the paragraph loop builds `ParagraphPass` and leaves `current_header` as the text of the last heading |
| Extractor.AddFigures | main_streamlit_version.py:34-41 | the figure loop fails when `DecodeImages` fails; otherwise it appends all decoded images to the figures of a truthy current header and changes nothing else |
| Extractor.AddTables | main_streamlit_version.py:43-50 | the table loop appends every grid, in table order, to the tables of a truthy current header and changes nothing else |
| Extractor.LoadDocument | main_streamlit_version.py:21-52 | `load_document` returns exactly `Extract` |
| Extractor.Extract | main_streamlit_version.py:21-52 | a successful extraction has exactly the keys of the paragraph pass, and the figure and table passes leave every key's paragraphs as the paragraph pass built them |
| Extractor.ExtractFails | main_streamlit_version.py:34-39 | the extraction fails exactly when some image relationship's blob does not decode, whatever the headings |
| Extractor.ExtractSection | main_streamlit_version.py:27-32 | in a successful extraction a key is present exactly when some heading has that text, and its paragraphs are those after the last such heading up to the next heading |
| Extractor.ExtractAttachesToFinalHeader | main_streamlit_version.py:40-41 | every record other than that of a truthy final header has no figures and no tables; with no heading, or a final heading with empty text, nothing is attached |
| Extractor.ExtractFinalFigures | main_streamlit_version.py:34-41 | a truthy final header holds one figure per image relationship, each the decoded blob of that relationship, in iteration order |
| Extractor.ExtractFinalTables | main_streamlit_version.py:43-50 | a truthy final header holds one grid per table, each the `TableGrid` of that table, in table order |
| Extractor.ExtractIgnoresLeadingText | main_streamlit_version.py:25-32 | prefixing paragraphs that are not headings leaves the extraction unchanged |
| Aggregator.AllHeaders | main_streamlit_version.py:116-118 | `all_headers` is exactly the union of the documents' key sets |
| Aggregator.SortHeaders | main_streamlit_version.py:138 | `sorted(all_headers)` lists every header once, in strictly increasing string order, and nothing else |
| Aggregator.LoadAll | main_streamlit_version.py:113 | every document is extracted in order; the result fails exactly when some document fails, and otherwise holds document d's tree at position d |
| Aggregator.Lookup | main_streamlit_version.py:143-147 | `content.get(header, {}).get(field, [])` for all three fields: the document's own record, or empty lists when it lacks the header |
| Aggregator.Aggregate | main_streamlit_version.py:116-148 | the rows are the union of all keys in strictly increasing order; each row has one record per document, in input order; document d's slot is its own record or an empty one; every row has a document that owns its header |
| Aggregator.Compare | main_streamlit_version.py:113-148 | the comparison fails exactly when some document fails to extract; otherwise it is the aligned view of the extracted trees |

## Left out

- Streamlit: page setup, title, file upload, columns, subheaders, the CSS and
  HTML markdown, `display_multiple_documents` and every `st.write`,
  `st.dataframe` and `st.image` call. These are presentation and I/O. The
  aligned view is returned as a value rather than rendered.
- The commented-out `display_side_by_side` and the old `main`. They are dead
  code.
- python-docx parsing (`Document(filepath)`, style names, `part.rels`,
  `cell.text`). The document arrives already parsed, so a parse failure is
  not modelled. How python-docx lists merged cells is not modelled either.
- PIL decoding. It is the opaque parameter `decode`; a `None` result stands
  for the exception.
- The pandas `DataFrame` wrapper (line 48). `df_table` (lines 44-47) is a
  ragged list of rows; `pd.DataFrame` pads its short rows with missing values,
  and that padded frame is what line 50 appends to `tables`. The model keeps
  the ragged `df_table` grid and leaves the wrapper and its padding out.
- The gate that requires more than one uploaded file. `Aggregate` accepts any
  number of documents.
- Python strings that hold lone surrogate code points. Dafny characters are
  Unicode scalar values, and the string order compares them by code point as
  Python does.
- Determinism of `load_document`. The model is made of functions and
  deterministic methods, so no separate statement is needed.
