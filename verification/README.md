# word_vec-rs in Dafny

A model of the core of `word_vec-rs`, a small word-embedding library. The model covers:

- **The `VecSpace` store.** A flat buffer of `f32` values cut into `dimension`-sized segments. A `words` list runs alongside it, with one term per segment, plus an optional map from each term to its index.
- **The `Vector` / `OwnedVector` records** and their algebra.
- **The `.vec` text format.** This covers both the exporter that writes a store and the parser that reads one back.
- **The cursor that walks a store.**

Everything is an immutable datatype plus pure functions. The one exception is `top_k`, which is a method with a loop.

Modules, one per file:

| module | file | models |
|---|---|---|
| `Wrappers` | wrappers.dfy | `Option`, `Result` and `Outcome` |
| `Utf8` | utf8.dfy | bytes, and UTF-8 encoding/decoding of strings (`as_bytes`, `from_utf8`) |
| `Text` | text.dfy | string helpers: `find`, `trim`, `split`, join, `usize` parsing, `read_until` line cutting |
| `Vectors` | vectors.dfy | src/vector.rs |
| `Space` | space.dfy | src/space.rs |
| `SpaceIter` | iter.dfy | src/iter.rs |
| `Floats` | floats.dfy | the float format, supplied as a parameter |
| `Export` | export.dfy | src/export.rs |
| `Parse` | parse.dfy | src/parse.rs, the text path |
| `RoundTrip` | roundtrip.dfy | export followed by parse |

Modelling choices:

- **Values.** Values are `real`. Anything the source gets from `f32` is a parameter:
  - the square root;
  - the decimal text of a value and its parse;
  - the value's 32-bit pattern.

  The float format is a `FloatFormat(show, parse, bits)` record. Where a proof needs `parse(show(x)) == Some(x)`, that is a hypothesis of the lemma, not an axiom.
- **Writers and readers.** A writer is a byte sequence that every write appends to. A reader is its whole input, cut into lines the way `read_until(b'\n')` cuts it.
- **Errors.** An error returned with `?` is `Outcome.Failed(message)`. A panic is `Outcome.Panicked(reason)`; this covers `unwrap`, `todo!()`, and string slicing out of range or off a character boundary. Panics whose condition is the caller's duty are `requires` clauses:
  - the `assert_eq!` in `Add`;
  - the dimension panic in `extend`;
  - the header check in `export_vectors`.
- **Term index width.** The index stores positions as `u32`. The truncating cast is written out (`% 2^32`). The lemma that `find_term` finds the last position assumes the store holds at most 2^32 records.
- **Header argument order.** `export_space_filtered` calls `write_header(len, dim)` against the signature `write_header(dim, len)`. The header therefore holds the record count first and the dimension second. That is the order `parse_header_txt` reads, `(count, dim)`. The model follows the code here. A description that puts the dimension first would not match the bytes written.
- **Where a line's value part ends.** `parse_vec_txt` ends a line's value part one character before the line's end. The model makes this a parameter, `LineEnd`:
  - `DropLastChar` is the source's rule.
  - `DropNewline` drops the last character only when it is the line break.

  `Parse.ParseAsWritten` uses the source's rule. `Parse.ParseInput` uses the corrected one (see Findings).

## Model

| member | source | states |
|---|---|---|
| Vectors.AsRef | src/vector.rs:100-102 | the view has the owned record's data and term, so its dimension is the owned dimension |
| Vectors.NewOwned | src/vector.rs:94-96 | viewing a new owned record gives back exactly the data and term it was built from |
| Vectors.NewRaw | src/vector.rs:89-91 | viewing a record built from raw parts gives back those parts |
| Vectors.Add | src/vector.rs:141-160 | requires equal dimensions (the `assert_eq!`); the sum keeps the dimension, each element is the sum of the two elements at that index, and the term is the two terms joined by one space |
| Vectors.OwnedAdd | src/vector.rs:162-171 | adding to an owned record has the same dimension, elements and term as adding to its view |
| Vectors.Cosine | src/vector.rs:41-58 | 0 when the dot product is 0 or the product of the lengths is 0; otherwise the result times that product is the dot product |
| Vectors.OwnedCosine | src/vector.rs:133-138 | an owned record's cosine equals its view's cosine, and is 0 when the dot product is 0 |
| Vectors.DotSymmetric | src/vector.rs:61-72 | the dot product is the same with the arguments swapped |
| Vectors.DotTruncates | src/vector.rs:61-72 | the dot product over the zip equals the dot product of the two data cut to the shorter length |
| Vectors.DotOfSum | src/vector.rs:61-72 | the dot product of a sum of records is the sum of the dot products |
| Vectors.CosineOfZero | src/vector.rs:47-50 | a record whose data is all zeros has cosine 0 with any record |
| Vectors.CosineSymmetric | src/vector.rs:41-58 | cosine is the same with the arguments swapped |
| Vectors.CosineSelf | src/vector.rs:41-58 | given a true square root, a record of non-zero length has cosine 1 with itself |
| Space.IndexTerms | src/space.rs:171-180 | the backfilled index holds exactly the stored terms, each mapped to its last position cast to `u32` |
| Space.New | src/space.rs:27-34 | the new store is valid (buffer length = records × dimension), empty, has the given dimension and no index |
| Space.WithTermmap | src/space.rs:39-47 | enabling the index keeps the data, terms and dimension, turns the index on, and makes it agree with the stored terms |
| Space.Insert | src/space.rs:101-118 | fails, with the source's message, exactly when the record's dimension differs; on success it appends the data and term, keeps dimension and index mode, and preserves validity |
| Space.Get | src/space.rs:121-126 | on a valid store the result is `None` exactly when the position is past the end; a found record has the stored term and the store's dimension |
| Space.RecordSegment | src/space.rs:121-126 | the record at a position is the segment `[pos*dim, pos*dim+dim)` of the buffer, and that segment is in bounds |
| Space.FindTermIdx | src/space.rs:166-168 | with no index it is `None`; with one it is found exactly when the term is stored, at its last position |
| Space.FindTerm | src/space.rs:151-153 | with no index it is `None`; anything found is a stored term |
| Space.FindTermFindsLast | src/space.rs:111-113 | with the index on, `find_term` finds a term exactly when it was inserted, and returns the record at its last position (last writer wins) |
| Space.Clear | src/space.rs:156-162 | the cleared store is valid and empty, keeps the dimension, and keeps an enabled index enabled but empty |
| Space.InsertThenGet | src/space.rs:101-126 | after an insert, `get(old len)` is the inserted record and every other position reads as before |
| Space.Extend | src/space.rs:187-198 | requires every item to have the store's dimension (the panic); appends the terms and data in order, keeps dimension and index mode, preserves validity |
| Space.ExtendThenGet | src/space.rs:187-198 | after `extend`, earlier positions read as before and the new positions read the items in order |
| Space.IndexLateEqualsIndexEarly | src/space.rs:39-47 | enabling the index after inserting gives the same store as enabling it before |
| Space.WithTermmapIdempotent | src/space.rs:39-47 | enabling the index twice is the same as once |
| Space.TopK | src/space.rs:130-147 | returns min(k, len) pairs with descending scores. Each pair is a distinct stored record with its score. No record left out scores above any included one |
| Space.TopKScan | src/space.rs:130-145 | after the scan the kept candidates are the best min(k, len) positions by score, in descending order |
| Space.OfferSpec | src/space.rs:138-144 | offering a candidate to the bounded queue keeps it sorted. It keeps only old members and the candidate, and drops nothing that scores above a kept one. While there is room it drops nothing, and when full nothing kept scores below the old minimum |
| Space.TopKStep | src/space.rs:138-144 | one scan step preserves the invariant: kept entries are the best so far, and every dropped position scores no higher than any kept one |
| SpaceIter.NewIter | src/iter.rs:11-13 | a new cursor is over the given store at position 0 |
| SpaceIter.Next | src/iter.rs:20-24 | yields `get(pos)` and advances by exactly one; when `get(pos)` is `None` the cursor does not move |
| SpaceIter.Records | src/space.rs:121-126 | the list of all records has one entry per position, each the one `get` returns |
| SpaceIter.DrainAll | src/iter.rs:16-25 | draining a fresh cursor yields exactly `get(0)`, …, `get(len-1)` |
| Export.NewExporter | src/export.rs:25-33 | a new exporter uses space separators, text mode, and has no header written |
| Export.UseBinary | src/export.rs:36-39 | switches to binary mode and changes nothing else |
| Export.WriteHeader | src/export.rs:141-148 | appends its first argument, a space and its second argument, marks the header written, and counts the bytes written |
| Export.WriteVectorTxt | src/export.rs:117-138 | appends a line break, the term, the term separator, and the values' text joined by the value separator; the count is every byte appended |
| Export.WriteValuesTxtLayout | src/export.rs:127-135 | the value loop writes a separator before every value but the first, and counts every byte |
| Export.ValuesTextJoin | src/export.rs:127-135 | the value loop's text is the values' text joined by the separator |
| Export.WriteVectorBin | src/export.rs:106-114 | appends the term, a space and four little-endian bytes per value; the count leaves out the value bytes |
| Floats.LeBytes | src/export.rs:110-112 | the four bytes written for a value read back, least significant first, as its 32-bit pattern |
| Export.WriteVector | src/export.rs:97-103 | appends the record in the exporter's mode; the count is every byte in text mode, term plus one in binary mode |
| Export.ExportVectors | src/export.rs:79-94 | requires the header written; appends every record in order; in text mode the count is the bytes written, in binary mode the term bytes plus one per record |
| Export.Filter | src/export.rs:50-73 | keeps exactly the records the filter accepts, never more records than given |
| Export.ExportTextLayout | src/export.rs:50-73 | text export appends the header with the store's full count first, then each kept record in store order, each preceded by a line break; the count is every byte written |
| Export.ExportBinaryLayout | src/export.rs:50-73 | binary export appends the header, a line break, then each kept record; the count leaves out the value bytes |
| Export.ExportSpaceWritesAll | src/export.rs:44-46 | exporting a whole store writes the header and then every record in store order |
| Parse.Default | src/parse.rs:216-226 | the default parser reads a header, uses space separators, text mode, no index |
| Parse.NewParser | src/parse.rs:25-27 | `new` is the default configuration |
| Parse.Binary | src/parse.rs:30-33 | switches to binary mode and changes nothing else |
| Parse.NoHeader | src/parse.rs:36-39 | turns the header off and changes nothing else |
| Parse.CustTermSeparator | src/parse.rs:42-45 | sets the term separator and changes nothing else |
| Parse.CustVecSeparator | src/parse.rs:48-51 | sets the value separator and changes nothing else |
| Parse.SetIndexTerms | src/parse.rs:54-57 | sets the index flag and changes nothing else |
| Parse.FromUtf8 | src/parse.rs:145 | succeeds exactly on valid UTF-8, and the decoded string encodes back to the input |
| Parse.ParseHeaderTxt | src/parse.rs:208-213 | a header reads exactly when its first two space-separated tokens parse as `usize`, and then gives them as count and dimension, ignoring any further tokens. A first token that does not parse fails with its own error; so does a second one after a good first. The missing-second-token panic happens exactly when the line has no space and parses whole as a `usize` |
| Parse.FromStrAgrees | src/parse.rs:210-211 | `usize::from_str`, run digit by digit as the standard library does, reads exactly the strings `ParseUsize` accepts, with the same value. A string it rejects gets the error kind `UsizeErrorKind` gives: empty, overflow when the leading digits alone reach 2^64 (even if a non-digit follows), and otherwise invalid digit |
| Parse.ParseHeader | src/parse.rs:191-206 | binary headers reach `todo!()`; a text header that is not UTF-8 fails with the decode error; a UTF-8 header is read by the text reader from the trimmed line |
| Parse.ParseValues | src/parse.rs:158-165 | succeeds exactly when every token parses, giving one value per token; otherwise fails with the error of the first token that does not parse |
| Parse.ParseVecTxt | src/parse.rs:151-169 | fails with "Invalid format" exactly when the line has no term separator, and panics exactly when the value slice is out of range or off a character boundary. A record read has the line's prefix up to the first separator as term, and as values the parses of the separator-free pieces of the value part, one per piece. It reads whenever the slice is possible and every piece parses; otherwise it fails with the error of the first piece that does not parse |
| Parse.ParseVecBin | src/parse.rs:172-189 | never yields a record: fails without a space, and reaches `todo!()` once the term decodes |
| Parse.ParseVec | src/parse.rs:137-148 | binary mode never yields a record; a text line that is not UTF-8 fails; otherwise it is the text reader on the decoded line |
| Parse.ParseLines | src/parse.rs:93-125 | the loop after the first line either stops, or every line reads as a record and the result is the store extended by those records in order. The records all have the store's dimension; the index mode is kept, the store is only appended to, and validity is preserved |
| Parse.ParseLinesComplete | src/parse.rs:93-125 | lines that all read as records of the store's dimension are all inserted: the loop ends with the store extended by those records |
| Parse.ParseFirst | src/parse.rs:103-111 | the first line gives a valid store without index, empty with a header and holding one record without |
| Parse.HeaderFixesDimension | src/parse.rs:104-106 | with a header, the store starts empty with the header's dimension and the count is ignored |
| Parse.FirstRecordFixesDimension | src/parse.rs:107-111 | without a header, the first record fixes the dimension and is the store's first record |
| Parse.WrongDimensionFails | src/parse.rs:124 | in the read loop after the first line, a record of another dimension ends the read with the insert's error |
| Parse.ParseWith | src/parse.rs:85-128 | empty input fails with "Nothing to parse". A result is valid, has the index exactly when `index_terms` was set, and holds one record per line minus the header. It is the store built from the records the input reads as: with a header, the header's dimension and one record per later line; without, one record per line, all of the first one's dimension |
| Parse.ParseWithComplete | src/parse.rs:85-128 | an input that reads as records of one dimension parses: with a header giving the dimension, or without one, the result is the store built from those records, indexed as configured |
| Parse.ParseInput | src/parse.rs:85-128 | the corrected parser, where a line's values end before its line break: empty input fails, binary never succeeds, and a result is valid, indexed as configured, one record per line minus the header, and built from the records the input reads as. Conversely, every input that reads as records of one dimension gives that store |
| Parse.ParseAsWritten | src/parse.rs:85-128 | the parser as written, where a line's last character is dropped: empty input fails, binary never succeeds, and a result is valid, indexed as configured, one record per line minus the header, and built from the records the input reads as under that rule. Conversely, every input that reads so gives that store |
| RoundTrip.HeaderReadsBack | src/export.rs:141-148 | the header the exporter writes parses back as (count, dimension), with or without a line break |
| RoundTrip.LinesOfExport | src/export.rs:117-138 | cut into lines, a text export is the header line, then one line per record, each ending in a line break except the last |
| RoundTrip.RecordReadsBack | src/parse.rs:151-169 | a record line written by the exporter reads back as the same record under the corrected rule |
| RoundTrip.RecordLinesReadBack | src/parse.rs:122-125 | the record lines of an export, read into a store, give that store extended by the records |
| RoundTrip.RecordsRebuild | src/space.rs:187-198 | a store without index is the empty store of its dimension extended by its own records |
| RoundTrip.TextRoundTrip | src/export.rs:158-175 | exporting with the default exporter and parsing with the default (corrected) parser gives back the same store, for records the text format can carry |
| RoundTrip.LastLineFailsAsWritten | src/parse.rs:160 | under the source's rule, a last record line whose last value prints as one character does not read |
| RoundTrip.RecordLinesPanicAsWritten | src/parse.rs:124 | under the source's rule, the record lines of such an export make the read loop panic |
| RoundTrip.ExportThenParseAsWrittenPanics | src/parse.rs:151-169 | any non-empty store whose last value prints as one character, once exported, makes the parser as written panic, while the corrected parser reads it back |
| Utf8.DecodeEncode | src/export.rs:121 | decoding the UTF-8 encoding of a string gives back the string |
| Utf8.EncodeDecode | src/parse.rs:145 | a byte sequence that decodes encodes back to itself |
| Text.SplitJoin | src/parse.rs:158-161 | splitting a join of separator-free pieces at the separator gives back the pieces |
| Text.Lines | src/parse.rs:93-101 | the lines concatenate back to the input; every line is non-empty, every line but the last ends with the line break, and no line holds one anywhere else |
| Text.ParseUsizeNatToString | src/parse.rs:208-213 | the decimal text of a number below 2^64 parses back as that number |

## Left out

- Arithmetic is on `real`, so f32 rounding, NaN, infinities and the accuracy of `sqrt` are not modelled. The square root and float text are parameters.
- Float formatting and parsing are a `FloatFormat` parameter. Round-trip facts about them are lemma hypotheses.
- The nalgebra `vec()` view behind `dot` and `length`, and the `AsVectorRef` conversion trait (src/as_vector.rs), are not modelled. The model uses one `Vector` datatype, and the records' `data`/`term` accessors are its fields.
- Vectors.CosineSelf: holds only for a true square root. Cauchy–Schwarz (|cosine| ≤ 1) is not proved.
- Space.TopK: the tie order of the `priority_container` queue is not modelled; any order of equal scores is allowed. The positions of the picked records are ghost.
- Space.FindTermFindsLast: assumes at most 2^32 records. Beyond that the `u32` cast wraps, and the model writes the wrap out but proves nothing about it.
- `usize` overflow of `pos * dimension` in `get` and `insert` is not modelled.
- `is_empty`, `terms`, `shrink_to_fit`, `total_cap` and `reserve` are not modelled. They are length tests or capacity management and do not change the store's contents.
- I/O errors, partial writes and `flush` are not modelled: every write appends its whole buffer. `parse_file` and `File`/`BufReader` are not modelled, and the `unwrap` on `read_until`'s I/O result cannot fail here.
- The parser's reusable float buffer is not modelled. It is an allocation detail.
- Binary parsing (`parse_vec_bin`, `parse_header_bin`) ends in `todo!()`. It is modelled as a panic, and the debug `println!` before it is dropped. The binary round trip is not modelled for the same reason.
- `parse_into` is commented out in the source and is not modelled.
- Panic reasons are labels. Their text is not the exact runtime message, and UTF-8 errors carry no byte position.
- Export.Filter: states membership and not order. Order is fixed by its definition, which `Export.ExportTextLayout` uses directly.
- src/main.rs (command-line glue), src/error.rs (unused by this code) and the serde derives are not part of this model.

## Findings

| source | as written | input that shows it | evidently intended | confidence | as-written member | corrected member |
|---|---|---|---|---|---|---|
| src/parse.rs:160 | `parse_vec_txt` ends the value part at `line.len() - 1`, always dropping the last character. The text exporter (src/export.rs:117-138) writes the line break *before* each record, so the last record line has none. That line therefore loses a real character of its last value. | the store of the test at src/export.rs:158-175, whose last value `3.0` prints as `3`: the last line `term3 3.1 9.4 3` becomes the tokens `3.1`, `9.4`, `""`; the empty token does not parse, and the `unwrap` at src/parse.rs:124 panics | drop the last character only when it is the line break, so that export then parse gives back the store, as the test asserts | not executed | RoundTrip.ExportThenParseAsWrittenPanics | RoundTrip.TextRoundTrip |
