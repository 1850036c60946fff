/** The word2vec writer (src/export.rs). The sink is a byte sequence to which every
    `write` appends its whole buffer. */
module Export {
  import opened Wrappers
  import opened Utf8
  import opened Text
  import opened Vectors
  import opened Space
  import opened SpaceIter
  import opened Floats

  const DEFAULT_TERM_SEP: char := ' '
  const DEFAULT_VEC_SEP: char := ' '

  datatype Exporter = Exporter(
    termSeparator: char,
    vecSeparator: char,
    binary: bool,
    out: seq<byte>,
    headerWritten: bool)

  /** An exporter with the state it is left in and the byte count a call reported. */
  datatype Written = Written(exporter: Exporter, count: nat)

  /** `Exporter::new`: text mode, default separators, no header yet; `sink` is what the
      writer already holds. */
  function NewExporter(sink: seq<byte>): (e: Exporter)
    ensures e.termSeparator == ' ' && e.vecSeparator == ' '
    ensures !e.binary && !e.headerWritten && e.out == sink
  {
    Exporter(DEFAULT_TERM_SEP, DEFAULT_VEC_SEP, false, sink, false)
  }

  /** `Exporter::use_binary`. */
  function UseBinary(e: Exporter): (r: Exporter)
    ensures r.binary
    ensures r.termSeparator == e.termSeparator && r.vecSeparator == e.vecSeparator
    ensures r.out == e.out && r.headerWritten == e.headerWritten
  {
    e.(binary := true)
  }

  /** `Write::write`, which is assumed to take the whole buffer. */
  function Put(e: Exporter, bytes: seq<byte>): (w: Written)
    ensures w.exporter.out == e.out + bytes && w.count == |bytes|
  {
    Written(e.(out := e.out + bytes), |bytes|)
  }

  /** `write_header(dim, len)`: writes its first argument, a space, then its second,
      and records that a header was written. */
  function WriteHeader(e: Exporter, dim: nat, len: nat): (w: Written)
    ensures w.exporter == e.(out := w.exporter.out, headerWritten := true)
    ensures w.exporter.out == e.out + Encode(NatToString(dim) + " " + NatToString(len))
    ensures w.count == |w.exporter.out| - |e.out|
  {
    var first, second := NatToString(dim), NatToString(len);
    var a := Put(e.(headerWritten := true), Encode(first));
    var b := Put(a.exporter, Encode(" "));
    var c := Put(b.exporter, Encode(second));
    EncodeThree(first, " ", second);
    Regroup(e.out, Encode(first), Encode(" "), Encode(second));
    Written(c.exporter, a.count + b.count + c.count)
  }

  /** The text of each value. */
  function Shows(data: seq<real>, ff: FloatFormat): (r: seq<string>)
    ensures |r| == |data|
    ensures forall i :: 0 <= i < |data| ==> r[i] == ff.show(data[i])
  {
    if |data| == 0 then [] else [ff.show(data[0])] + Shows(data[1..], ff)
  }

  /** A text record as the format lays it out: a line break, the term, the term
      separator, then the values with the value separator between them. */
  function TextRecord(v: Vector, termSep: char, vecSep: char, ff: FloatFormat): string {
    "\n" + v.term + [termSep] + Join(vecSep, Shows(v.data, ff))
  }

  /** The text the value loop of `write_vector_txt` produces: a separator before
      every value but the record's first, then the value's text. */
  function ValuesText(data: seq<real>, first: bool, sep: char, ff: FloatFormat): string
    decreases |data|
  {
    if |data| == 0 then ""
    else (if first then "" else [sep]) + ff.show(data[0]) + ValuesText(data[1..], false, sep, ff)
  }

  /** The value loop writes the values joined by the separator. */
  lemma {:induction false} ValuesTextJoin(data: seq<real>, sep: char, ff: FloatFormat)
    ensures ValuesText(data, true, sep, ff) == Join(sep, Shows(data, ff))
    decreases |data|
  {
    if |data| > 0 {
      var shows := Shows(data, ff);
      assert shows[1..] == Shows(data[1..], ff);
      ValuesTextJoin(data[1..], sep, ff);
      if |data| > 1 {
        assert ValuesText(data[1..], false, sep, ff) == [sep] + ValuesText(data[1..], true, sep, ff);
      }
    }
  }

  /** The value loop of `write_vector_txt`, one write per separator and per value. */
  function WriteValuesTxt(e: Exporter, data: seq<real>, first: bool, ff: FloatFormat): (w: Written)
    decreases |data|
    ensures w.exporter == e.(out := w.exporter.out)
  {
    if |data| == 0 then Written(e, 0)
    else
      var sep := Put(e, Encode(if first then "" else [e.vecSeparator]));
      var val := Put(sep.exporter, Encode(ff.show(data[0])));
      var rest := WriteValuesTxt(val.exporter, data[1..], false, ff);
      Written(rest.exporter, sep.count + val.count + rest.count)
  }

  /** The value loop appends the encoded text of the values and counts every byte. */
  lemma {:induction false} WriteValuesTxtLayout(e: Exporter, data: seq<real>, first: bool, ff: FloatFormat)
    decreases |data|
    ensures var w := WriteValuesTxt(e, data, first, ff);
      && w.exporter.out == e.out + Encode(ValuesText(data, first, e.vecSeparator, ff))
      && w.count == |w.exporter.out| - |e.out|
  {
    if |data| > 0 {
      var pre: string := if first then "" else [e.vecSeparator];
      var x := Encode(pre);
      var y := Encode(ff.show(data[0]));
      var e1 := e.(out := e.out + x + y);
      var rest := WriteValuesTxt(e1, data[1..], false, ff);
      assert WriteValuesTxt(e, data, first, ff) == Written(rest.exporter, |x| + |y| + rest.count);
      WriteValuesTxtLayout(e1, data[1..], false, ff);
      var tail := ValuesText(data[1..], false, e.vecSeparator, ff);
      assert rest.exporter.out == e.out + x + y + Encode(tail);
      assert ValuesText(data, first, e.vecSeparator, ff) == pre + ff.show(data[0]) + tail;
      EncodeThree(pre, ff.show(data[0]), tail);
      Regroup(e.out, x, y, Encode(tail));
    } else {
      assert Encode(ValuesText(data, first, e.vecSeparator, ff)) == [];
      assert e.out + [] == e.out;
    }
  }

  lemma EncodeThree(a: string, b: string, c: string)
    ensures Encode(a + b + c) == Encode(a) + Encode(b) + Encode(c)
  {
    EncodeAppend(a + b, c);
    EncodeAppend(a, b);
  }

  /** `write_vector_txt`: the record's text is appended, and the count is the number
      of bytes appended. */
  function WriteVectorTxt(e: Exporter, v: Vector, ff: FloatFormat): (w: Written)
    ensures w.exporter == e.(out := w.exporter.out)
    ensures w.exporter.out == e.out + Encode(TextRecord(v, e.termSeparator, e.vecSeparator, ff))
    ensures w.count == |w.exporter.out| - |e.out|
  {
    var nl := Put(e, Encode("\n"));
    var term := Put(nl.exporter, Encode(v.term));
    var sep := Put(term.exporter, Encode([e.termSeparator]));
    var vals := WriteValuesTxt(sep.exporter, v.data, true, ff);
    WriteValuesTxtLayout(sep.exporter, v.data, true, ff);
    TextRecordBytes(v, e.termSeparator, e.vecSeparator, ff);
    Regroup5(e.out, Encode("\n"), Encode(v.term), Encode([e.termSeparator]),
             Encode(ValuesText(v.data, true, e.vecSeparator, ff)));
    Written(vals.exporter, nl.count + term.count + sep.count + vals.count)
  }

  lemma TextRecordBytes(v: Vector, termSep: char, vecSep: char, ff: FloatFormat)
    ensures Encode(TextRecord(v, termSep, vecSep, ff))
         == Encode("\n") + Encode(v.term) + Encode([termSep]) + Encode(ValuesText(v.data, true, vecSep, ff))
  {
    ValuesTextJoin(v.data, vecSep, ff);
    EncodeThree("\n", v.term, [termSep]);
    EncodeAppend("\n" + v.term + [termSep], ValuesText(v.data, true, vecSep, ff));
  }

  /** The little-endian bit patterns of the values, back to back. */
  function ValueBytes(data: seq<real>, ff: FloatFormat): (r: seq<byte>)
    ensures |r| == 4 * |data|
  {
    if |data| == 0 then [] else LeBytes(ff.bits(data[0])) + ValueBytes(data[1..], ff)
  }

  /** The value loop of `write_vector_bin`: four bytes per value, whose counts are dropped. */
  function WriteValuesBin(e: Exporter, data: seq<real>, ff: FloatFormat): (e': Exporter)
    decreases |data|
    ensures e' == e.(out := e.out + ValueBytes(data, ff))
  {
    if |data| == 0 then e
    else
      var one := Put(e, LeBytes(ff.bits(data[0])));
      var rest := WriteValuesBin(one.exporter, data[1..], ff);
      assert e.out + LeBytes(ff.bits(data[0])) + ValueBytes(data[1..], ff)
          == e.out + ValueBytes(data, ff);
      rest
  }

  /** `write_vector_bin`: the term's bytes, a space byte, then four bytes per value;
      the reported count leaves the value bytes out. */
  function WriteVectorBin(e: Exporter, v: Vector, ff: FloatFormat): (w: Written)
    ensures w.exporter == e.(out := w.exporter.out)
    ensures w.exporter.out == e.out + Encode(v.term) + [SPACE] + ValueBytes(v.data, ff)
    ensures w.count == |Encode(v.term)| + 1
    ensures |w.exporter.out| - |e.out| == w.count + 4 * Dim(v)
  {
    var term := Put(e, Encode(v.term));
    var space := Put(term.exporter, [SPACE]);
    var vals := WriteValuesBin(space.exporter, v.data, ff);
    Written(vals, term.count + space.count)
  }

  /** The bytes one record takes in the given mode. */
  function RecordBytes(v: Vector, binary: bool, termSep: char, vecSep: char, ff: FloatFormat): seq<byte> {
    if binary then Encode(v.term) + [SPACE] + ValueBytes(v.data, ff)
    else Encode(TextRecord(v, termSep, vecSep, ff))
  }

  /** `write_vector`: the record in the exporter's mode. */
  function WriteVector(e: Exporter, v: Vector, ff: FloatFormat): (w: Written)
    ensures w.exporter == e.(out := w.exporter.out)
    ensures w.exporter.out == e.out + RecordBytes(v, e.binary, e.termSeparator, e.vecSeparator, ff)
    ensures !e.binary ==> w.count == |w.exporter.out| - |e.out|
    ensures e.binary ==> w.count == |Encode(v.term)| + 1
  {
    if e.binary then WriteVectorBin(e, v, ff) else WriteVectorTxt(e, v, ff)
  }

  /** The bytes `export_vectors` appends for `vs` in the given mode. */
  function RecordsBytes(vs: seq<Vector>, binary: bool, termSep: char, vecSep: char, ff: FloatFormat): seq<byte> {
    if |vs| == 0 then []
    else RecordBytes(vs[0], binary, termSep, vecSep, ff) + RecordsBytes(vs[1..], binary, termSep, vecSep, ff)
  }

  /** The counts `export_vectors` reports in binary mode: term bytes plus one per record. */
  function BinaryCount(vs: seq<Vector>): nat {
    if |vs| == 0 then 0 else |Encode(vs[0].term)| + 1 + BinaryCount(vs[1..])
  }

  /** `export_vectors`: panics unless a header was written; writes every record in
      order and sums the counts. */
  function ExportVectors(e: Exporter, vs: seq<Vector>, ff: FloatFormat): (w: Written)
    requires e.headerWritten
    decreases |vs|
    ensures w.exporter == e.(out := w.exporter.out)
    ensures w.exporter.out == e.out + RecordsBytes(vs, e.binary, e.termSeparator, e.vecSeparator, ff)
    ensures !e.binary ==> w.count == |w.exporter.out| - |e.out|
    ensures e.binary ==> w.count == BinaryCount(vs)
  {
    if |vs| == 0 then Written(e, 0)
    else
      var one := WriteVector(e, vs[0], ff);
      var rest := ExportVectors(one.exporter, vs[1..], ff);
      var first := RecordBytes(vs[0], e.binary, e.termSeparator, e.vecSeparator, ff);
      var others := RecordsBytes(vs[1..], e.binary, e.termSeparator, e.vecSeparator, ff);
      assert rest.exporter.out == e.out + first + others;
      Regroup3(e.out, first, others);
      Written(rest.exporter, one.count + rest.count)
  }

  /** `Iterator::filter`: the items `keep` accepts, in order. */
  function Filter(vs: seq<Vector>, keep: Vector -> bool): (r: seq<Vector>)
    ensures |r| <= |vs|
    ensures forall i :: 0 <= i < |r| ==> r[i] in vs && keep(r[i])
    ensures forall v :: v in vs && keep(v) ==> v in r
  {
    if |vs| == 0 then []
    else if keep(vs[0]) then [vs[0]] + Filter(vs[1..], keep)
    else Filter(vs[1..], keep)
  }

  lemma {:induction false} FilterAll(vs: seq<Vector>, keep: Vector -> bool)
    requires forall v :: v in vs ==> keep(v)
    ensures Filter(vs, keep) == vs
  {
    if |vs| > 0 {
      FilterAll(vs[1..], keep);
    }
  }

  /** The header line: record count, a space, the dimension. */
  function HeaderText(s: VecSpace): string {
    NatToString(Len(s)) + " " + NatToString(s.dimension)
  }

  /** `export_space_filtered`: the header, in binary mode a line break, then every
      record the filter keeps, in store order; the count is the sum of the counts. */
  function ExportSpaceFiltered(e: Exporter, s: VecSpace, keep: Vector -> bool, ff: FloatFormat): (w: Written)
  {
    var len := Len(s);
    var dim := s.dimension;
    // the call passes the count where the signature names `dim`, and the dimension for `len`
    var header := WriteHeader(e, len, dim);
    var sep := if header.exporter.binary then Put(header.exporter, [NEWLINE]) else Written(header.exporter, 0);
    var body := ExportVectors(sep.exporter, Filter(Drain(NewIter(s)), keep), ff);
    Written(body.exporter, header.count + sep.count + body.count)
  }

  /** The filter `export_space` uses: every record passes. */
  predicate KeepAll(v: Vector) {
    true
  }

  /** `export_space`: every record passes the filter. */
  function ExportSpace(e: Exporter, s: VecSpace, ff: FloatFormat): Written {
    ExportSpaceFiltered(e, s, KeepAll, ff)
  }

  /** What a text export appends: the header with the count first and no line break,
      then each kept record preceded by a line break; the count is every byte written.
      The header counts the whole store even when the filter drops records. */
  lemma ExportTextLayout(e: Exporter, s: VecSpace, keep: Vector -> bool, ff: FloatFormat)
    requires Valid(s) && !e.binary
    ensures var w := ExportSpaceFiltered(e, s, keep, ff);
      && w.exporter.out == e.out + Encode(HeaderText(s)) + RecordsBytes(Filter(Records(s), keep), e.binary, e.termSeparator, e.vecSeparator, ff)
      && w.count == |w.exporter.out| - |e.out|
      && w.exporter.headerWritten
  {
    DrainAll(s);
  }

  /** What a binary export appends: the header, one line break, then each kept record
      as term bytes, a space and four bytes per value; the count leaves out the value bytes. */
  lemma ExportBinaryLayout(e: Exporter, s: VecSpace, keep: Vector -> bool, ff: FloatFormat)
    requires Valid(s) && e.binary
    ensures var w := ExportSpaceFiltered(e, s, keep, ff);
      && w.exporter.out == e.out + Encode(HeaderText(s)) + [NEWLINE] + RecordsBytes(Filter(Records(s), keep), e.binary, e.termSeparator, e.vecSeparator, ff)
      && w.count == |Encode(HeaderText(s))| + 1 + BinaryCount(Filter(Records(s), keep))
  {
    DrainAll(s);
  }

  /** `export_space` writes every record of the store, in store order. */
  lemma ExportSpaceWritesAll(e: Exporter, s: VecSpace, ff: FloatFormat)
    requires Valid(s)
    ensures var w := ExportSpace(e, s, ff);
      && w.exporter.out == e.out + Encode(HeaderText(s)) + (if e.binary then [NEWLINE] else [])
                           + RecordsBytes(Records(s), e.binary, e.termSeparator, e.vecSeparator, ff)
      && w.exporter.headerWritten
  {
    FilterAll(Records(s), KeepAll);
    if e.binary {
      ExportBinaryLayout(e, s, KeepAll, ff);
    } else {
      ExportTextLayout(e, s, KeepAll, ff);
      assert e.out + Encode(HeaderText(s)) + [] == e.out + Encode(HeaderText(s));
    }
  }
}
