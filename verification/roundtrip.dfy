/** Writing a store with the default exporter and reading the bytes back with the
    default parser. With the value part ending before the line break the store comes
    back unchanged; with the source's rule, which always drops a line's last
    character, the last record loses its last character, and when that value prints
    as one character the read panics. */
module RoundTrip {
  import opened Wrappers
  import opened Utf8
  import opened Text
  import opened Vectors
  import opened Space
  import opened SpaceIter
  import opened Floats
  import opened Export
  import opened Parse

  /** A record line as the default exporter writes it, without the line break that
      precedes it. */
  function RecordLine(v: Vector, ff: FloatFormat): string {
    v.term + " " + Join(' ', Shows(v.data, ff))
  }

  /** A record the text format can carry: a term without separator or line break, at
      least one value, and values whose text holds neither and parses back. */
  ghost predicate Carried(v: Vector, ff: FloatFormat) {
    && ' ' !in v.term && '\n' !in v.term
    && |v.data| > 0
    && (forall i :: 0 <= i < |v.data| ==> ' ' !in ff.show(v.data[i]) && '\n' !in ff.show(v.data[i]))
    && (forall i :: 0 <= i < |v.data| ==> ff.parse(ff.show(v.data[i])) == Some(v.data[i]))
  }

  /** The lines the reader sees after the header: every record line but the last
      ends with a line break. */
  function RecordLines(rs: seq<Vector>, ff: FloatFormat): (ls: seq<seq<byte>>)
    ensures |ls| == |rs|
  {
    if |rs| == 0 then []
    else [Encode(RecordLine(rs[0], ff) + (if |rs| > 1 then "\n" else ""))] + RecordLines(rs[1..], ff)
  }

  lemma RecordLineShape(v: Vector, ff: FloatFormat)
    requires Carried(v, ff)
    ensures '\n' !in RecordLine(v, ff) && |RecordLine(v, ff)| > 0
    ensures Encode(TextRecord(v, ' ', ' ', ff)) == [NEWLINE] + Encode(RecordLine(v, ff))
  {
    NoNewlineInJoin(' ', Shows(v.data, ff));
    assert TextRecord(v, ' ', ' ', ff) == "\n" + RecordLine(v, ff);
    EncodeAppend("\n", RecordLine(v, ff));
    EncodeCharNewline('\n');
  }

  lemma {:induction false} NoNewlineInJoin(c: char, parts: seq<string>)
    requires c != '\n'
    requires forall i :: 0 <= i < |parts| ==> '\n' !in parts[i]
    ensures '\n' !in Join(c, parts)
  {
    if |parts| > 1 {
      NoNewlineInJoin(c, parts[1..]);
    }
  }

  /** How `read_until` cuts an export: the header (with its line break when records
      follow), then one line per record. */
  lemma {:induction false} LinesOfExport(a: string, rs: seq<Vector>, ff: FloatFormat)
    requires |a| > 0 && '\n' !in a
    requires forall i :: 0 <= i < |rs| ==> Carried(rs[i], ff)
    ensures Lines(Encode(a) + RecordsBytes(rs, false, ' ', ' ', ff), NEWLINE)
         == [Encode(a + (if |rs| > 0 then "\n" else ""))] + RecordLines(rs, ff)
    decreases |rs|
  {
    EncodeNoNewline(a);
    if |rs| == 0 {
      LinesOfHeaderOnly(a, ff);
    } else {
      RecordLineShape(rs[0], ff);
      assert forall i :: 0 <= i < |rs[1..]| ==> Carried(rs[1..][i], ff) by {
        assert forall i :: 0 <= i < |rs[1..]| ==> rs[1..][i] == rs[i + 1];
      }
      LinesOfExport(RecordLine(rs[0], ff), rs[1..], ff);
      LinesOfExportStep(a, rs, ff);
    }
  }

  lemma LinesOfExportStep(a: string, rs: seq<Vector>, ff: FloatFormat)
    requires |rs| > 0 && NEWLINE !in Encode(a)
    requires Encode(TextRecord(rs[0], ' ', ' ', ff)) == [NEWLINE] + Encode(RecordLine(rs[0], ff))
    requires Lines(Encode(RecordLine(rs[0], ff)) + RecordsBytes(rs[1..], false, ' ', ' ', ff), NEWLINE)
          == [Encode(RecordLine(rs[0], ff) + (if |rs| > 1 then "\n" else ""))] + RecordLines(rs[1..], ff)
    ensures Lines(Encode(a) + RecordsBytes(rs, false, ' ', ' ', ff), NEWLINE)
         == [Encode(a + "\n")] + RecordLines(rs, ff)
  {
    var line := RecordLine(rs[0], ff);
    var rest := RecordsBytes(rs[1..], false, ' ', ' ', ff);
    BytesOfFirstRecord(Encode(a), rs, ff);
    LinesCons(Encode(a), NEWLINE, Encode(line) + rest);
    NewlineAppended(a);
  }

  lemma LinesOfHeaderOnly(a: string, ff: FloatFormat)
    requires |a| > 0 && NEWLINE !in Encode(a)
    ensures Lines(Encode(a) + RecordsBytes([], false, ' ', ' ', ff), NEWLINE) == [Encode(a + "")]
  {
    assert Encode(a) + [] == Encode(a);
    assert a + "" == a;
    LinesLast(Encode(a), NEWLINE);
  }

  lemma BytesOfFirstRecord(head: seq<byte>, rs: seq<Vector>, ff: FloatFormat)
    requires |rs| > 0
    requires Encode(TextRecord(rs[0], ' ', ' ', ff)) == [NEWLINE] + Encode(RecordLine(rs[0], ff))
    ensures head + RecordsBytes(rs, false, ' ', ' ', ff)
         == head + [NEWLINE] + (Encode(RecordLine(rs[0], ff)) + RecordsBytes(rs[1..], false, ' ', ' ', ff))
  {
    var x := Encode(RecordLine(rs[0], ff));
    var y := RecordsBytes(rs[1..], false, ' ', ' ', ff);
    assert RecordsBytes(rs, false, ' ', ' ', ff) == [NEWLINE] + x + y;
    Regroup(head, [NEWLINE], x, y);
  }

  lemma NewlineAppended(a: string)
    ensures Encode(a + "\n") == Encode(a) + [NEWLINE]
  {
    EncodeAppend(a, "\n");
    EncodeCharNewline('\n');
  }

  /** The header line reads back as the count and the dimension. */
  lemma HeaderReadsBack(s: VecSpace, nl: bool)
    requires Len(s) < USIZE_LIMIT && s.dimension < USIZE_LIMIT
    ensures ParseHeader(Default(), Encode(HeaderText(s) + (if nl then "\n" else "")))
         == Done((Len(s), s.dimension))
  {
    HeaderDecodes(s, nl);
    HeaderSplits(s);
    ParseUsizeNatToString(Len(s));
    ParseUsizeNatToString(s.dimension);
  }

  lemma HeaderDecodes(s: VecSpace, nl: bool)
    ensures FromUtf8(Encode(HeaderText(s) + (if nl then "\n" else ""))) == Ok(HeaderText(s) + (if nl then "\n" else ""))
    ensures Trim(HeaderText(s) + (if nl then "\n" else "")) == HeaderText(s)
  {
    var count, dim := NatToString(Len(s)), NatToString(s.dimension);
    var h := HeaderText(s);
    DecodeEncode(h + (if nl then "\n" else ""));
    assert h[0] == count[0] && h[|h| - 1] == dim[|dim| - 1];
    TrimUntouched(h);
    assert h + "" == h;
  }

  lemma HeaderSplits(s: VecSpace)
    ensures Split(HeaderText(s), ' ') == [NatToString(Len(s)), NatToString(s.dimension)]
  {
    var count, dim := NatToString(Len(s)), NatToString(s.dimension);
    assert forall i :: 0 <= i < |count| ==> IsDigit(count[i]);
    assert forall i :: 0 <= i < |dim| ==> IsDigit(dim[i]);
    assert Join(' ', [count, dim]) == HeaderText(s);
    SplitJoin(' ', [count, dim]);
  }

  /** A record line starts with the term and the separator, and the values follow. */
  lemma RecordLineParts(v: Vector, ff: FloatFormat)
    requires ' ' !in v.term
    ensures var line := RecordLine(v, ff);
      && Find(line, ' ') == Some(|v.term|)
      && line[..|v.term|] == v.term
      && line[|v.term| + 1..] == Join(' ', Shows(v.data, ff))
  {
    var line := RecordLine(v, ff);
    assert line[..|v.term|] == v.term && line[|v.term|] == ' ';
  }

  /** A written record line reads back as the record, with or without its line break. */
  lemma RecordReadsBack(v: Vector, ff: FloatFormat, nl: bool)
    requires Carried(v, ff)
    ensures ParseVecTxt(Default(), RecordLine(v, ff) + (if nl then "\n" else ""), DropNewline, ff) == Done(v)
  {
    var line := RecordLine(v, ff);
    RecordLineParts(v, ff);
    SplitJoin(' ', Shows(v.data, ff));
    ValuesReadBack(v, ff);
    if nl {
      BrokenLineReadsBack(v, ff);
    } else {
      assert line + "" == line;
      LastCharNotNewline(v, ff);
      LastLineReadsBack(v, ff);
    }
  }

  lemma BrokenLineReadsBack(v: Vector, ff: FloatFormat)
    requires ' ' !in v.term
    requires ParseValues(Split(Join(' ', Shows(v.data, ff)), ' '), ff) == Ok(v.data)
    ensures ParseVecTxt(Default(), RecordLine(v, ff) + "\n", DropNewline, ff) == Done(v)
  {
    RecordLineParts(v, ff);
    BrokenTextLineReadsBack(RecordLine(v, ff), |v.term|, v.data, ff);
  }

  lemma LastLineReadsBack(v: Vector, ff: FloatFormat)
    requires ' ' !in v.term
    requires var line := RecordLine(v, ff); line[|line| - 1] != '\n'
    requires ParseValues(Split(Join(' ', Shows(v.data, ff)), ' '), ff) == Ok(v.data)
    ensures ParseVecTxt(Default(), RecordLine(v, ff), DropNewline, ff) == Done(v)
  {
    RecordLineParts(v, ff);
    LastTextLineReadsBack(RecordLine(v, ff), |v.term|, v.data, ff);
  }

  /** A line whose first space is at `k` and whose remainder parses as `data` reads as
      that record when a line break follows it. */
  lemma BrokenTextLineReadsBack(line: string, k: nat, data: seq<real>, ff: FloatFormat)
    requires Find(line, ' ') == Some(k)
    requires ParseValues(Split(line[k + 1..], ' '), ff) == Ok(data)
    ensures ParseVecTxt(Default(), line + "\n", DropNewline, ff) == Done(Vector(data, line[..k]))
  {
    var full := line + "\n";
    FindExtends(line, ' ', "\n", k);
    assert full[k + 1..|full| - 1] == line[k + 1..] && full[..k] == line[..k];
    ParseVecTxtBody(Default(), full, DropNewline, ff, k, |full| - 1);
  }

  /** The same line reads as that record on its own when it does not end with a line
      break. */
  lemma LastTextLineReadsBack(line: string, k: nat, data: seq<real>, ff: FloatFormat)
    requires Find(line, ' ') == Some(k) && line[|line| - 1] != '\n'
    requires ParseValues(Split(line[k + 1..], ' '), ff) == Ok(data)
    ensures ParseVecTxt(Default(), line, DropNewline, ff) == Done(Vector(data, line[..k]))
  {
    assert line[k + 1..|line|] == line[k + 1..];
    ParseVecTxtBody(Default(), line, DropNewline, ff, k, |line|);
  }

  lemma ValuesReadBack(v: Vector, ff: FloatFormat)
    requires Carried(v, ff)
    ensures ParseValues(Shows(v.data, ff), ff) == Ok(v.data)
  {
    var shows := Shows(v.data, ff);
    var r := ParseValues(shows, ff);
    assert forall i :: 0 <= i < |shows| ==> ff.parse(shows[i]) == Some(v.data[i]);
    assert r.Ok?;
    assert r.value == v.data;
  }

  lemma FindExtends(s: string, c: char, t: string, k: nat)
    requires Find(s, c) == Some(k)
    ensures Find(s + t, c) == Some(k)
  {
    assert (s + t)[..k] == s[..k];
    assert (s + t)[k] == c;
  }

  lemma LastCharNotNewline(v: Vector, ff: FloatFormat)
    requires Carried(v, ff)
    ensures var line := RecordLine(v, ff); line[|line| - 1] != '\n'
  {
    NoNewlineInJoin(' ', Shows(v.data, ff));
    var line := RecordLine(v, ff);
    assert line[|line| - 1] in line;
  }

  /** Both line rules read a line that ends with a line break alike. */
  lemma RulesAgreeOnBrokenLines(p: Word2VecParser, line: string, ff: FloatFormat)
    requires |line| > 0 && line[|line| - 1] == '\n'
    ensures ParseVecTxt(p, line, DropLastChar, ff) == ParseVecTxt(p, line, DropNewline, ff)
  {
  }

  /** Reading the record lines inserts the records in order. */
  lemma {:induction false} RecordLinesReadBack(space: VecSpace, rs: seq<Vector>, ff: FloatFormat)
    requires AllOfDimension(rs, space.dimension)
    requires forall i :: 0 <= i < |rs| ==> Carried(rs[i], ff)
    ensures ParseLines(Default(), space, RecordLines(rs, ff), DropNewline, ff) == Done(Extend(space, rs))
    decreases |rs|
  {
    if |rs| > 0 {
      FirstLineReadsBack(rs, ff);
      var next := Insert(space, rs[0]).value;
      ParseLinesStep(Default(), space, RecordLines(rs, ff), DropNewline, ff, rs[0]);
      AllOfDimensionTail(rs, space.dimension);
      CarriedTail(rs, ff);
      RecordLinesReadBack(next, rs[1..], ff);
    }
  }

  lemma CarriedTail(rs: seq<Vector>, ff: FloatFormat)
    requires |rs| > 0 && forall i :: 0 <= i < |rs| ==> Carried(rs[i], ff)
    ensures forall i :: 0 <= i < |rs| - 1 ==> Carried(rs[1..][i], ff)
  {
    forall i | 0 <= i < |rs| - 1 ensures Carried(rs[1..][i], ff) {
      assert rs[1..][i] == rs[i + 1];
    }
  }

  /** The first of the record lines is the first record's text, and the rest are the
      lines of the other records. */
  lemma FirstRecordLine(rs: seq<Vector>, ff: FloatFormat, rule: LineEnd)
    requires |rs| > 0
    ensures var text := RecordLine(rs[0], ff) + (if |rs| > 1 then "\n" else "");
      && ParseVec(Default(), RecordLines(rs, ff)[0], rule, ff) == ParseVecTxt(Default(), text, rule, ff)
      && RecordLines(rs, ff)[1..] == RecordLines(rs[1..], ff)
  {
    var text := RecordLine(rs[0], ff) + (if |rs| > 1 then "\n" else "");
    DecodeEncode(text);
  }

  /** The first record line reads back as the first record under the corrected rule,
      and under the source's rule too when a line break ends it. */
  lemma FirstLineReadsBack(rs: seq<Vector>, ff: FloatFormat)
    requires |rs| > 0 && Carried(rs[0], ff)
    ensures ParseVec(Default(), RecordLines(rs, ff)[0], DropNewline, ff) == Done(rs[0])
    ensures |rs| > 1 ==> ParseVec(Default(), RecordLines(rs, ff)[0], DropLastChar, ff) == Done(rs[0])
    ensures RecordLines(rs, ff)[1..] == RecordLines(rs[1..], ff)
  {
    var text := RecordLine(rs[0], ff) + (if |rs| > 1 then "\n" else "");
    FirstRecordLine(rs, ff, DropNewline);
    FirstRecordLine(rs, ff, DropLastChar);
    RecordReadsBack(rs[0], ff, |rs| > 1);
    if |rs| > 1 {
      RulesAgreeOnBrokenLines(Default(), text, ff);
    }
  }

  /** With one record left whose last value prints as one character, its line does not
      read under the source's rule. */
  lemma LastLineFailsFirst(rs: seq<Vector>, ff: FloatFormat)
    requires |rs| == 1 && Carried(rs[0], ff) && EndsInOneChar(rs[0], ff) && ff.parse("") == None
    ensures !ParseVec(Default(), RecordLines(rs, ff)[0], DropLastChar, ff).Done?
  {
    FirstRecordLine(rs, ff, DropLastChar);
    assert RecordLine(rs[0], ff) + "" == RecordLine(rs[0], ff);
    LastLineFailsAsWritten(rs[0], ff);
  }

  lemma {:induction false} FlattenSnoc(rs: seq<Vector>, v: Vector)
    ensures Flatten(rs + [v]) == Flatten(rs) + v.data
  {
    if |rs| > 0 {
      assert (rs + [v])[1..] == rs[1..] + [v];
      FlattenSnoc(rs[1..], v);
    } else {
      assert [v][1..] == [];
    }
  }

  lemma {:induction false} FlattenRecordsPrefix(s: VecSpace, n: nat)
    requires Valid(s) && n <= Len(s)
    ensures n * s.dimension <= |s.vecData|
    ensures Flatten(Records(s)[..n]) == s.vecData[..n * s.dimension]
  {
    var rs := Records(s);
    var d := s.dimension;
    if n > 0 {
      assert (n - 1) * d + d == n * d;
      var lo: nat := (n - 1) * d;
      var hi: nat := n * d;
      FlattenRecordsPrefix(s, n - 1);
      RecordSegment(s, n - 1);
      assert rs[n - 1].data == s.vecData[lo..hi];
      assert rs[..n] == rs[..n - 1] + [rs[n - 1]];
      FlattenSnoc(rs[..n - 1], rs[n - 1]);
      assert s.vecData[..hi] == s.vecData[..lo] + s.vecData[lo..hi];
    }
  }

  /** Inserting a store's records, in order, into an empty store of its dimension
      rebuilds the store. */
  lemma RecordsRebuild(s: VecSpace)
    requires Valid(s) && s.termMap.None?
    ensures AllOfDimension(Records(s), s.dimension)
    ensures Extend(New(s.dimension), Records(s)) == s
  {
    var rs := Records(s);
    RecordsParts(s);
    var r := Extend(New(s.dimension), rs);
    assert r.words == [] + s.words == s.words;
    assert r.vecData == [] + s.vecData == s.vecData;
  }

  /** A store's records carry its terms and, one after another, its buffer. */
  lemma RecordsParts(s: VecSpace)
    requires Valid(s)
    ensures AllOfDimension(Records(s), s.dimension)
    ensures Terms(Records(s)) == s.words
    ensures Flatten(Records(s)) == s.vecData
  {
    var rs := Records(s);
    assert forall i :: 0 <= i < |rs| ==> Get(s, i) == Some(rs[i]);
    FlattenRecordsPrefix(s, Len(s));
    assert rs[..Len(s)] == rs;
    assert s.vecData[..Len(s) * s.dimension] == s.vecData;
  }

  lemma ExportedBytes(s: VecSpace, ff: FloatFormat)
    requires Valid(s)
    ensures ExportSpace(NewExporter([]), s, ff).exporter.out
         == Encode(HeaderText(s)) + RecordsBytes(Records(s), false, ' ', ' ', ff)
  {
    var e := NewExporter([]);
    var h := Encode(HeaderText(s));
    var body := RecordsBytes(Records(s), false, ' ', ' ', ff);
    ExportSpaceWritesAll(e, s, ff);
    EmptyPrefix(h, body);
  }

  /** Proof helper: empty pieces around the header drop out; kept apart from
      `ExportedBytes` so that its context stays small. */
  lemma EmptyPrefix(h: seq<byte>, body: seq<byte>)
    ensures [] + h + [] + body == h + body
  {
  }

  lemma HeaderShape(s: VecSpace)
    ensures |HeaderText(s)| > 0 && '\n' !in HeaderText(s)
  {
    var count, dim := NatToString(Len(s)), NatToString(s.dimension);
    assert forall i :: 0 <= i < |count| ==> IsDigit(count[i]);
    assert forall i :: 0 <= i < |dim| ==> IsDigit(dim[i]);
  }

  lemma CarriedRecords(s: VecSpace, ff: FloatFormat)
    requires Valid(s)
    requires forall v :: v in Records(s) ==> Carried(v, ff)
    ensures forall i :: 0 <= i < |Records(s)| ==> Carried(Records(s)[i], ff)
  {
    var rs := Records(s);
    forall i | 0 <= i < |rs| ensures Carried(rs[i], ff) {
      assert rs[i] in rs;
    }
  }

  /** Without an index, the parse is the first line's result followed by the rest. */
  lemma ParseAfterFirst(p: Word2VecParser, input: seq<byte>, rule: LineEnd, ff: FloatFormat, first: VecSpace)
    requires !p.indexTerms
    requires |Lines(input, NEWLINE)| > 0
    requires ParseFirst(p, Lines(input, NEWLINE)[0], rule, ff) == Done(first)
    ensures ParseWith(p, input, rule, ff) == ParseLines(p, first, Lines(input, NEWLINE)[1..], rule, ff)
  {
  }

  /** The default exporter followed by the default parser gives back the store,
      whenever every record is one the text format can carry and the count and
      dimension fit a `usize`. */
  lemma TextRoundTrip(s: VecSpace, ff: FloatFormat)
    requires Valid(s) && s.termMap.None?
    requires Len(s) < USIZE_LIMIT && s.dimension < USIZE_LIMIT
    requires forall v :: v in Records(s) ==> Carried(v, ff)
    ensures ParseInput(Default(), ExportSpace(NewExporter([]), s, ff).exporter.out, ff) == Done(s)
  {
    var rs := Records(s);
    var out := ExportSpace(NewExporter([]), s, ff).exporter.out;
    ExportedBytes(s, ff);
    HeaderShape(s);
    CarriedRecords(s, ff);
    LinesOfExport(HeaderText(s), rs, ff);
    HeaderReadsBack(s, |rs| > 0);
    ParseAfterFirst(Default(), out, DropNewline, ff, New(s.dimension));
    RecordsRebuild(s);
    RecordLinesReadBack(New(s.dimension), rs, ff);
  }

  /** The last value of a record prints as one character. */
  ghost predicate EndsInOneChar(v: Vector, ff: FloatFormat) {
    |v.data| > 0 && |ff.show(v.data[|v.data| - 1])| == 1
  }

  /** Under the source's rule a record line without its line break loses the last
      value's only character: what remains ends with the value separator, the last
      token is empty, and it does not parse. */
  lemma LastLineFailsAsWritten(v: Vector, ff: FloatFormat)
    requires Carried(v, ff) && EndsInOneChar(v, ff) && ff.parse("") == None
    ensures !ParseVecTxt(Default(), RecordLine(v, ff), DropLastChar, ff).Done?
  {
    var line := RecordLine(v, ff);
    RecordLineParts(v, ff);
    LastShowEndsLine(v, ff);
    if IsAscii(line[|line| - 1]) {
      LastAsciiLineFails(v, ff);
    }
  }

  lemma LastAsciiLineFails(v: Vector, ff: FloatFormat)
    requires Carried(v, ff) && EndsInOneChar(v, ff) && ff.parse("") == None
    requires var line := RecordLine(v, ff); |line| > 0 && IsAscii(line[|line| - 1])
    ensures ParseVecTxt(Default(), RecordLine(v, ff), DropLastChar, ff).Failed?
  {
    var line := RecordLine(v, ff);
    RecordLineParts(v, ff);
    LastShowEndsLine(v, ff);
    ValueTextLosesLastChar(v, ff);
    ParseVecTxtBody(Default(), line, DropLastChar, ff, |v.term|, |line| - 1);
    EmptyLastToken(Shows(v.data, ff)[..|v.data| - 1], ff);
  }

  lemma LastShowEndsLine(v: Vector, ff: FloatFormat)
    requires ' ' !in v.term && EndsInOneChar(v, ff)
    ensures var line := RecordLine(v, ff);
      && |line| >= |v.term| + 2
      && line[|line| - 1] == ff.show(v.data[|v.data| - 1])[0]
  {
    JoinedLineEnds(v.term, Shows(v.data, ff));
  }

  /** With the last value one character long, the value part minus its last character
      is the other values joined, followed by one empty piece. */
  lemma ValueTextLosesLastChar(v: Vector, ff: FloatFormat)
    requires ' ' !in v.term && EndsInOneChar(v, ff)
    ensures var line := RecordLine(v, ff);
      && |line| >= |v.term| + 2
      && line[|v.term| + 1..|line| - 1] == Join(' ', Shows(v.data, ff)[..|v.data| - 1] + [""])
  {
    var shows := Shows(v.data, ff);
    var n := |shows|;
    assert shows == shows[..n - 1] + [shows[n - 1]];
    JoinDropLastChar(' ', shows[..n - 1], shows[n - 1]);
    RecordLineParts(v, ff);
    var line := RecordLine(v, ff);
    SliceOfSuffix(line, |v.term| + 1);
  }

  lemma SliceOfSuffix(line: string, k: nat)
    requires k < |line|
    ensures line[k..|line| - 1] == line[k..][..|line[k..]| - 1]
  {
  }

  lemma EmptyLastToken(ps: seq<string>, ff: FloatFormat)
    requires forall i :: 0 <= i < |ps| ==> ' ' !in ps[i]
    requires ff.parse("") == None
    ensures ParseValues(Split(Join(' ', ps + [""]), ' '), ff).Err?
  {
    SplitJoin(' ', ps + [""]);
    assert (ps + [""])[|ps|] == "";
  }

  /** Under the source's rule every record line but the last reads as before, and the
      last one fails when its last value prints as one character, so the read panics. */
  lemma {:induction false} RecordLinesPanicAsWritten(space: VecSpace, rs: seq<Vector>, ff: FloatFormat)
    requires |rs| > 0 && AllOfDimension(rs, space.dimension)
    requires forall i :: 0 <= i < |rs| ==> Carried(rs[i], ff)
    requires EndsInOneChar(rs[|rs| - 1], ff) && ff.parse("") == None
    ensures ParseLines(Default(), space, RecordLines(rs, ff), DropLastChar, ff).Panicked?
    decreases |rs|
  {
    if |rs| == 1 {
      LastLineFailsFirst(rs, ff);
      ParseLinesStop(Default(), space, RecordLines(rs, ff), DropLastChar, ff);
    } else {
      FirstLineReadsBack(rs, ff);
      var next := Insert(space, rs[0]).value;
      ParseLinesStep(Default(), space, RecordLines(rs, ff), DropLastChar, ff, rs[0]);
      AllOfDimensionTail(rs, space.dimension);
      CarriedTail(rs, ff);
      RecordLinesPanicAsWritten(next, rs[1..], ff);
    }
  }

  /** A line that does not read as a record makes the read loop panic at its `unwrap`. */
  lemma ParseLinesStop(p: Word2VecParser, space: VecSpace, lines: seq<seq<byte>>, rule: LineEnd,
                       ff: FloatFormat)
    requires |lines| > 0 && !ParseVec(p, lines[0], rule, ff).Done?
    ensures ParseLines(p, space, lines, rule, ff).Panicked?
  {
  }

  /** Any non-empty store whose last value prints as one character (as `3.0` prints
      as `3`) is written by the default exporter in a form the parser as written
      cannot read: it panics, while the corrected rule reads the store back. */
  lemma ExportThenParseAsWrittenPanics(s: VecSpace, ff: FloatFormat)
    requires Valid(s) && s.termMap.None?
    requires Len(s) < USIZE_LIMIT && s.dimension < USIZE_LIMIT
    requires forall v :: v in Records(s) ==> Carried(v, ff)
    requires Len(s) > 0 && EndsInOneChar(Records(s)[Len(s) - 1], ff)
    requires ff.parse("") == None
    ensures ParseAsWritten(Default(), ExportSpace(NewExporter([]), s, ff).exporter.out, ff).Panicked?
    ensures ParseInput(Default(), ExportSpace(NewExporter([]), s, ff).exporter.out, ff) == Done(s)
  {
    var rs := Records(s);
    var out := ExportSpace(NewExporter([]), s, ff).exporter.out;
    ExportedBytes(s, ff);
    HeaderShape(s);
    CarriedRecords(s, ff);
    LinesOfExport(HeaderText(s), rs, ff);
    HeaderReadsBack(s, true);
    ParseAfterFirst(Default(), out, DropLastChar, ff, New(s.dimension));
    RecordsRebuild(s);
    RecordLinesPanicAsWritten(New(s.dimension), rs, ff);
    TextRoundTrip(s, ff);
  }
}
