/** The word2vec reader (src/parse.rs): a configurable parser that cuts its input into
    lines, reads a header (or takes the first record as the dimension's witness), then
    inserts one record per line. Errors returned with `?` become `Failed`, panics
    (`unwrap`, `todo!()`, out-of-range string slicing) become `Panicked`. */
module Parse {
  import opened Wrappers
  import opened Utf8
  import opened Text
  import opened Vectors
  import opened Space
  import opened Floats

  datatype Word2VecParser = Word2VecParser(
    parseHeader: bool,
    termSeparator: char,
    vecSeparator: char,
    binary: bool,
    indexTerms: bool)

  const NOTHING_TO_PARSE := "Nothing to parse"
  const INVALID_FORMAT := "Invalid format"
  const WRONG_BIN_FORMAT := "Wrong bin format"
  const INVALID_UTF8 := "invalid utf-8 sequence"
  const NOT_IMPLEMENTED := "not yet implemented"
  const BAD_SLICE := "string slice out of range or not on a char boundary"
  const UNWRAP_NONE := "called `Option::unwrap()` on a `None` value"
  const UNWRAP_ERR := "called `Result::unwrap()` on an `Err` value: "

  /** `Word2VecParser::default`: a header line, space separators, text, no index. */
  function Default(): (p: Word2VecParser)
    ensures p.parseHeader && !p.binary && !p.indexTerms
    ensures p.termSeparator == ' ' && p.vecSeparator == ' '
  {
    Word2VecParser(true, ' ', ' ', false, false)
  }

  /** `Word2VecParser::new`. */
  function NewParser(): (p: Word2VecParser)
    ensures p == Default()
  {
    Default()
  }

  /** `binary`: read the binary format. */
  function Binary(p: Word2VecParser): (r: Word2VecParser)
    ensures r.binary
    ensures r.parseHeader == p.parseHeader && r.indexTerms == p.indexTerms
    ensures r.termSeparator == p.termSeparator && r.vecSeparator == p.vecSeparator
  {
    p.(binary := true)
  }

  /** `no_header`: the first line is a record. */
  function NoHeader(p: Word2VecParser): (r: Word2VecParser)
    ensures !r.parseHeader
    ensures r.binary == p.binary && r.indexTerms == p.indexTerms
    ensures r.termSeparator == p.termSeparator && r.vecSeparator == p.vecSeparator
  {
    p.(parseHeader := false)
  }

  /** `cust_term_separator`. */
  function CustTermSeparator(p: Word2VecParser, sep: char): (r: Word2VecParser)
    ensures r.termSeparator == sep
    ensures r.parseHeader == p.parseHeader && r.binary == p.binary && r.indexTerms == p.indexTerms
    ensures r.vecSeparator == p.vecSeparator
  {
    p.(termSeparator := sep)
  }

  /** `cust_vec_separator`. */
  function CustVecSeparator(p: Word2VecParser, sep: char): (r: Word2VecParser)
    ensures r.vecSeparator == sep
    ensures r.parseHeader == p.parseHeader && r.binary == p.binary && r.indexTerms == p.indexTerms
    ensures r.termSeparator == p.termSeparator
  {
    p.(vecSeparator := sep)
  }

  /** `index_terms`: whether the parsed store gets a term index. */
  function SetIndexTerms(p: Word2VecParser, index: bool): (r: Word2VecParser)
    ensures r.indexTerms == index
    ensures r.parseHeader == p.parseHeader && r.binary == p.binary
    ensures r.termSeparator == p.termSeparator && r.vecSeparator == p.vecSeparator
  {
    p.(indexTerms := index)
  }

  /** `str::from_utf8`. */
  function FromUtf8(b: seq<byte>): (r: Result<string>)
    ensures r.Ok? <==> Decode(b).Some?
    ensures r.Ok? ==> Encode(r.value) == b
    ensures r.Err? ==> r.error == INVALID_UTF8
  {
    match Decode(b)
    case None => Err(INVALID_UTF8)
    case Some(s) =>
      EncodeDecode(b);
      Ok(s)
  }

  /** `core::num::IntErrorKind`, the kinds of error `usize::from_str` reports. */
  datatype IntErrorKind = Empty | InvalidDigit | PosOverflow

  /** The message each kind displays as. */
  function IntErrorMessage(k: IntErrorKind): string {
    match k
    case Empty => "cannot parse integer from empty string"
    case InvalidDigit => "invalid digit found in string"
    case PosOverflow => "number too large to fit in target type"
  }

  /** Which error `usize::from_str` reports for a string it rejects. The digits after an
      optional `+` are read one at a time and the first character that is not a digit,
      or that takes the value to 2^64 or more, decides; the value only grows along the
      digits, so overflow comes first exactly when the leading digits alone are too
      large. */
  function UsizeErrorKind(s: string): IntErrorKind
    requires ParseUsize(s).None?
  {
    var digits := if |s| > 0 && s[0] == '+' then s[1..] else s;
    if |s| == 0 then Empty
    else if DigitsValue(digits[..LeadingDigits(digits)]) >= USIZE_LIMIT then PosOverflow
    else InvalidDigit
  }

  /** The message of `usize`'s parse error. */
  function UsizeError(s: string): string
    requires ParseUsize(s).None?
  {
    IntErrorMessage(UsizeErrorKind(s))
  }

  /** The result of `usize::from_str`. */
  datatype IntRead = IntOk(value: nat) | IntErr(kind: IntErrorKind)

  /** `usize::from_str` as the standard library runs it: an empty string is an error;
      a leading `+` is skipped; then the digits are read one at a time, and the first
      character that is not a digit, or that takes the value to 2^64 or more, ends the
      read with its error. */
  function FromStr(s: string): IntRead {
    if |s| == 0 then IntErr(Empty)
    else
      var digits := if s[0] == '+' then s[1..] else s;
      if |digits| == 0 then IntErr(InvalidDigit) else CheckedDigits(digits, 0)
  }

  /** The checked loop of `from_str`, from the value `acc` read so far. */
  function CheckedDigits(digits: string, acc: nat): IntRead
    decreases |digits|
  {
    if |digits| == 0 then IntOk(acc)
    else if !IsDigit(digits[0]) then IntErr(InvalidDigit)
    else
      var next := acc * 10 + (digits[0] as int - '0' as int);
      if next >= USIZE_LIMIT then IntErr(PosOverflow) else CheckedDigits(digits[1..], next)
  }

  /** The digit loop agrees with `ParseUsize` on what reads and with `UsizeErrorKind` on
      which error a failure reports. */
  lemma FromStrAgrees(s: string)
    ensures FromStr(s).IntOk? <==> ParseUsize(s).Some?
    ensures FromStr(s).IntOk? ==> FromStr(s).value == ParseUsize(s).value
    ensures FromStr(s).IntErr? ==> FromStr(s).kind == UsizeErrorKind(s)
  {
    if |s| > 0 {
      var digits := if s[0] == '+' then s[1..] else s;
      if |digits| == 0 {
        assert digits[..LeadingDigits(digits)] == [];
      } else {
        assert digits[..0] == [] && digits[0..] == digits;
        CheckedDigitsReads(digits, 0);
        assert FromStr(s) == CheckedDigits(digits, 0);
        if LeadingDigits(digits) == |digits| {
          assert digits[..LeadingDigits(digits)] == digits;
        }
      }
    }
  }

  /** What the checked loop's result `r` says about the whole text `w` it has read, in
      terms of the run of digits `w` starts with: success exactly when that run is all of
      `w` and is worth less than 2^64, with its value; otherwise the error is overflow
      exactly when the run is worth 2^64 or more. */
  ghost predicate LoopReads(r: IntRead, w: string) {
    var lead := w[..LeadingDigits(w)];
    && (r.IntOk? <==> LeadingDigits(w) == |w| && DigitsValue(lead) < USIZE_LIMIT)
    && (r.IntOk? ==> r.value == DigitsValue(lead))
    && (r.IntErr? ==> r.kind != Empty)
    && (r.IntErr? ==> (r.kind == PosOverflow <==> DigitsValue(lead) >= USIZE_LIMIT))
  }

  /** Proof helper for `FromStrAgrees`: the loop over the rest of `w`, after its first
      `k` characters have been read as digits, reads `w`. */
  lemma {:induction false} CheckedDigitsReads(w: string, k: nat)
    requires k <= |w|
    requires forall i :: 0 <= i < k ==> IsDigit(w[i])
    requires DigitsValue(w[..k]) < USIZE_LIMIT
    ensures LoopReads(CheckedDigits(w[k..], DigitsValue(w[..k])), w)
    decreases |w| - k
  {
    if k == |w| {
      assert w[..k] == w;
    } else if !IsDigit(w[k]) {
      CheckedStopsAtNonDigit(w, k);
    } else {
      DigitsValueNext(w, k);
      if DigitsValue(w[..k + 1]) < USIZE_LIMIT {
        assert w[k..][1..] == w[k + 1..];
        CheckedDigitsReads(w, k + 1);
      } else {
        CheckedOverflows(w, k);
      }
    }
  }

  /** Proof helper: one more digit multiplies the value by ten and adds the digit. */
  lemma DigitsValueNext(w: string, k: nat)
    requires k < |w|
    requires forall i :: 0 <= i <= k ==> IsDigit(w[i])
    ensures DigitsValue(w[..k + 1]) == DigitsValue(w[..k]) * 10 + (w[k] as int - '0' as int)
  {
    assert w[..k + 1][..k] == w[..k];
  }

  /** Proof helper: a non-digit after `k` digits ends the loop with `InvalidDigit`. */
  lemma CheckedStopsAtNonDigit(w: string, k: nat)
    requires k < |w|
    requires forall i :: 0 <= i < k ==> IsDigit(w[i])
    requires DigitsValue(w[..k]) < USIZE_LIMIT
    requires !IsDigit(w[k])
    ensures LoopReads(CheckedDigits(w[k..], DigitsValue(w[..k])), w)
  {
    assert LeadingDigits(w) == k;
  }

  /** Proof helper: a digit that takes the value to 2^64 or more ends the loop with
      `PosOverflow`, and the leading digits of the whole text are worth that much too. */
  lemma CheckedOverflows(w: string, k: nat)
    requires k < |w|
    requires forall i :: 0 <= i <= k ==> IsDigit(w[i])
    requires DigitsValue(w[..k + 1]) >= USIZE_LIMIT
    requires DigitsValue(w[..k + 1]) == DigitsValue(w[..k]) * 10 + (w[k] as int - '0' as int)
    ensures LoopReads(CheckedDigits(w[k..], DigitsValue(w[..k])), w)
  {
    assert CheckedDigits(w[k..], DigitsValue(w[..k])) == IntErr(PosOverflow);
    LeadingDigitsCover(w, k + 1);
  }

  /** The message of `f32`'s parse error. */
  function FloatError(s: string): string {
    if |s| == 0 then "cannot parse float from empty string" else "invalid float literal"
  }

  // ---- header ----

  /** `parse_header_txt`: the first two space-separated tokens are the record count
      and the dimension; extra tokens are ignored. The first token always exists; a
      missing second one is an `unwrap` on `None`. */
  function ParseHeaderTxt(line: string): (r: Outcome<(nat, nat)>)
    ensures r.Done? ==> r.value.0 < USIZE_LIMIT && r.value.1 < USIZE_LIMIT
    ensures r.Done? ==> exists a, b, rest ::
      && Join(' ', [a, b] + rest) == line && ' ' !in a && ' ' !in b
      && ParseUsize(a) == Some(r.value.0) && ParseUsize(b) == Some(r.value.1)
    ensures r.Panicked? <==> ' ' !in line && ParseUsize(line).Some?
    ensures var t := Split(line, ' ');
      |t| >= 2 && ParseUsize(t[0]).Some? && ParseUsize(t[1]).Some?
      ==> r == Done((ParseUsize(t[0]).value, ParseUsize(t[1]).value))
    ensures var t := Split(line, ' ');
      ParseUsize(t[0]).None? ==> r == Failed(UsizeError(t[0]))
    ensures var t := Split(line, ' ');
      |t| >= 2 && ParseUsize(t[0]).Some? && ParseUsize(t[1]).None? ==> r == Failed(UsizeError(t[1]))
  {
    var tokens := Split(line, ' ');
    SplitSeparates(line, ' ');
    assert |tokens| >= 2 ==> [tokens[0], tokens[1]] + tokens[2..] == tokens;
    HeaderTokens(tokens)
  }

  /** The header's tokens read as count and dimension. */
  function HeaderTokens(tokens: seq<string>): (r: Outcome<(nat, nat)>)
    requires |tokens| >= 1
    ensures r.Panicked? <==> |tokens| < 2 && ParseUsize(tokens[0]).Some?
    ensures r.Done? <==> |tokens| >= 2 && ParseUsize(tokens[0]).Some? && ParseUsize(tokens[1]).Some?
    ensures r.Done? ==> r == Done((ParseUsize(tokens[0]).value, ParseUsize(tokens[1]).value))
    ensures ParseUsize(tokens[0]).None? ==> r == Failed(UsizeError(tokens[0]))
    ensures |tokens| >= 2 && ParseUsize(tokens[0]).Some? && ParseUsize(tokens[1]).None?
      ==> r == Failed(UsizeError(tokens[1]))
  {
    match ParseUsize(tokens[0])
    case None => Failed(UsizeError(tokens[0]))
    case Some(count) =>
      if |tokens| < 2 then Panicked(UNWRAP_NONE)
      else
        match ParseUsize(tokens[1])
        case None => Failed(UsizeError(tokens[1]))
        case Some(dim) => Done((count, dim))
  }

  /** `parse_header`: the binary header reader is not written yet; the text one
      decodes the line and trims surrounding whitespace first. */
  function ParseHeader(p: Word2VecParser, line: seq<byte>): (r: Outcome<(nat, nat)>)
    ensures p.binary ==> r == Panicked(NOT_IMPLEMENTED)
    ensures !p.binary && Decode(line).None? ==> r == Failed(INVALID_UTF8)
    ensures !p.binary && Decode(line).Some? ==> r == ParseHeaderTxt(Trim(Decode(line).value))
  {
    if p.binary then Panicked(NOT_IMPLEMENTED)
    else match FromUtf8(line)
      case Err(e) => Failed(e)
      case Ok(s) => ParseHeaderTxt(Trim(s))
  }

  // ---- records ----

  /** Where the value part of a text line stops. `DropLastChar` is the source's
      `line.len() - 1`, which always drops the last character; `DropNewline` drops it
      only when it is the line break. */
  datatype LineEnd = DropLastChar | DropNewline

  /** Each token read as an `f32`; the first failure is the error. */
  function ParseValues(tokens: seq<string>, ff: FloatFormat): (r: Result<seq<real>>)
    ensures r.Ok? <==> forall i :: 0 <= i < |tokens| ==> ff.parse(tokens[i]).Some?
    ensures r.Ok? ==> |r.value| == |tokens|
    ensures r.Ok? ==> forall i :: 0 <= i < |tokens| ==> r.value[i] == ff.parse(tokens[i]).value
    ensures r.Err? ==> r.error == FloatError(tokens[FirstUnparsed(tokens, ff)])
  {
    if |tokens| == 0 then Ok([])
    else match ff.parse(tokens[0])
      case None => Err(FloatError(tokens[0]))
      case Some(x) =>
        match ParseValues(tokens[1..], ff)
        case Err(e) => Err(e)
        case Ok(xs) => Ok([x] + xs)
  }

  /** The position of the first token that does not parse. */
  function FirstUnparsed(tokens: seq<string>, ff: FloatFormat): (i: nat)
    requires exists j :: 0 <= j < |tokens| && ff.parse(tokens[j]).None?
    ensures i < |tokens| && ff.parse(tokens[i]).None?
    ensures forall j :: 0 <= j < i ==> ff.parse(tokens[j]).Some?
  {
    if ff.parse(tokens[0]).None? then 0
    else
      var j :| 0 <= j < |tokens| && ff.parse(tokens[j]).None?;
      assert 0 <= j - 1 < |tokens[1..]| && ff.parse(tokens[1..][j - 1]).None?;
      1 + FirstUnparsed(tokens[1..], ff)
  }

  /** `parse_vec_txt`: the term runs up to the first term separator; the values are
      the pieces, split at the value separator, of what lies between that separator
      and the line's end as `rule` cuts it.

      The source slices by byte offset. The start, one byte after the separator, is a
      character boundary exactly when the separator is ASCII; under `DropLastChar` the
      end, one byte before the end, is one exactly when the last character is ASCII;
      and with both on boundaries the offsets compare as the character positions do. */
  function ParseVecTxt(p: Word2VecParser, line: string, rule: LineEnd, ff: FloatFormat): (r: Outcome<Vector>)
    ensures r == Failed(INVALID_FORMAT) <==> p.termSeparator !in line
    ensures r.Panicked? <==> p.termSeparator in line && !Sliceable(p, line, rule)
    ensures r.Done? ==> Sliceable(p, line, rule) && r.value.term == line[..Find(line, p.termSeparator).value]
    ensures r.Done? ==> p.termSeparator !in r.value.term
    ensures r.Done? ==> |line| > |r.value.term| && line[..|r.value.term|] == r.value.term
                        && line[|r.value.term|] == p.termSeparator
    ensures r.Done? ==> exists toks ::
      && |toks| >= 1 && Join(p.vecSeparator, toks) == ValuePart(p, line, rule)
      && (forall i :: 0 <= i < |toks| ==> p.vecSeparator !in toks[i])
      && |toks| == |r.value.data|
      && (forall i :: 0 <= i < |toks| ==> ff.parse(toks[i]) == Some(r.value.data[i]))
    ensures Sliceable(p, line, rule) && AllParse(Split(ValuePart(p, line, rule), p.vecSeparator), ff)
            ==> r.Done?
    ensures r.Failed? && r != Failed(INVALID_FORMAT) ==>
      && Sliceable(p, line, rule)
      && FirstBadPiece(Split(ValuePart(p, line, rule), p.vecSeparator), ff, r.error)
  {
    match Find(line, p.termSeparator)
    case None => Failed(INVALID_FORMAT)
    case Some(k) =>
      if !Sliceable(p, line, rule) then Panicked(BAD_SLICE)
      else
        var tokens := Split(ValuePart(p, line, rule), p.vecSeparator);
        match ParseValues(tokens, ff)
        case Err(e) =>
          var i := FirstUnparsed(tokens, ff);
          assert FloatError(tokens[i]) != INVALID_FORMAT;
          assert FirstBadPiece(tokens, ff, e) by {
            assert 0 <= i < |tokens| && ff.parse(tokens[i]).None?
                   && (forall j :: 0 <= j < i ==> ff.parse(tokens[j]).Some?)
                   && e == FloatError(tokens[i]);
          }
          Failed(e)
        case Ok(values) =>
          assert Join(p.vecSeparator, tokens) == ValuePart(p, line, rule);
          Done(Vector(values, line[..k]))
  }

  /** Every piece parses as a float. */
  ghost predicate AllParse(toks: seq<string>, ff: FloatFormat) {
    forall i :: 0 <= i < |toks| ==> ff.parse(toks[i]).Some?
  }

  /** `e` reports the first piece of `toks` that does not parse as a float. */
  ghost predicate FirstBadPiece(toks: seq<string>, ff: FloatFormat, e: string) {
    exists i :: && 0 <= i < |toks| && ff.parse(toks[i]).None?
                && (forall j :: 0 <= j < i ==> ff.parse(toks[j]).Some?)
                && e == FloatError(toks[i])
  }

  /** Where the value part of a line ends under `rule`. */
  function ValueEnd(line: string, rule: LineEnd): (e: nat)
    requires |line| > 0
    ensures e <= |line|
  {
    match rule
    case DropLastChar => |line| - 1
    case DropNewline => if line[|line| - 1] == '\n' then |line| - 1 else |line|
  }

  /** The line holds the term separator, and the value part after it starts and ends on
      character boundaries, so slicing it out by byte offset does not panic. */
  predicate Sliceable(p: Word2VecParser, line: string, rule: LineEnd) {
    match Find(line, p.termSeparator)
    case None => false
    case Some(k) =>
      && IsAscii(p.termSeparator)
      && (rule == DropLastChar ==> IsAscii(line[|line| - 1]))
      && k + 1 <= ValueEnd(line, rule)
  }

  /** The text between the first term separator and the end of the value part. */
  function ValuePart(p: Word2VecParser, line: string, rule: LineEnd): string
    requires Sliceable(p, line, rule)
  {
    var k := Find(line, p.termSeparator).value;
    line[k + 1..ValueEnd(line, rule)]
  }

  /** Proof helper: `ParseVecTxt`'s contract with the value part spelled out by
      offsets, as the round-trip proofs use it. */
  lemma ParseVecTxtBody(p: Word2VecParser, line: string, rule: LineEnd, ff: FloatFormat, k: nat, end: nat)
    requires Find(line, p.termSeparator) == Some(k) && IsAscii(p.termSeparator)
    requires end == match rule
               case DropLastChar => |line| - 1
               case DropNewline => if line[|line| - 1] == '\n' then |line| - 1 else |line|
    requires rule == DropLastChar ==> IsAscii(line[|line| - 1])
    requires k + 1 <= end
    ensures var values := ParseValues(Split(line[k + 1..end], p.vecSeparator), ff);
      && (ParseVecTxt(p, line, rule, ff).Done? <==> values.Ok?)
      && (values.Ok? ==> ParseVecTxt(p, line, rule, ff) == Done(Vector(values.value, line[..k])))
  {
  }

  /** `parse_vec_bin`: finds the space after the term and decodes the term, then
      stops at `todo!()`; so it never yields a record. */
  function ParseVecBin(line: seq<byte>): (r: Outcome<Vector>)
    ensures !r.Done?
    ensures r == Failed(WRONG_BIN_FORMAT) <==> SPACE !in line
    ensures r.Panicked? <==> SPACE in line && Decode(line[..Find(line, SPACE).value]).Some?
  {
    match Find(line, SPACE)
    case None => Failed(WRONG_BIN_FORMAT)
    case Some(i) =>
      match FromUtf8(line[..i])
      case Err(e) => Failed(e)
      case Ok(_) => Panicked(NOT_IMPLEMENTED)
  }

  /** `parse_vec`: dispatches on the mode; a text line must be valid UTF-8. */
  function ParseVec(p: Word2VecParser, line: seq<byte>, rule: LineEnd, ff: FloatFormat): (r: Outcome<Vector>)
    ensures p.binary ==> !r.Done?
    ensures !p.binary && Decode(line).None? ==> r == Failed(INVALID_UTF8)
    ensures !p.binary && Decode(line).Some? ==> r == ParseVecTxt(p, Decode(line).value, rule, ff)
  {
    if p.binary then ParseVecBin(line)
    else match FromUtf8(line)
      case Err(e) => Failed(e)
      case Ok(s) => ParseVecTxt(p, s, rule, ff)
  }

  // ---- the read loop ----

  /** The lines after the first: each record is parsed and `unwrap`ped, then inserted
      with `?`. */
  function ParseLines(p: Word2VecParser, space: VecSpace, lines: seq<seq<byte>>, rule: LineEnd, ff: FloatFormat)
    : (r: Outcome<VecSpace>)
    decreases |lines|
    ensures p.binary && |lines| > 0 ==> r.Panicked?
    ensures r.Done? ==> Len(r.value) == Len(space) + |lines|
    ensures r.Done? ==> r.value.dimension == space.dimension
    ensures r.Done? ==> r.value.termMap.Some? == space.termMap.Some?
    ensures r.Done? ==> space.words <= r.value.words && space.vecData <= r.value.vecData
    ensures r.Done? && Valid(space) ==> Valid(r.value)
    ensures r.Done? ==> exists vs :: Extends(Reader(p, rule, ff), lines, space, vs, r.value)
  {
    if |lines| == 0 then
      assert Extends(Reader(p, rule, ff), lines, space, [], space);
      Done(space)
    else match ParseVec(p, lines[0], rule, ff)
      case Failed(e) => Panicked(UNWRAP_ERR + e)
      case Panicked(why) => Panicked(why)
      case Done(v) =>
        match Insert(space, v)
        case Err(e) => Failed(e)
        case Ok(next) =>
          var r := ParseLines(p, next, lines[1..], rule, ff);
          ReadOneMore(Reader(p, rule, ff), space, lines, v, next, r);
          r
  }

  /** Reading one line as a record, under `rule`. */
  function Reader(p: Word2VecParser, rule: LineEnd, ff: FloatFormat): seq<byte> -> Outcome<Vector> {
    line => ParseVec(p, line, rule, ff)
  }

  /** Each line reads as the record at the same position of `vs`. */
  ghost predicate ReadAs(read: seq<byte> -> Outcome<Vector>, lines: seq<seq<byte>>, vs: seq<Vector>) {
    && |vs| == |lines|
    && forall i :: 0 <= i < |lines| ==> read(lines[i]) == Done(vs[i])
  }

  /** The lines read as the records `vs`, all of the store's dimension, and `out` is
      `space` extended by them in order. */
  ghost predicate Extends(read: seq<byte> -> Outcome<Vector>, lines: seq<seq<byte>>, space: VecSpace,
                          vs: seq<Vector>, out: VecSpace) {
    && ReadAs(read, lines, vs)
    && AllOfDimension(vs, space.dimension)
    && out == Extend(space, vs)
  }

  /** Proof helper for `ParseLines`: a record read and inserted in front of the
      records the rest of the lines read. */
  lemma ReadOneMore(read: seq<byte> -> Outcome<Vector>, space: VecSpace, lines: seq<seq<byte>>,
                    v: Vector, next: VecSpace, out: Outcome<VecSpace>)
    requires |lines| > 0 && read(lines[0]) == Done(v) && Insert(space, v) == Ok(next)
    requires out.Done? ==> exists vs :: Extends(read, lines[1..], next, vs, out.value)
    ensures out.Done? ==> exists vs :: Extends(read, lines, space, vs, out.value)
  {
    if out.Done? {
      var vs :| Extends(read, lines[1..], next, vs, out.value);
      ReadAsCons(read, lines, v, vs);
      ExtendCons(space, v, next, vs);
      assert Extends(read, lines, space, [v] + vs, out.value);
    }
  }

  /** The loop after the first line reads every line that reads as a record of the
      store's dimension: it ends with the store extended by those records. */
  lemma {:induction false} ParseLinesComplete(p: Word2VecParser, space: VecSpace, lines: seq<seq<byte>>,
                                              rule: LineEnd, ff: FloatFormat, vs: seq<Vector>)
    requires ReadAs(Reader(p, rule, ff), lines, vs) && AllOfDimension(vs, space.dimension)
    ensures ParseLines(p, space, lines, rule, ff) == Done(Extend(space, vs))
    decreases |lines|
  {
    if |lines| == 0 {
      assert vs == [];
    } else {
      ReadAsTail(Reader(p, rule, ff), lines, vs);
      ExtendStep(space, vs);
      ParseLinesStep(p, space, lines, rule, ff, vs[0]);
      ParseLinesComplete(p, Insert(space, vs[0]).value, lines[1..], rule, ff, vs[1..]);
    }
  }

  /** Proof helper: a line that reads as a record of the store's dimension is inserted and the read
      goes on with the next line. */
  lemma ParseLinesStep(p: Word2VecParser, space: VecSpace, lines: seq<seq<byte>>, rule: LineEnd,
                       ff: FloatFormat, v: Vector)
    requires |lines| > 0 && ParseVec(p, lines[0], rule, ff) == Done(v) && Dim(v) == space.dimension
    ensures ParseLines(p, space, lines, rule, ff) == ParseLines(p, Insert(space, v).value, lines[1..], rule, ff)
  {
  }

  /** Proof helper: the first line reads as the first record and the rest as the rest. */
  lemma ReadAsTail(read: seq<byte> -> Outcome<Vector>, lines: seq<seq<byte>>, vs: seq<Vector>)
    requires |lines| > 0 && ReadAs(read, lines, vs)
    ensures read(lines[0]) == Done(vs[0]) && ReadAs(read, lines[1..], vs[1..])
  {
    forall i | 0 <= i < |lines| - 1 ensures read(lines[1..][i]) == Done(vs[1..][i]) {
      assert lines[1..][i] == lines[i + 1] && vs[1..][i] == vs[i + 1];
    }
  }

  /** Proof helper: a line read as `v` in front of lines read as `vs`. */
  lemma ReadAsCons(read: seq<byte> -> Outcome<Vector>, lines: seq<seq<byte>>, v: Vector, vs: seq<Vector>)
    requires |lines| > 0 && read(lines[0]) == Done(v) && ReadAs(read, lines[1..], vs)
    ensures ReadAs(read, lines, [v] + vs)
  {
    var all := [v] + vs;
    forall i | 0 <= i < |lines| ensures read(lines[i]) == Done(all[i]) {
      if i > 0 {
        assert lines[i] == lines[1..][i - 1];
      }
    }
  }

  /** The first line: the header's dimension makes an empty store, or, without a
      header, the first record fixes the dimension and is inserted. */
  function ParseFirst(p: Word2VecParser, line: seq<byte>, rule: LineEnd, ff: FloatFormat): (r: Outcome<VecSpace>)
    ensures r.Done? ==> Valid(r.value) && r.value.termMap.None?
    ensures r.Done? ==> Len(r.value) == if p.parseHeader then 0 else 1
    ensures p.binary ==> !r.Done?
  {
    if p.parseHeader then
      match ParseHeader(p, line)
      case Done(header) => Done(New(header.1))
      case Failed(e) => Failed(e)
      case Panicked(why) => Panicked(why)
    else
      match ParseVec(p, line, rule, ff)
      case Done(v) =>
        (match Insert(New(Dim(v)), v)
         case Ok(s) => Done(s)
         case Err(e) => Failed(e))
      case Failed(e) => Failed(e)
      case Panicked(why) => Panicked(why)
  }

  /** With a header, the first line only fixes the dimension: the store starts empty
      and the count is ignored. */
  lemma HeaderFixesDimension(p: Word2VecParser, line: seq<byte>, rule: LineEnd, ff: FloatFormat,
                             count: nat, dim: nat)
    requires p.parseHeader && ParseHeader(p, line) == Done((count, dim))
    ensures ParseFirst(p, line, rule, ff) == Done(New(dim))
  {
  }

  /** Without a header, the first record fixes the dimension and becomes the store's
      first record. */
  lemma FirstRecordFixesDimension(p: Word2VecParser, line: seq<byte>, rule: LineEnd, ff: FloatFormat,
                                  v: Vector)
    requires !p.parseHeader && ParseVec(p, line, rule, ff) == Done(v)
    ensures ParseFirst(p, line, rule, ff) == Done(Insert(New(Dim(v)), v).value)
    ensures var s := ParseFirst(p, line, rule, ff).value;
      s.dimension == Dim(v) && Len(s) == 1 && Get(s, 0) == Some(v)
  {
    InsertThenGet(New(Dim(v)), v, 0);
  }

  /** A later record of another dimension ends the read with the insert's error. */
  lemma WrongDimensionFails(p: Word2VecParser, space: VecSpace, lines: seq<seq<byte>>, rule: LineEnd,
                            ff: FloatFormat, v: Vector)
    requires |lines| > 0 && ParseVec(p, lines[0], rule, ff) == Done(v) && Dim(v) != space.dimension
    ensures ParseLines(p, space, lines, rule, ff) == Failed(DimensionError(Dim(v), space.dimension))
  {
  }

  /** The store a read builds from the records `vs` of dimension `d`: the index is on
      from the start when the parser asks for it. */
  function Built(p: Word2VecParser, d: nat, vs: seq<Vector>): VecSpace
    requires AllOfDimension(vs, d)
  {
    Extend(Indexed(p, New(d)), vs)
  }

  /** The store with the index switched on when the parser asks for it. */
  function Indexed(p: Word2VecParser, s: VecSpace): VecSpace {
    if p.indexTerms then WithTermmap(s) else s
  }

  /** `input` reads as the records `vs`, all of dimension `d`: with a header, the first
      line is a header giving `d` and every later line reads as the record at its
      position; without one, every line reads as the record at its position. */
  ghost predicate InputReadAs(p: Word2VecParser, input: seq<byte>, rule: LineEnd, ff: FloatFormat,
                              vs: seq<Vector>, d: nat) {
    var lines := Lines(input, NEWLINE);
    && |lines| > 0
    && AllOfDimension(vs, d)
    && if p.parseHeader then
         && ParseHeader(p, lines[0]).Done? && ParseHeader(p, lines[0]).value.1 == d
         && ReadAs(Reader(p, rule, ff), lines[1..], vs)
       else
         ReadAs(Reader(p, rule, ff), lines, vs)
  }

  /** `Word2VecParser::parse` with the given end-of-line rule. */
  function ParseWith(p: Word2VecParser, input: seq<byte>, rule: LineEnd, ff: FloatFormat): (r: Outcome<VecSpace>)
    ensures |input| == 0 ==> r == Failed(NOTHING_TO_PARSE)
    ensures p.binary ==> !r.Done?
    ensures r.Done? ==> Valid(r.value)
    ensures r.Done? ==> r.value.termMap.Some? == p.indexTerms
    ensures r.Done? ==> Len(r.value) == |Lines(input, NEWLINE)| - if p.parseHeader then 1 else 0
    ensures r.Done? ==> exists vs, d :: InputReadAs(p, input, rule, ff, vs, d) && r.value == Built(p, d, vs)
  {
    var lines := Lines(input, NEWLINE);
    if |lines| == 0 then
      assert input == Concat(lines) == [];
      Failed(NOTHING_TO_PARSE)
    else
      match ParseFirst(p, lines[0], rule, ff)
      case Failed(e) => Failed(e)
      case Panicked(why) => Panicked(why)
      case Done(first) =>
        var r := ParseLines(p, Indexed(p, first), lines[1..], rule, ff);
        ReadInput(p, input, rule, ff, first, r);
        r
  }

  /** Proof helper for `ParseWith`: the records the later lines read, behind the first
      line's dimension or record, are what the whole input reads as. */
  lemma ReadInput(p: Word2VecParser, input: seq<byte>, rule: LineEnd, ff: FloatFormat,
                  first: VecSpace, out: Outcome<VecSpace>)
    requires |Lines(input, NEWLINE)| > 0
    requires ParseFirst(p, Lines(input, NEWLINE)[0], rule, ff) == Done(first)
    requires out.Done? ==> exists vs :: Extends(Reader(p, rule, ff), Lines(input, NEWLINE)[1..],
                                                Indexed(p, first), vs, out.value)
    ensures out.Done? ==> exists vs, d :: InputReadAs(p, input, rule, ff, vs, d) && out.value == Built(p, d, vs)
  {
    if out.Done? {
      var lines := Lines(input, NEWLINE);
      var vs :| Extends(Reader(p, rule, ff), lines[1..], Indexed(p, first), vs, out.value);
      if p.parseHeader {
        ReadAfterHeader(p, input, rule, ff, first, vs, out.value);
      } else {
        ReadFromFirst(p, input, rule, ff, first, vs, out.value);
      }
    }
  }

  lemma ReadAfterHeader(p: Word2VecParser, input: seq<byte>, rule: LineEnd, ff: FloatFormat,
                        first: VecSpace, vs: seq<Vector>, out: VecSpace)
    requires |Lines(input, NEWLINE)| > 0 && p.parseHeader
    requires ParseFirst(p, Lines(input, NEWLINE)[0], rule, ff) == Done(first)
    requires Extends(Reader(p, rule, ff), Lines(input, NEWLINE)[1..], Indexed(p, first), vs, out)
    ensures exists vs, d :: InputReadAs(p, input, rule, ff, vs, d) && out == Built(p, d, vs)
  {
    var d := ParseHeader(p, Lines(input, NEWLINE)[0]).value.1;
    assert InputReadAs(p, input, rule, ff, vs, d) && out == Built(p, d, vs);
  }

  lemma ReadFromFirst(p: Word2VecParser, input: seq<byte>, rule: LineEnd, ff: FloatFormat,
                      first: VecSpace, vs: seq<Vector>, out: VecSpace)
    requires |Lines(input, NEWLINE)| > 0 && !p.parseHeader
    requires ParseFirst(p, Lines(input, NEWLINE)[0], rule, ff) == Done(first)
    requires Extends(Reader(p, rule, ff), Lines(input, NEWLINE)[1..], Indexed(p, first), vs, out)
    ensures exists vs, d :: InputReadAs(p, input, rule, ff, vs, d) && out == Built(p, d, vs)
  {
    var lines := Lines(input, NEWLINE);
    var v := FirstRecordRead(p, lines[0], rule, ff, first);
    ReadFromRecord(Reader(p, rule, ff), p, lines, v, vs, out);
    ReadWithoutHeader(p, input, rule, ff, [v] + vs, Dim(v));
  }

  /** Proof helper: without a header, the first line's store holds the record it reads. */
  lemma FirstRecordRead(p: Word2VecParser, line: seq<byte>, rule: LineEnd, ff: FloatFormat, first: VecSpace)
    returns (v: Vector)
    requires !p.parseHeader && ParseFirst(p, line, rule, ff) == Done(first)
    ensures Reader(p, rule, ff)(line) == Done(v) && first == Insert(New(Dim(v)), v).value
  {
    v := ParseVec(p, line, rule, ff).value;
  }

  /** Proof helper: without a header, an input whose lines all read reads as their records. */
  lemma ReadWithoutHeader(p: Word2VecParser, input: seq<byte>, rule: LineEnd, ff: FloatFormat,
                          vs: seq<Vector>, d: nat)
    requires |Lines(input, NEWLINE)| > 0 && !p.parseHeader
    requires ReadAs(Reader(p, rule, ff), Lines(input, NEWLINE), vs) && AllOfDimension(vs, d)
    ensures InputReadAs(p, input, rule, ff, vs, d)
  {
  }

  lemma ReadFromRecord(read: seq<byte> -> Outcome<Vector>, p: Word2VecParser, lines: seq<seq<byte>>,
                       v: Vector, vs: seq<Vector>, out: VecSpace)
    requires |lines| > 0 && read(lines[0]) == Done(v)
    requires Extends(read, lines[1..], Indexed(p, Insert(New(Dim(v)), v).value), vs, out)
    ensures ReadAs(read, lines, [v] + vs) && AllOfDimension([v] + vs, Dim(v))
    ensures out == Built(p, Dim(v), [v] + vs)
  {
    FirstInsertIndexed(p, Dim(v), v);
    ReadAsCons(read, lines, v, vs);
    ExtendCons(Indexed(p, New(Dim(v))), v, Indexed(p, Insert(New(Dim(v)), v).value), vs);
  }

  /** Proof helper: inserting the first record and then switching the index on is
      switching it on and then inserting. */
  lemma FirstInsertIndexed(p: Word2VecParser, d: nat, v: Vector)
    requires Dim(v) == d
    ensures Insert(Indexed(p, New(d)), v) == Ok(Indexed(p, Insert(New(d), v).value))
  {
    if p.indexTerms {
      IndexLateEqualsIndexEarly(New(d), [v]);
      ExtendOne(New(d), v);
      ExtendOne(WithTermmap(New(d)), v);
    }
  }

  /** An input that reads as records of one dimension parses: the result is the store
      built from those records. */
  lemma ParseWithComplete(p: Word2VecParser, input: seq<byte>, rule: LineEnd, ff: FloatFormat,
                          vs: seq<Vector>, d: nat)
    requires InputReadAs(p, input, rule, ff, vs, d)
    ensures ParseWith(p, input, rule, ff) == Done(Built(p, d, vs))
  {
    var lines := Lines(input, NEWLINE);
    if p.parseHeader {
      var header := ParseHeader(p, lines[0]).value;
      HeaderFixesDimension(p, lines[0], rule, ff, header.0, d);
      ParseWithStep(p, input, rule, ff, New(d));
      ParseLinesComplete(p, Indexed(p, New(d)), lines[1..], rule, ff, vs);
    } else {
      ReadAsTail(Reader(p, rule, ff), lines, vs);
      FirstRecordFixesDimension(p, lines[0], rule, ff, vs[0]);
      var first := Insert(New(d), vs[0]).value;
      ParseWithStep(p, input, rule, ff, first);
      FirstInsertIndexed(p, d, vs[0]);
      ExtendStep(Indexed(p, New(d)), vs);
      ParseLinesComplete(p, Indexed(p, first), lines[1..], rule, ff, vs[1..]);
    }
  }

  /** `ParseWithComplete` for every reading of the input at once. */
  lemma ParseWithCompleteAll(p: Word2VecParser, input: seq<byte>, rule: LineEnd, ff: FloatFormat)
    ensures forall vs, d :: InputReadAs(p, input, rule, ff, vs, d) ==> ParseWith(p, input, rule, ff) == Done(Built(p, d, vs))
  {
    forall vs, d | InputReadAs(p, input, rule, ff, vs, d)
      ensures ParseWith(p, input, rule, ff) == Done(Built(p, d, vs))
    {
      ParseWithComplete(p, input, rule, ff, vs, d);
    }
  }

  /** Proof helper: once the first line gives a store, the rest of the input goes
      through the read loop. */
  lemma ParseWithStep(p: Word2VecParser, input: seq<byte>, rule: LineEnd, ff: FloatFormat, first: VecSpace)
    requires |Lines(input, NEWLINE)| > 0 && ParseFirst(p, Lines(input, NEWLINE)[0], rule, ff) == Done(first)
    ensures ParseWith(p, input, rule, ff) == ParseLines(p, Indexed(p, first), Lines(input, NEWLINE)[1..], rule, ff)
  {
  }

  /** `Word2VecParser::parse`, with the value part ending before a final line break. */
  function ParseInput(p: Word2VecParser, input: seq<byte>, ff: FloatFormat): (r: Outcome<VecSpace>)
    ensures |input| == 0 ==> r == Failed(NOTHING_TO_PARSE)
    ensures p.binary ==> !r.Done?
    ensures r.Done? ==> Valid(r.value) && r.value.termMap.Some? == p.indexTerms
    ensures r.Done? ==> Len(r.value) == |Lines(input, NEWLINE)| - if p.parseHeader then 1 else 0
    ensures r.Done? ==> exists vs, d :: InputReadAs(p, input, DropNewline, ff, vs, d) && r.value == Built(p, d, vs)
    ensures forall vs, d :: InputReadAs(p, input, DropNewline, ff, vs, d) ==> r == Done(Built(p, d, vs))
  {
    ParseWithCompleteAll(p, input, DropNewline, ff);
    ParseWith(p, input, DropNewline, ff)
  }

  /** `Word2VecParser::parse` as the source writes it: the last character of every
      line is dropped. */
  function ParseAsWritten(p: Word2VecParser, input: seq<byte>, ff: FloatFormat): (r: Outcome<VecSpace>)
    ensures |input| == 0 ==> r == Failed(NOTHING_TO_PARSE)
    ensures p.binary ==> !r.Done?
    ensures r.Done? ==> Valid(r.value) && r.value.termMap.Some? == p.indexTerms
    ensures r.Done? ==> Len(r.value) == |Lines(input, NEWLINE)| - if p.parseHeader then 1 else 0
    ensures r.Done? ==> exists vs, d :: InputReadAs(p, input, DropLastChar, ff, vs, d) && r.value == Built(p, d, vs)
    ensures forall vs, d :: InputReadAs(p, input, DropLastChar, ff, vs, d) ==> r == Done(Built(p, d, vs))
  {
    ParseWithCompleteAll(p, input, DropLastChar, ff);
    ParseWith(p, input, DropLastChar, ff)
  }
}
