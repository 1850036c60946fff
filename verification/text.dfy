/** The pieces of Rust's `str`/`usize` API the codec relies on: `find`, `split`,
    `trim`, `usize::to_string`, `usize::from_str`, and `BufRead::read_until`'s line cutting. */
module Text {
  import opened Wrappers

  /** `usize` on the 64-bit targets the library is built for. */
  const USIZE_LIMIT: nat := 0x1_0000_0000_0000_0000

  /** Position of the first `x` in `s`. */
  function Find<T(==)>(s: seq<T>, x: T): (r: Option<nat>)
    ensures r.None? <==> x !in s
    ensures r.Some? ==> r.value < |s| && s[r.value] == x && x !in s[..r.value]
  {
    if |s| == 0 then None
    else if s[0] == x then Some(0)
    else match Find(s[1..], x)
      case None => None
      case Some(i) =>
        assert s[..i + 1] == [s[0]] + s[1..][..i];
        Some(i + 1)
  }

  predicate IsAscii(c: char) {
    (c as int) < 0x80
  }

  /** Rust's `char::is_whitespace` (the Unicode White_Space property). */
  predicate IsWhitespace(c: char) {
    var n := c as int;
    (0x09 <= n <= 0x0D) || n == 0x20 || n == 0x85 || n == 0xA0 || n == 0x1680
    || (0x2000 <= n <= 0x200A) || n == 0x2028 || n == 0x2029 || n == 0x202F
    || n == 0x205F || n == 0x3000
  }

  function TrimStart(s: string): (r: string)
    ensures |r| <= |s| && r == s[|s| - |r|..]
    ensures |r| > 0 ==> !IsWhitespace(r[0])
    ensures forall i :: 0 <= i < |s| - |r| ==> IsWhitespace(s[i])
  {
    if |s| > 0 && IsWhitespace(s[0]) then
      var r := TrimStart(s[1..]);
      assert s[1..][|s| - 1 - |r|..] == s[|s| - |r|..];
      r
    else s
  }

  function TrimEnd(s: string): (r: string)
    ensures |r| <= |s| && r == s[..|r|]
    ensures |r| > 0 ==> !IsWhitespace(r[|r| - 1])
    ensures forall i :: |r| <= i < |s| ==> IsWhitespace(s[i])
  {
    if |s| > 0 && IsWhitespace(s[|s| - 1]) then TrimEnd(s[..|s| - 1]) else s
  }

  /** `str::trim`: drops leading and trailing whitespace. */
  function Trim(s: string): string {
    TrimEnd(TrimStart(s))
  }

  /** `str::split(c)`: the pieces between occurrences of `c`; never empty, and
      an empty string gives one empty piece. */
  function Split(s: string, c: char): (r: seq<string>)
    ensures |r| >= 1
    ensures forall i :: 0 <= i < |r| ==> c !in r[i]
    ensures Join(c, r) == s
    decreases |s|
  {
    match Find(s, c)
    case None => [s]
    case Some(i) =>
      var rest := Split(s[i + 1..], c);
      assert s == s[..i] + [c] + s[i + 1..];
      [s[..i]] + rest
  }

  /** The pieces with `c` between consecutive ones. */
  function Join(c: char, parts: seq<string>): string {
    if |parts| == 0 then []
    else if |parts| == 1 then parts[0]
    else parts[0] + [c] + Join(c, parts[1..])
  }

  /** Splitting undoes joining, when no piece holds the separator. */
  lemma {:induction false} SplitJoin(c: char, parts: seq<string>)
    requires |parts| >= 1
    requires forall i :: 0 <= i < |parts| ==> c !in parts[i]
    ensures Split(Join(c, parts), c) == parts
  {
    if |parts| > 1 {
      SplitAt(c, parts[0], Join(c, parts[1..]));
      SplitJoin(c, parts[1..]);
      assert parts == [parts[0]] + parts[1..];
    } else {
      assert Join(c, parts) == parts[0];
    }
  }

  /** Text cut at its first separator: the piece before it, then the pieces after. */
  lemma SplitAt(c: char, p: string, rest: string)
    requires c !in p
    ensures Split(p + [c] + rest, c) == [p] + Split(rest, c)
  {
    var s := p + [c] + rest;
    assert s[|p|] == c && s[..|p|] == p;
    assert Find(s, c) == Some(|p|);
    assert s[|p| + 1..] == rest;
  }

  /** Text splits into more than one piece exactly when it holds the separator. */
  lemma SplitSeparates(s: string, c: char)
    ensures c !in s ==> Split(s, c) == [s]
    ensures c in s <==> |Split(s, c)| >= 2
  {
    match Find(s, c)
    case None =>
    case Some(i) => assert |Split(s[i + 1..], c)| >= 1;
  }

  /** Joining with one more piece at the end. */
  lemma {:induction false} JoinSnoc(c: char, parts: seq<string>, x: string)
    ensures Join(c, parts + [x]) == if |parts| == 0 then x else Join(c, parts) + [c] + x
  {
    if |parts| > 1 {
      assert (parts + [x])[1..] == parts[1..] + [x];
      JoinSnoc(c, parts[1..], x);
    } else if |parts| == 1 {
      assert (parts + [x])[1..] == [x];
    }
  }

  /** Joined text ends with the last piece's last character. */
  lemma JoinEndsWithLast(c: char, parts: seq<string>, x: string)
    requires |x| > 0
    ensures var j := Join(c, parts + [x]);
      |j| >= |x| && j[|j| - 1] == x[|x| - 1]
  {
    JoinSnoc(c, parts, x);
  }

  /** A prefix, a space and joined pieces whose last is one character long end with
      that character. */
  lemma JoinedLineEnds(prefix: string, parts: seq<string>)
    requires |parts| > 0 && |parts[|parts| - 1]| == 1
    ensures var line := prefix + " " + Join(' ', parts);
      |line| >= |prefix| + 2 && line[|line| - 1] == parts[|parts| - 1][0]
  {
    var n := |parts|;
    assert parts == parts[..n - 1] + [parts[n - 1]];
    JoinEndsWithLast(' ', parts[..n - 1], parts[n - 1]);
    LastOfAppend(prefix + " ", Join(' ', parts));
  }

  lemma LastOfAppend(a: string, b: string)
    requires |b| > 0
    ensures |a + b| >= |a| + 1 && (a + b)[|a + b| - 1] == b[|b| - 1]
  {
  }

  /** Joining pieces whose last is one character long, then dropping that character,
      leaves an empty last piece. */
  lemma JoinDropLastChar(c: char, parts: seq<string>, x: string)
    requires |x| == 1
    ensures var j := Join(c, parts + [x]);
      |j| >= 1 && j[..|j| - 1] == Join(c, parts + [""])
  {
    JoinSnoc(c, parts, x);
    JoinSnoc(c, parts, "");
    if |parts| > 0 {
      var j := Join(c, parts) + [c];
      assert (j + x)[..|j + x| - 1] == j == j + "";
    }
  }

  /** Text that neither starts nor ends with whitespace is its own trim, with or
      without a line break after it. */
  lemma TrimUntouched(s: string)
    requires |s| > 0 && !IsWhitespace(s[0]) && !IsWhitespace(s[|s| - 1])
    ensures Trim(s) == s
    ensures Trim(s + "\n") == s
  {
    var t := s + "\n";
    assert t[..|t| - 1] == s;
  }

  function DigitChar(d: nat): char
    requires d < 10
  {
    ('0' as int + d) as char
  }

  predicate IsDigit(c: char) {
    '0' <= c <= '9'
  }

  /** `usize::to_string`: shortest decimal form. */
  function NatToString(n: nat): (r: string)
    ensures |r| >= 1 && !(r[0] == '0' && |r| > 1)
    ensures forall i :: 0 <= i < |r| ==> IsDigit(r[i])
  {
    if n < 10 then [DigitChar(n)] else NatToString(n / 10) + [DigitChar(n % 10)]
  }

  /** The value of a string of decimal digits. */
  function DigitsValue(s: string): nat
    requires forall i :: 0 <= i < |s| ==> IsDigit(s[i])
  {
    if |s| == 0 then 0
    else
      assert IsDigit(s[|s| - 1]);
      DigitsValue(s[..|s| - 1]) * 10 + (s[|s| - 1] as int - '0' as int)
  }

  /** A number's value is at least that of any of its leading digits. */
  lemma {:induction false} DigitsValuePrefix(s: string, n: nat)
    requires forall i :: 0 <= i < |s| ==> IsDigit(s[i])
    requires n <= |s|
    ensures DigitsValue(s[..n]) <= DigitsValue(s)
    decreases |s|
  {
    if n == |s| {
      assert s[..n] == s;
    } else {
      var init := s[..|s| - 1];
      DigitsValuePrefix(init, n);
      assert init[..n] == s[..n];
      assert IsDigit(s[|s| - 1]);
      assert DigitsValue(s) == DigitsValue(init) * 10 + (s[|s| - 1] as int - '0' as int);
    }
  }

  /** How many decimal digits `s` starts with. */
  function LeadingDigits(s: string): (n: nat)
    ensures n <= |s| && (n < |s| ==> !IsDigit(s[n]))
    ensures forall i :: 0 <= i < n ==> IsDigit(s[i])
  {
    if |s| == 0 || !IsDigit(s[0]) then 0 else 1 + LeadingDigits(s[1..])
  }

  /** Text whose first `k` characters are digits has at least `k` leading digits, and
      they are worth at least as much as the first `k`. */
  lemma LeadingDigitsCover(w: string, k: nat)
    requires k <= |w|
    requires forall i :: 0 <= i < k ==> IsDigit(w[i])
    ensures LeadingDigits(w) >= k
    ensures DigitsValue(w[..LeadingDigits(w)]) >= DigitsValue(w[..k])
  {
    var lead := w[..LeadingDigits(w)];
    assert lead[..k] == w[..k];
    DigitsValuePrefix(lead, k);
  }

  /** `usize::from_str`: an optional `+`, then one or more decimal digits, with a
      value that fits the type; anything else is an error. */
  function ParseUsize(s: string): (r: Option<nat>)
    ensures r.Some? ==> r.value < USIZE_LIMIT
  {
    var digits := if |s| > 0 && s[0] == '+' then s[1..] else s;
    if |digits| == 0 || LeadingDigits(digits) < |digits| then None
    else if DigitsValue(digits) >= USIZE_LIMIT then None
    else Some(DigitsValue(digits))
  }

  lemma {:induction false} DigitsValueOfNatToString(n: nat)
    ensures DigitsValue(NatToString(n)) == n
  {
    if n >= 10 {
      var s := NatToString(n);
      assert s[..|s| - 1] == NatToString(n / 10);
      DigitsValueOfNatToString(n / 10);
    }
  }

  /** Printing a `usize` and parsing it back gives the same number. */
  lemma ParseUsizeNatToString(n: nat)
    requires n < USIZE_LIMIT
    ensures ParseUsize(NatToString(n)) == Some(n)
  {
    DigitsValueOfNatToString(n);
  }

  // Proof helpers: regrouping concatenations, stated once so that callers need not
  // re-derive them.

  lemma Regroup3<T>(a: seq<T>, b: seq<T>, c: seq<T>)
    ensures a + b + c == a + (b + c)
  {
  }

  lemma Regroup<T>(a: seq<T>, b: seq<T>, c: seq<T>, d: seq<T>)
    ensures a + b + c + d == a + (b + c + d)
    ensures a + (b + c + d) == a + b + (c + d)
  {
  }

  lemma Regroup5<T>(a: seq<T>, b: seq<T>, c: seq<T>, d: seq<T>, f: seq<T>)
    ensures a + b + c + d + f == a + (b + c + d + f)
  {
  }

  /** Concatenation of a sequence of sequences. */
  function Concat<T>(ss: seq<seq<T>>): seq<T> {
    if |ss| == 0 then [] else ss[0] + Concat(ss[1..])
  }

  /** `r` cuts a sequence into non-empty chunks, each ending just after its only `nl`,
      except possibly the last, which need not end with one. */
  ghost predicate IsLineSplit<T>(r: seq<seq<T>>, nl: T) {
    && (forall i :: 0 <= i < |r| ==> |r[i]| > 0)
    && (forall i :: 0 <= i < |r| ==> nl !in r[i][..|r[i]| - 1])
    && (forall i :: 0 <= i < |r| - 1 ==> r[i][|r[i]| - 1] == nl)
  }

  /** `BufRead::read_until(nl)` called until it returns 0: chunks that each end
      just after an `nl`, except possibly the last, which runs to the end of input. */
  function Lines<T(==)>(s: seq<T>, nl: T): (r: seq<seq<T>>)
    ensures Concat(r) == s
    ensures IsLineSplit(r, nl)
    decreases |s|
  {
    if |s| == 0 then []
    else match Find(s, nl)
      case None => [s]
      case Some(i) =>
        var line := s[..i + 1];
        var rest := Lines(s[i + 1..], nl);
        assert line[..i] == s[..i];
        LineThenRest(line, rest, nl);
        assert s == line + s[i + 1..];
        [line] + rest
  }

  /** A chunk ending at its first `nl`, put before a split of the rest, is a split. */
  lemma LineThenRest<T>(line: seq<T>, rest: seq<seq<T>>, nl: T)
    requires |line| > 0 && line[|line| - 1] == nl && nl !in line[..|line| - 1]
    requires IsLineSplit(rest, nl)
    ensures Concat([line] + rest) == line + Concat(rest)
    ensures IsLineSplit([line] + rest, nl)
  {
    var r := [line] + rest;
    assert r[1..] == rest;
    forall i | 1 <= i < |r| ensures r[i] == rest[i - 1] {
    }
  }

  /** A chunk ending at the first `nl` is the first line. */
  lemma LinesCons<T>(a: seq<T>, nl: T, b: seq<T>)
    requires nl !in a
    ensures Lines(a + [nl] + b, nl) == [a + [nl]] + Lines(b, nl)
  {
    var s := a + [nl] + b;
    assert s[|a|] == nl && s[..|a|] == a;
    assert s[..|a| + 1] == a + [nl];
    assert s[|a| + 1..] == b;
  }

  /** Input without `nl` is one line. */
  lemma LinesLast<T>(a: seq<T>, nl: T)
    requires |a| > 0 && nl !in a
    ensures Lines(a, nl) == [a]
  {
  }
}
