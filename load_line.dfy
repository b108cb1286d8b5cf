/**
 * SqlEngine::parseLoadLine: one line of a load file, `key, value`, with an
 * integer key and a value that may be quoted with ' or ".
 *
 * The source walks a C string, so the line is read as the characters before
 * its first NUL; past the end of the line the walk sees the terminating NUL.
 * The library calls it makes (atoi, strchr, string::assign, string::find,
 * string::erase) are modelled by the functions below, each with a lemma that
 * says what it computes.
 */
module LoadLine {
  import opened Bruinbase

  const NUL: char := '\0'

  /** The character the source's pointer sees at offset `i`: the terminator past the end. */
  function At(line: string, i: nat): char
  {
    if i < |line| then line[i] else NUL
  }

  /** What the parser's own loops skip. */
  predicate IsBlank(c: char)
  {
    c == ' ' || c == '\t'
  }

  /** What atoi skips: isspace in the C locale. */
  predicate IsSpace(c: char)
  {
    c == ' ' || c == '\t' || c == '\n' || c == '\r' || c == '\U{000B}' || c == '\U{000C}'
  }

  predicate IsDigit(c: char)
  {
    '0' <= c <= '9'
  }

  // ---------------------------------------------------------------------
  // Runs of characters

  /** The runs of characters that the parser and the library calls it makes step over. */
  datatype Run =
    | Blanks   // the parser's loops: spaces and tabs
    | Spaces   // atoi's leading white space
    | Digits   // atoi's digits
    | Text     // a C string: anything but NUL

  predicate InRun(k: Run, c: char)
  {
    match k
    case Blanks => IsBlank(c)
    case Spaces => IsSpace(c)
    case Digits => IsDigit(c)
    case Text => c != NUL
  }

  /** Where the run of kind `k` that starts at offset `i` ends (the terminator ends every run). */
  function RunEnd(line: string, i: nat, k: Run): (r: nat)
    requires i <= |line|
    ensures i <= r <= |line|
    decreases |line| - i
  {
    if InRun(k, At(line, i)) then RunEnd(line, i + 1, k) else i
  }

  /** A run ends at `r` exactly when everything from `i` up to `r` is in it and the character at `r` is not. */
  lemma {:induction false} RunEndIs(line: string, i: nat, k: Run, r: nat)
    requires i <= r <= |line|
    ensures RunEnd(line, i, k) == r <==>
      (forall j :: i <= j < r ==> InRun(k, line[j])) && !InRun(k, At(line, r))
    decreases r - i
  {
    if i < r {
      RunEndIs(line, i + 1, k, r);
    }
  }

  /** The run really stops where RunEnd says. */
  lemma RunEndStops(line: string, i: nat, k: Run)
    requires i <= |line|
    ensures forall j :: i <= j < RunEnd(line, i, k) ==> InRun(k, line[j])
    ensures !InRun(k, At(line, RunEnd(line, i, k)))
  {
    RunEndIs(line, i, k, RunEnd(line, i, k));
  }

  /** The C string that starts at offset `i`: string::assign from a char pointer. */
  function CString(line: string, i: nat): string
    requires i <= |line|
  {
    line[i..RunEnd(line, i, Text)]
  }

  // ---------------------------------------------------------------------
  // Library calls

  /** The decimal value of a run of digits, most significant first. */
  function Decimal(ds: string): int
  {
    if ds == [] then 0 else 10 * Decimal(ds[..|ds| - 1]) + (ds[|ds| - 1] as int - '0' as int)
  }

  /**
   * atoi: white space, an optional sign, then the longest run of digits.
   * Integers are unbounded here (atoi's overflow is undefined in C).
   */
  function Atoi(line: string, i: nat): int
    requires i <= |line|
  {
    var j := RunEnd(line, i, Spaces);
    var d := if At(line, j) == '-' || At(line, j) == '+' then j + 1 else j;
    var mag := Decimal(line[d..RunEnd(line, d, Digits)]);
    if At(line, j) == '-' then -mag else mag
  }

  /** strchr: the first occurrence of `c` in the C string that starts at `i`. */
  function FindChar(line: string, i: nat, c: char): (r: Option<nat>)
    requires i <= |line| && c != NUL
    ensures r.Some? ==> i <= r.value < |line|
    decreases |line| - i
  {
    if At(line, i) == c then Some(i)
    else if At(line, i) == NUL then None
    else FindChar(line, i + 1, c)
  }

  /** strchr finds `c` at `k` exactly when `k` holds `c` and nothing before it is `c` or the terminator. */
  lemma {:induction false} FindCharIs(line: string, i: nat, c: char, k: nat)
    requires i <= |line| && c != NUL
    ensures FindChar(line, i, c) == Some(k) <==>
      i <= k < |line| && line[k] == c && forall j :: i <= j < k ==> line[j] != c && line[j] != NUL
    decreases |line| - i
  {
    if i < |line| && line[i] != c && line[i] != NUL {
      FindCharIs(line, i + 1, c, k);
    }
  }

  /** strchr finds nothing exactly when the C string holds no `c`. */
  lemma {:induction false} FindCharNone(line: string, i: nat, c: char)
    requires i <= |line| && c != NUL
    ensures FindChar(line, i, c).None? <==> forall j :: i <= j < RunEnd(line, i, Text) ==> line[j] != c
    decreases |line| - i
  {
    if i < |line| && line[i] != c && line[i] != NUL {
      FindCharNone(line, i + 1, c);
    }
  }

  /** string::find: the first occurrence of `c` at or after `pos`. */
  function Find(str: string, c: char, pos: nat): (r: Option<nat>)
    requires pos <= |str|
    ensures r.Some? ==> pos <= r.value < |str|
    decreases |str| - pos
  {
    if pos == |str| then None
    else if str[pos] == c then Some(pos)
    else Find(str, c, pos + 1)
  }

  /** find reports `k` exactly when `k` holds `c` and nothing from `pos` up to it does. */
  lemma {:induction false} FindIs(str: string, c: char, pos: nat, k: nat)
    requires pos <= |str|
    ensures Find(str, c, pos) == Some(k) <==>
      pos <= k < |str| && str[k] == c && forall j :: pos <= j < k ==> str[j] != c
    decreases |str| - pos
  {
    if pos < |str| && str[pos] != c {
      FindIs(str, c, pos + 1, k);
    }
  }

  /** find reports nothing exactly when no character from `pos` on is `c`. */
  lemma {:induction false} FindNone(str: string, c: char, pos: nat)
    requires pos <= |str|
    ensures Find(str, c, pos).None? <==> forall j :: pos <= j < |str| ==> str[j] != c
    decreases |str| - pos
  {
    if pos < |str| && str[pos] != c {
      FindNone(str, c, pos + 1);
    }
  }

  /** find from 0 followed by erase: `str` cut just before the first `c`, or all of it. */
  function TakeUntil(str: string, c: char): string
  {
    match Find(str, c, 0)
    case None => str
    case Some(loc) => str[..loc]
  }

  /** The cut keeps the first `n` characters when they hold no `c` and `c` or the end comes next. */
  lemma TakeUntilIs(str: string, c: char, n: nat)
    requires n <= |str| && forall j :: 0 <= j < n ==> str[j] != c
    requires n == |str| || str[n] == c
    ensures TakeUntil(str, c) == str[..n]
  {
    if n < |str| {
      FindIs(str, c, 0, n);
    } else {
      FindNone(str, c, 0);
    }
  }

  // ---------------------------------------------------------------------
  // The parser

  /**
   * The value parseLoadLine keeps when the first character after the comma
   * and its blanks is at offset `v`: nothing at the end of the string; the
   * text after a quote up to the same quote; otherwise the text up to the
   * first newline.
   */
  function ValueFrom(line: string, v: nat): string
    requires v <= |line|
  {
    var c := At(line, v);
    if c == NUL then []
    else if c == '\'' || c == '"' then TakeUntil(CString(line, v + 1), c)
    else TakeUntil(CString(line, v), '\n')
  }

  /** The key: atoi from the first character that is not a blank. */
  function KeyOf(line: string): int
  {
    Atoi(line, RunEnd(line, 0, Blanks))
  }

  /** The comma strchr finds from the first character that is not a blank. */
  function CommaOf(line: string): (r: Option<nat>)
    ensures r.Some? ==> r.value < |line|
  {
    FindChar(line, RunEnd(line, 0, Blanks), ',')
  }

  /**
   * What parseLoadLine computes: the return code, the key and the value.
   * `value0` is what the caller's value string held before the call.
   */
  function ParseLoadLineSpec(line: string, value0: string): (RC, int, string)
  {
    match CommaOf(line)
    case None => (InvalidFileFormat, KeyOf(line), value0)
    case Some(comma) => (OK, KeyOf(line), ValueFrom(line, RunEnd(line, comma + 1, Blanks)))
  }

  /** The pointer walk over spaces and tabs that parseLoadLine does twice. */
  method SkipBlankRun(line: string, i: nat) returns (s: nat)
    requires i <= |line|
    ensures s == RunEnd(line, i, Blanks)
  {
    s := i;
    while At(line, s) == ' ' || At(line, s) == '\t'
      invariant i <= s <= |line| && RunEnd(line, s, Blanks) == RunEnd(line, i, Blanks)
      decreases |line| - s
    {
      s := s + 1;
    }
  }

  /** SqlEngine::parseLoadLine; `value0` is the caller's value string on entry. */
  method ParseLoadLine(line: string, value0: string) returns (rc: RC, key: int, value: string)
    ensures (rc, key, value) == ParseLoadLineSpec(line, value0)
  {
    value := value0;
    var s := SkipBlankRun(line, 0);
    key := Atoi(line, s);
    var comma := FindChar(line, s, ',');
    if comma.None? {
      return InvalidFileFormat, key, value;
    }
    // the do-while loop starts one past the comma
    s := SkipBlankRun(line, comma.value + 1);
    ghost var v := s;
    var c := At(line, s);
    if c == NUL {
      value := [];
      return OK, key, value;
    }
    if c == '\'' || c == '"' {
      s := s + 1;
    } else {
      c := '\n';
    }
    value := CString(line, s);
    var loc := Find(value, c, 0);
    if loc.Some? {
      value := value[..loc.value];
    }
    assert value == ValueFrom(line, v);
    return OK, key, value;
  }

  // ---------------------------------------------------------------------
  // The return code

  /**
   * OK exactly when the line, up to its first NUL, holds a comma; without a
   * comma the value string is left as it was.
   */
  lemma ParseResultCode(line: string, value0: string)
    ensures ParseLoadLineSpec(line, value0).0 == if ',' in CString(line, 0) then OK else InvalidFileFormat
    ensures ',' !in CString(line, 0) ==> ParseLoadLineSpec(line, value0).2 == value0
  {
    var s := RunEnd(line, 0, Blanks);
    var e := RunEnd(line, 0, Text);
    var str := CString(line, 0);
    RunEndStops(line, 0, Blanks);
    RunEndStops(line, 0, Text);
    assert s <= e;
    RunEndIs(line, s, Text, e);
    match CommaOf(line)
    case Some(k) =>
      FindCharIs(line, s, ',', k);
      assert k < e;
      assert str[k] == ',';
    case None =>
      FindCharNone(line, s, ',');
      assert forall j :: 0 <= j < |str| ==> str[j] != ',' by {
        assert forall j :: 0 <= j < |str| ==> str[j] == line[j];
      }
  }

  // ---------------------------------------------------------------------
  // Text in front of a line moves every scan by its length

  /** From offset `o` on, `l` holds exactly `line`. */
  predicate EndsWith(l: string, o: nat, line: string)
  {
    o + |line| == |l| && forall j :: 0 <= j < |line| ==> l[o + j] == line[j]
  }

  lemma AtShift(l: string, o: nat, line: string, i: nat)
    requires EndsWith(l, o, line) && i <= |line|
    ensures At(l, o + i) == At(line, i)
  {
    if i < |line| {
      assert l[o + i] == line[i];
    }
  }

  lemma RunEndShift(l: string, o: nat, line: string, i: nat, k: Run)
    requires EndsWith(l, o, line) && i <= |line|
    ensures RunEnd(l, o + i, k) == o + RunEnd(line, i, k)
  {
    var r := RunEnd(line, i, k);
    RunEndStops(line, i, k);
    AtShift(l, o, line, r);
    forall j | o + i <= j < o + r
      ensures InRun(k, l[j])
    {
      assert l[o + (j - o)] == line[j - o];
    }
    RunEndIs(l, o + i, k, o + r);
  }

  lemma SliceShift(l: string, o: nat, line: string, i: nat, e: nat)
    requires EndsWith(l, o, line) && i <= e <= |line|
    ensures l[o + i..o + e] == line[i..e]
  {
    forall n | 0 <= n < e - i
      ensures l[o + i..o + e][n] == line[i..e][n]
    {
      assert l[o + (i + n)] == line[i + n];
    }
  }

  lemma CStringShift(l: string, o: nat, line: string, i: nat)
    requires EndsWith(l, o, line) && i <= |line|
    ensures CString(l, o + i) == CString(line, i)
  {
    RunEndShift(l, o, line, i, Text);
    SliceShift(l, o, line, i, RunEnd(line, i, Text));
  }

  /** atoi gives the same value on two lines whose scans agree up to an offset `o`. */
  lemma AtoiAgree(l: string, line: string, o: nat, i: nat, j: nat, d: nat)
    requires i <= |line| && o + i <= |l|
    requires j == RunEnd(line, i, Spaces) && RunEnd(l, o + i, Spaces) == o + j
    requires At(l, o + j) == At(line, j)
    requires d == if At(line, j) == '-' || At(line, j) == '+' then j + 1 else j
    requires RunEnd(l, o + d, Digits) == o + RunEnd(line, d, Digits)
    requires l[o + d..o + RunEnd(line, d, Digits)] == line[d..RunEnd(line, d, Digits)]
    ensures Atoi(l, o + i) == Atoi(line, i)
  {
  }

  lemma AtoiShift(l: string, o: nat, line: string, i: nat)
    requires EndsWith(l, o, line) && i <= |line|
    ensures Atoi(l, o + i) == Atoi(line, i)
  {
    var j := RunEnd(line, i, Spaces);
    RunEndShift(l, o, line, i, Spaces);
    AtShift(l, o, line, j);
    var d := if At(line, j) == '-' || At(line, j) == '+' then j + 1 else j;
    RunEndShift(l, o, line, d, Digits);
    SliceShift(l, o, line, d, RunEnd(line, d, Digits));
    AtoiAgree(l, line, o, i, j, d);
  }

  lemma FindCharShift(l: string, o: nat, line: string, i: nat, c: char)
    requires EndsWith(l, o, line) && i <= |line| && c != NUL
    ensures FindChar(l, o + i, c)
      == match FindChar(line, i, c) case None => None case Some(k) => Some(o + k)
  {
    match FindChar(line, i, c)
    case Some(k) =>
      FindCharIs(line, i, c, k);
      forall j | o + i <= j < o + k
        ensures l[j] != c && l[j] != NUL
      {
        assert l[o + (j - o)] == line[j - o];
      }
      assert l[o + k] == line[k];
      FindCharIs(l, o + i, c, o + k);
    case None =>
      FindCharNone(line, i, c);
      RunEndShift(l, o, line, i, Text);
      forall j | o + i <= j < RunEnd(l, o + i, Text)
        ensures l[j] != c
      {
        assert l[o + (j - o)] == line[j - o];
      }
      FindCharNone(l, o + i, c);
  }

  lemma ValueFromShift(l: string, o: nat, line: string, v: nat)
    requires EndsWith(l, o, line) && v <= |line|
    ensures ValueFrom(l, o + v) == ValueFrom(line, v)
  {
    AtShift(l, o, line, v);
    if At(line, v) != NUL {
      CStringShift(l, o, line, v);
      CStringShift(l, o, line, v + 1);
    }
  }

  lemma KeyAfterBlanks(l: string, o: nat, line: string)
    requires EndsWith(l, o, line) && RunEnd(l, 0, Blanks) == o + RunEnd(line, 0, Blanks)
    ensures KeyOf(l) == KeyOf(line)
  {
    AtoiShift(l, o, line, RunEnd(line, 0, Blanks));
  }

  lemma CommaAfterBlanks(l: string, o: nat, line: string)
    requires EndsWith(l, o, line) && RunEnd(l, 0, Blanks) == o + RunEnd(line, 0, Blanks)
    ensures CommaOf(l) == match CommaOf(line) case None => None case Some(k) => Some(o + k)
  {
    FindCharShift(l, o, line, RunEnd(line, 0, Blanks), ',');
  }

  /** The parser's result on a line whose comma is at `k`. */
  lemma SpecWithComma(line: string, value0: string, k: nat)
    requires CommaOf(line) == Some(k)
    ensures ParseLoadLineSpec(line, value0) == (OK, KeyOf(line), ValueFrom(line, RunEnd(line, k + 1, Blanks)))
  {
  }

  /** Blanks in front of `line` only lengthen the parser's first walk. */
  lemma BlankRunBefore(l: string, o: nat, line: string)
    requires EndsWith(l, o, line)
    requires forall j :: 0 <= j < o ==> IsBlank(l[j])
    ensures RunEnd(l, 0, Blanks) == o + RunEnd(line, 0, Blanks)
  {
    var s := RunEnd(line, 0, Blanks);
    RunEndShift(l, o, line, 0, Blanks);
    RunEndStops(l, o, Blanks);
    RunEndIs(l, 0, Blanks, o + s);
  }

  lemma ValueAfterComma(l: string, o: nat, line: string, k: nat)
    requires EndsWith(l, o, line) && k < |line|
    ensures ValueFrom(l, RunEnd(l, o + k + 1, Blanks)) == ValueFrom(line, RunEnd(line, k + 1, Blanks))
  {
    var v := RunEnd(line, k + 1, Blanks);
    RunEndShift(l, o, line, k + 1, Blanks);
    assert RunEnd(l, o + k + 1, Blanks) == o + v;
    ValueFromShift(l, o, line, v);
  }

  /** Blanks, and only blanks, in front of `line` change nothing: the key is read after them. */
  lemma BlanksBefore(l: string, o: nat, line: string, value0: string)
    requires EndsWith(l, o, line)
    requires forall j :: 0 <= j < o ==> IsBlank(l[j])
    ensures ParseLoadLineSpec(l, value0) == ParseLoadLineSpec(line, value0)
  {
    BlankRunBefore(l, o, line);
    KeyAfterBlanks(l, o, line);
    CommaAfterBlanks(l, o, line);
    match CommaOf(line)
    case None =>
      assert CommaOf(l) == None;
    case Some(k) =>
      assert CommaOf(l) == Some(o + k);
      ValueAfterComma(l, o, line, k);
      SpecWithComma(l, value0, o + k);
      SpecWithComma(line, value0, k);
  }

  predicate AllBlank(blanks: string)
  {
    forall j :: 0 <= j < |blanks| ==> IsBlank(blanks[j])
  }

  /** The same, for a line written as its leading blanks followed by the rest. */
  lemma LeadingBlanksIgnored(blanks: string, line: string, value0: string)
    requires AllBlank(blanks)
    ensures ParseLoadLineSpec(blanks + line, value0) == ParseLoadLineSpec(line, value0)
  {
    var l := blanks + line;
    assert EndsWith(l, |blanks|, line);
    assert forall j :: 0 <= j < |blanks| ==> l[j] == blanks[j];
    BlanksBefore(l, |blanks|, line, value0);
  }

  // ---------------------------------------------------------------------
  // The value

  /** The part of a line in front of its first comma, as the parser sees it. */
  predicate KeyField(head: string)
  {
    ',' !in head && NUL !in head
  }

  /** The positions of `head + "," + blanks + rest`. */
  lemma FieldLayout(head: string, blanks: string, rest: string)
    requires KeyField(head) && AllBlank(blanks)
    ensures var line := head + [','] + blanks + rest;
      && |line| == |head| + 1 + |blanks| + |rest|
      && line[|head|] == ','
      && (forall j :: 0 <= j < |head| ==> line[j] != ',' && line[j] != NUL)
      && (forall j :: |head| < j < |head| + 1 + |blanks| ==> IsBlank(line[j]))
      && line[|head| + 1 + |blanks|..] == rest
  {
    var line := head + [','] + blanks + rest;
    assert forall j :: 0 <= j < |head| ==> line[j] == head[j];
    assert forall j :: |head| < j < |head| + 1 + |blanks| ==> line[j] == blanks[j - |head| - 1];
  }

  /** The comma the parser finds on a line whose first comma is at `h`. */
  lemma CommaAt(line: string, h: nat)
    requires h < |line| && line[h] == ','
    requires forall j :: 0 <= j < h ==> line[j] != ',' && line[j] != NUL
    ensures CommaOf(line) == Some(h)
  {
    var s := RunEnd(line, 0, Blanks);
    RunEndStops(line, 0, Blanks);
    assert s <= h;
    FindCharIs(line, s, ',', h);
  }

  /** The parser's result once the comma at `h` and the first non-blank `v` after it are known. */
  lemma ParseFoundComma(line: string, value0: string, h: nat, v: nat)
    requires h < |line| && CommaOf(line) == Some(h) && RunEnd(line, h + 1, Blanks) == v
    ensures ParseLoadLineSpec(line, value0).0 == OK
    ensures ParseLoadLineSpec(line, value0).2 == ValueFrom(line, v)
  {
  }

  /**
   * The value string after assign, find and erase: when the text from `w` is
   * `body` and then the delimiter, a NUL or the end of the line, it is `body`.
   */
  lemma ValueField(line: string, w: nat, body: string, tail: string, d: char)
    requires w <= |line| && line[w..] == body + tail && d != NUL
    requires forall j :: 0 <= j < |body| ==> body[j] != d && body[j] != NUL
    requires tail == [] || tail[0] == d || tail[0] == NUL
    ensures TakeUntil(CString(line, w), d) == body
  {
    var n := |body|;
    assert forall j :: w <= j < w + n ==> line[j] == body[j - w];
    var e := RunEnd(line, w, Text);
    RunEndStops(line, w, Text);
    assert w + n <= e;
    var str := CString(line, w);
    assert forall j :: 0 <= j < n ==> str[j] == body[j];
    if n < |str| {
      assert str[n] == line[w + n] == tail[0];
    }
    TakeUntilIs(str, d, n);
    assert str[..n] == body;
  }

  /** The text a value is cut from, and the delimiter it is cut at, from the first character `v` after the blanks. */
  lemma ValueFromIs(line: string, v: nat, w: nat, d: char)
    requires v <= |line| && w <= |line|
    requires var c := At(line, v);
      && c != NUL
      && (if c == '\'' || c == '"' then w == v + 1 && d == c else w == v && d == '\n')
    ensures ValueFrom(line, v) == TakeUntil(CString(line, w), d)
  {
  }

  /**
   * The value the parser takes from a line whose first comma is at `h`, with
   * `b` blanks after it, when the text from `w` on is `body` and then the
   * delimiter, a NUL or the end of the line.
   */
  lemma ValueAt(line: string, h: nat, b: nat, w: nat, body: string, tail: string, d: char, value0: string)
    requires h + 1 + b <= w <= |line| && line[h] == ','
    requires forall j :: 0 <= j < h ==> line[j] != ',' && line[j] != NUL
    requires forall j :: h < j < h + 1 + b ==> IsBlank(line[j])
    requires var c := At(line, h + 1 + b);
      && !IsBlank(c) && c != NUL
      && (if c == '\'' || c == '"' then w == h + 2 + b && d == c else w == h + 1 + b && d == '\n')
    requires line[w..] == body + tail
    requires forall j :: 0 <= j < |body| ==> body[j] != d && body[j] != NUL
    requires tail == [] || tail[0] == d || tail[0] == NUL
    ensures var r := ParseLoadLineSpec(line, value0);
      r.0 == OK && r.2 == body
  {
    var v := h + 1 + b;
    CommaAt(line, h);
    RunEndIs(line, h + 1, Blanks, v);
    ParseFoundComma(line, value0, h, v);
    ValueFromIs(line, v, w, d);
    ValueField(line, w, body, tail, d);
  }

  /** Nothing after the comma but blanks: the value is the empty string. */
  lemma EmptyValue(head: string, blanks: string, tail: string, value0: string)
    requires KeyField(head) && AllBlank(blanks)
    requires tail == [] || tail[0] == NUL
    ensures var r := ParseLoadLineSpec(head + [','] + blanks + tail, value0);
      r.0 == OK && r.2 == []
  {
    var line := head + [','] + blanks + tail;
    var w := |head| + 1 + |blanks|;
    FieldLayout(head, blanks, tail);
    assert At(line, w) == NUL;
    CommaAt(line, |head|);
    RunEndIs(line, |head| + 1, Blanks, w);
    ParseFoundComma(line, value0, |head|, w);
  }

  /** A quoted value is the text after the quote up to the next such quote, or to the end of the line. */
  lemma QuotedValue(head: string, blanks: string, q: char, body: string, tail: string, value0: string)
    requires KeyField(head) && AllBlank(blanks)
    requires q == '\'' || q == '"'
    requires q !in body && NUL !in body
    requires tail == [] || tail[0] == q || tail[0] == NUL
    ensures var r := ParseLoadLineSpec(head + [','] + blanks + [q] + body + tail, value0);
      r.0 == OK && r.2 == body
  {
    var rest := [q] + body + tail;
    var line := head + [','] + blanks + rest;
    assert line == head + [','] + blanks + [q] + body + tail;
    var w := |head| + 1 + |blanks|;
    FieldLayout(head, blanks, rest);
    assert At(line, w) == q;
    assert line[w + 1..] == body + tail;
    ValueAt(line, |head|, |blanks|, w + 1, body, tail, q, value0);
  }

  /** An unquoted value is the rest of the line up to the first newline. */
  lemma UnquotedValue(head: string, blanks: string, body: string, tail: string, value0: string)
    requires KeyField(head) && AllBlank(blanks)
    requires body != [] && !IsBlank(body[0]) && body[0] != '\'' && body[0] != '"'
    requires '\n' !in body && NUL !in body
    requires tail == [] || tail[0] == '\n' || tail[0] == NUL
    ensures var r := ParseLoadLineSpec(head + [','] + blanks + body + tail, value0);
      r.0 == OK && r.2 == body
  {
    var rest := body + tail;
    var line := head + [','] + blanks + rest;
    assert line == head + [','] + blanks + body + tail;
    var w := |head| + 1 + |blanks|;
    FieldLayout(head, blanks, rest);
    assert At(line, w) == body[0];
    ValueAt(line, |head|, |blanks|, w, body, tail, '\n', value0);
  }

  // ---------------------------------------------------------------------
  // Writing a load line and reading it back

  function DigitChar(d: nat): char
    requires d < 10
  {
    ('0' as int + d) as char
  }

  /** The decimal digits of `n`, most significant first. */
  function ShowNat(n: nat): (r: string)
    ensures r != [] && forall j :: 0 <= j < |r| ==> IsDigit(r[j])
  {
    if n < 10 then [DigitChar(n)] else ShowNat(n / 10) + [DigitChar(n % 10)]
  }

  /** A key as a load file spells it. */
  function ShowInt(k: int): string
  {
    if k < 0 then ['-'] + ShowNat(-k) else ShowNat(k)
  }

  /** A load line holding `key` and a double-quoted `value`. */
  function FormatLoadLine(key: int, value: string): string
  {
    ShowInt(key) + [','] + ['"'] + value + ['"']
  }

  lemma {:induction false} DecimalOfShowNat(n: nat)
    ensures Decimal(ShowNat(n)) == n
  {
    if n >= 10 {
      DecimalOfShowNat(n / 10);
      var ds := ShowNat(n);
      assert ds[..|ds| - 1] == ShowNat(n / 10);
    }
  }

  /** The digits atoi reads from `d` when `ds` is there and a non-digit follows. */
  lemma DigitRunIs(line: string, d: nat, ds: string)
    requires d + |ds| < |line| && line[d..d + |ds|] == ds && !IsDigit(line[d + |ds|])
    requires forall j :: 0 <= j < |ds| ==> IsDigit(ds[j])
    ensures RunEnd(line, d, Digits) == d + |ds|
    ensures line[d..RunEnd(line, d, Digits)] == ds
  {
    forall j | d <= j < d + |ds| ensures InRun(Digits, line[j]) {
      assert line[j] == ds[j - d];
    }
    RunEndIs(line, d, Digits, d + |ds|);
  }

  /** atoi reads back a key written with ShowInt, when a comma follows it. */
  lemma AtoiOfShowInt(k: int, rest: string)
    requires rest != [] && rest[0] == ','
    ensures Atoi(ShowInt(k) + rest, 0) == k
  {
    var line := ShowInt(k) + rest;
    var mag: nat := if k < 0 then -k else k;
    var ds := ShowNat(mag);
    var d := if k < 0 then 1 else 0;
    assert line[d..d + |ds|] == ds;
    assert line[d + |ds|] == ',';
    assert !IsSpace(line[0]);
    RunEndIs(line, 0, Spaces, 0);
    DigitRunIs(line, d, ds);
    DecimalOfShowNat(mag);
  }

  /** The key the parser reads from a line that starts with a key written with ShowInt and a comma. */
  lemma KeyOfShowInt(k: int, rest: string)
    requires rest != [] && rest[0] == ','
    ensures KeyOf(ShowInt(k) + rest) == k
  {
    var line := ShowInt(k) + rest;
    assert !IsBlank(line[0]);
    RunEndIs(line, 0, Blanks, 0);
    AtoiOfShowInt(k, rest);
  }

  /** The code and the value the parser reads from a formatted load line. */
  lemma FormattedValue(key: int, value: string, value0: string)
    requires '"' !in value && NUL !in value
    ensures var r := ParseLoadLineSpec(FormatLoadLine(key, value), value0);
      r.0 == OK && r.2 == value
  {
    var head := ShowInt(key);
    assert FormatLoadLine(key, value) == head + [','] + [] + ['"'] + value + ['"'];
    assert KeyField(head) by {
      assert forall j :: 0 <= j < |head| ==> IsDigit(head[j]) || head[j] == '-';
    }
    QuotedValue(head, [], '"', value, ['"'], value0);
  }

  /** The key the parser reads from a formatted load line. */
  lemma FormattedKey(key: int, value: string)
    ensures KeyOf(FormatLoadLine(key, value)) == key
  {
    var rest := [','] + ['"'] + value + ['"'];
    assert FormatLoadLine(key, value) == ShowInt(key) + rest;
    KeyOfShowInt(key, rest);
  }

  /** A formatted load line parses back to its key and its value. */
  lemma FormatThenParse(key: int, value: string, value0: string)
    requires '"' !in value && NUL !in value
    ensures ParseLoadLineSpec(FormatLoadLine(key, value), value0) == (OK, key, value)
  {
    FormattedValue(key, value, value0);
    FormattedKey(key, value);
  }
}
