/**
 The text form of the store's files: one `timestamp;key;value` line per record.  Writing is
 `Render`; reading is the splitting on newlines and semicolons that every scan of a file does.
 */
module Codec {
  import opened Basics
  import opened Records

  const NEWLINE: byte := 10
  const SEMICOLON: byte := 59
  const DIGIT_ZERO: byte := 48
  const UINT16_MAX := 0xFFFF
  const UINT64_MAX := 0xFFFF_FFFF_FFFF_FFFF

  // ---- writing ----

  function Decimal(n: nat): Text {
    if n < 10 then [DIGIT_ZERO + n] else Decimal(n / 10) + [DIGIT_ZERO + n % 10]
  }

  function LineOf(r: Record): Text {
    Decimal(r.timestamp) + [SEMICOLON] + Decimal(r.key) + [SEMICOLON] + r.value
  }

  function Render(rs: seq<Record>): Text {
    if rs == [] then [] else Render(rs[..|rs| - 1]) + LineOf(rs[|rs| - 1]) + [NEWLINE]
  }

  /** A value survives the file format exactly when it is a single non-empty token of it. */
  predicate Legal(value: Text) {
    value != [] && SEMICOLON !in value && NEWLINE !in value
  }

  predicate AllLegal(rs: seq<Record>) {
    forall r :: r in rs ==> Legal(r.value)
  }

  // ---- reading ----

  /** Length of the longest prefix of t without the byte c. */
  function Span(t: Text, c: byte): (n: nat)
    ensures n <= |t| && c !in t[..n] && (n < |t| ==> t[n] == c)
  {
    if t == [] || t[0] == c then 0
    else
      var n := 1 + Span(t[1..], c);
      assert t[..n] == [t[0]] + t[1..][..n - 1];
      n
  }

  /** The non-empty runs of t between occurrences of the separator. */
  function Tokens(t: Text, separator: byte): seq<Text>
    decreases |t|
  {
    if t == [] then []
    else if t[0] == separator then Tokens(t[1..], separator)
    else [t[..Span(t, separator)]] + Tokens(t[Span(t, separator)..], separator)
  }

  predicate IsDigit(c: byte) {
    DIGIT_ZERO <= c < DIGIT_ZERO + 10
  }

  function DigitRun(t: Text): (n: nat)
    ensures n <= |t| && forall i :: 0 <= i < n ==> IsDigit(t[i])
  {
    if t == [] || !IsDigit(t[0]) then 0 else 1 + DigitRun(t[1..])
  }

  predicate AllDigits(t: Text) {
    forall i :: 0 <= i < |t| ==> IsDigit(t[i])
  }

  function DigitsValue(t: Text): nat
    requires AllDigits(t)
  {
    if t == [] then 0 else 10 * DigitsValue(t[..|t| - 1]) + (t[|t| - 1] - DIGIT_ZERO)
  }

  /** Value of the leading digits, or None when it does not fit (`errno` set). */
  function StringToUnsigned(t: Text): Option<uint64> {
    var v := DigitsValue(t[..DigitRun(t)]);
    if v <= UINT64_MAX then Some(v) else None
  }

  /** The conversion saturates, and the timestamp's reader does not look at `errno`. */
  function TimestampField(t: Text): uint64 {
    var v := StringToUnsigned(t);
    if v.Some? then v.value else UINT64_MAX
  }

  /** The 64-bit conversion is cut to 32 bits before the range check. */
  function ValidateKey(t: Text): Option<uint16> {
    var v := StringToUnsigned(t);
    if v.Some? && v.value % 0x1_0000_0000 <= UINT16_MAX then Some(v.value % 0x1_0000_0000) else None
  }

  datatype Line = Good(record: Record) | Skipped | Broken

  /** A line with too few fields makes the program index past its field vector: that is Broken. */
  function ParseLine(line: Text): Line {
    var fields := Tokens(line, SEMICOLON);
    if |fields| < 2 then Broken
    else
      var key := ValidateKey(fields[1]);
      if key.None? then Skipped
      else if |fields| < 3 then Broken
      else Good(Record(TimestampField(fields[0]), key.value, fields[2]))
  }

  /** Records of the lines in order; lines with an invalid key are skipped. */
  function ParseLines(lines: seq<Text>): Option<seq<Record>> {
    if lines == [] then Some([])
    else
      var before := ParseLines(lines[..|lines| - 1]);
      var line := ParseLine(lines[|lines| - 1]);
      if before.None? || line.Broken? then None
      else if line.Skipped? then before
      else Some(before.value + [line.record])
  }

  function Parse(t: Text): Option<seq<Record>> {
    ParseLines(Tokens(t, NEWLINE))
  }

  /** What the scan for a key makes of a line: it looks for the value only when the key is the one it wants. */
  function LineFor(line: Text, key: uint16): Line {
    var fields := Tokens(line, SEMICOLON);
    if |fields| < 2 then Broken
    else if ValidateKey(fields[1]) != Some(key) then Skipped
    else if |fields| < 3 then Broken
    else Good(Record(TimestampField(fields[0]), key, fields[2]))
  }

  function LinesFor(lines: seq<Text>, key: uint16): Option<seq<Record>> {
    if lines == [] then Some([])
    else
      var before := LinesFor(lines[..|lines| - 1], key);
      var line := LineFor(lines[|lines| - 1], key);
      if before.None? || line.Broken? then None
      else if line.Skipped? then before
      else Some(before.value + [line.record])
  }

  /** The records of a key in a file, if no line makes the scan for it fail. */
  function RecordsFor(t: Text, key: uint16): Option<seq<Record>> {
    LinesFor(Tokens(t, NEWLINE), key)
  }

  /** The scan for a key fails on no file that can be read as a whole, and finds the same. */
  lemma {:induction false} ScanForIsScan(lines: seq<Text>, key: uint16)
    requires ParseLines(lines).Some?
    ensures LinesFor(lines, key).Some? && Scan(LinesFor(lines, key).value, key) == Scan(ParseLines(lines).value, key)
  {
    if lines != [] {
      var n := |lines| - 1;
      ScanForIsScan(lines[..n], key);
      var all, some := ParseLines(lines[..n]).value, LinesFor(lines[..n], key).value;
      var line := ParseLine(lines[n]);
      if line.Good? {
        assert (all + [line.record])[..|all|] == all && (some + [line.record])[..|some|] == some;
      }
    }
  }

  // ---- numbers ----

  lemma {:induction false} DecimalDigits(n: nat)
    ensures Decimal(n) != [] && AllDigits(Decimal(n))
    ensures DigitsValue(Decimal(n)) == n
  {
    if n >= 10 {
      DecimalDigits(n / 10);
      assert Decimal(n)[..|Decimal(n)| - 1] == Decimal(n / 10);
    }
  }

  lemma {:induction false} DigitRunOfDigits(t: Text)
    requires AllDigits(t)
    ensures DigitRun(t) == |t|
  {
    if t != [] { DigitRunOfDigits(t[1..]); }
  }

  lemma ReadsDecimal(n: uint64)
    ensures StringToUnsigned(Decimal(n)) == Some(n)
  {
    DecimalDigits(n);
    DigitRunOfDigits(Decimal(n));
    assert Decimal(n)[..|Decimal(n)|] == Decimal(n);
  }

  // ---- tokens ----

  lemma {:induction false} SpanOf(w: Text, rest: Text, c: byte)
    requires c !in w && (rest == [] || rest[0] == c)
    ensures Span(w + rest, c) == |w|
  {
    if w != [] {
      assert (w + rest)[1..] == w[1..] + rest;
      SpanOf(w[1..], rest, c);
    } else {
      assert w + rest == rest;
    }
  }

  lemma FirstToken(w: Text, rest: Text, c: byte)
    requires w != [] && c !in w
    ensures Tokens(w + [c] + rest, c) == [w] + Tokens(rest, c)
  {
    var t := w + ([c] + rest);
    assert t == w + [c] + rest;
    SpanOf(w, [c] + rest, c);
    assert t[..|w|] == w && t[|w|..] == [c] + rest;
    assert ([c] + rest)[1..] == rest;
  }

  lemma OnlyToken(w: Text, c: byte)
    requires w != [] && c !in w
    ensures Tokens(w, c) == [w]
  {
    SpanOf(w, [], c);
    assert w + [] == w && w[..|w|] == w && w[|w|..] == [];
  }

  lemma {:induction false} LastToken(t: Text, w: Text, c: byte)
    requires w != [] && c !in w && (t == [] || t[|t| - 1] == c)
    ensures Tokens(t + w + [c], c) == Tokens(t, c) + [w]
    decreases |t|
  {
    if t == [] {
      assert t + w + [c] == w + [c] + [];
      FirstToken(w, [], c);
    } else if t[0] == c {
      assert (t + w + [c])[1..] == t[1..] + w + [c];
      LastToken(t[1..], w, c);
    } else {
      var n := Span(t, c);
      var whole := t + w + [c];
      assert whole == t[..n] + (t[n..] + w + [c]);
      SpanOf(t[..n], t[n..] + w + [c], c);
      assert whole[..n] == t[..n] && whole[n..] == t[n..] + w + [c];
      LastToken(t[n..], w, c);
      assert Tokens(whole, c) == [t[..n]] + (Tokens(t[n..], c) + [w]);
    }
  }

  lemma {:induction false} TokensAreClean(t: Text, c: byte)
    ensures forall w :: w in Tokens(t, c) ==> w != [] && c !in w && forall b :: b in w ==> b in t
    decreases |t|
  {
    if t != [] {
      if t[0] == c {
        TokensAreClean(t[1..], c);
      } else {
        TokensAreClean(t[Span(t, c)..], c);
      }
    }
  }

  // ---- round trip ----

  lemma DecimalIsToken(n: nat)
    ensures Decimal(n) != [] && SEMICOLON !in Decimal(n) && NEWLINE !in Decimal(n)
  {
  }

  lemma LineTokens(r: Record)
    ensures Tokens(LineOf(r), SEMICOLON) ==
            [Decimal(r.timestamp), Decimal(r.key)] + Tokens(r.value, SEMICOLON)
  {
    var ts, key := Decimal(r.timestamp), Decimal(r.key);
    DecimalIsToken(r.timestamp);
    DecimalIsToken(r.key);
    assert LineOf(r) == ts + [SEMICOLON] + (key + [SEMICOLON] + r.value);
    FirstToken(ts, key + [SEMICOLON] + r.value, SEMICOLON);
    FirstToken(key, r.value, SEMICOLON);
  }

  /** The digits of a number in ASCII, most significant first and without leading zeros. */
  lemma {:induction false} DecimalBytes(n: nat)
    ensures Decimal(n) != [] && forall i :: 0 <= i < |Decimal(n)| ==> '0' as int <= Decimal(n)[i] <= '9' as int
    ensures |Decimal(n)| > 1 ==> Decimal(n)[0] != '0' as int
    ensures Decimal(n)[|Decimal(n)| - 1] == '0' as int + n % 10
    ensures n >= 10 ==> Decimal(n)[..|Decimal(n)| - 1] == Decimal(n / 10)
    ensures n > 0 ==> Decimal(n)[0] != '0' as int
  {
    if n >= 10 {
      DecimalBytes(n / 10);
      assert Decimal(n)[..|Decimal(n)| - 1] == Decimal(n / 10);
      assert Decimal(n)[0] == Decimal(n / 10)[0];
    }
  }

  lemma FieldBytes(a: Text, b: Text, rest: Text)
    ensures var t, i, j := a + [SEMICOLON] + b + [SEMICOLON] + rest, |a|, |a| + 1 + |b|;
            && |t| == j + 1 + |rest| && t[i] == t[j] == SEMICOLON
            && t[..i] == a && t[i + 1..j] == b && t[j + 1..] == rest
  {
  }

  /** A line is digits, a semicolon, digits, a semicolon and the value. */
  lemma LineBytes(r: Record) returns (i: nat, j: nat)
    ensures 0 < i < j - 1 && j < |LineOf(r)| == j + 1 + |r.value|
    ensures LineOf(r)[i] == ';' as int && LineOf(r)[j] == ';' as int && LineOf(r)[j + 1..] == r.value
    ensures forall b :: b in LineOf(r)[..i] || b in LineOf(r)[i + 1..j] ==> '0' as int <= b <= '9' as int
    ensures AllDigits(LineOf(r)[..i]) && DigitsValue(LineOf(r)[..i]) == r.timestamp
    ensures AllDigits(LineOf(r)[i + 1..j]) && DigitsValue(LineOf(r)[i + 1..j]) == r.key
  {
    var ts, key := Decimal(r.timestamp), Decimal(r.key);
    i, j := |ts|, |ts| + 1 + |key|;
    DecimalBytes(r.timestamp);
    DecimalBytes(r.key);
    DecimalDigits(r.timestamp);
    DecimalDigits(r.key);
    FieldBytes(ts, key, r.value);
  }

  /** A file is its lines, each with a newline after it. */
  lemma RenderBytes(rs: seq<Record>, r: Record)
    ensures Render([]) == [] && Render(rs + [r]) == Render(rs) + LineOf(r) + ['\n' as int]
  {
    assert (rs + [r])[..|rs|] == rs;
  }

  /** A number is read up to the first byte that is no digit. */
  lemma {:induction false} DigitRunStops(t: Text, rest: Text)
    requires AllDigits(t) && (rest == [] || !IsDigit(rest[0]))
    ensures DigitRun(t + rest) == |t|
  {
    if t == [] {
      assert t + rest == rest;
    } else {
      assert (t + rest)[1..] == t[1..] + rest;
      DigitRunStops(t[1..], rest);
    }
  }

  /** A number of any size, followed by anything else: what a key and a timestamp are read as. */
  lemma NumberFields(n: nat, rest: Text)
    requires rest == [] || !IsDigit(rest[0])
    ensures TimestampField(Decimal(n) + rest) == if n <= UINT64_MAX then n else UINT64_MAX
    ensures ValidateKey(Decimal(n) + rest) ==
            if n <= UINT64_MAX && n % 0x1_0000_0000 < 0x1_0000 then Some(n % 0x1_0000_0000) else None
  {
    DecimalDigits(n);
    DigitRunStops(Decimal(n), rest);
    assert (Decimal(n) + rest)[..|Decimal(n)|] == Decimal(n);
  }

  /** Of the value, the reader gets its first token. */
  lemma LineReadsFirstToken(r: Record)
    ensures ParseLine(LineOf(r)) ==
            var values := Tokens(r.value, SEMICOLON);
            if values == [] then Broken else Good(r.(value := values[0]))
  {
    LineTokens(r);
    ReadsDecimal(r.timestamp);
    ReadsDecimal(r.key);
  }

  lemma LegalLine(r: Record)
    requires Legal(r.value)
    ensures LineOf(r) != [] && NEWLINE !in LineOf(r) && ParseLine(LineOf(r)) == Good(r)
  {
    DecimalIsToken(r.timestamp);
    DecimalIsToken(r.key);
    LineReadsFirstToken(r);
    OnlyToken(r.value, SEMICOLON);
  }

  lemma {:induction false} LegalRoundTrip(rs: seq<Record>)
    requires AllLegal(rs)
    ensures Parse(Render(rs)) == Some(rs)
  {
    if rs != [] {
      var before, r := rs[..|rs| - 1], rs[|rs| - 1];
      LegalRoundTrip(before);
      LegalLine(r);
      LastToken(Render(before), LineOf(r), NEWLINE);
      var lines := Tokens(Render(before), NEWLINE);
      assert (lines + [LineOf(r)])[..|lines|] == lines;
      assert before + [r] == rs;
    }
  }

  lemma {:induction false} ParsedLinesAreLegal(lines: seq<Text>)
    requires forall w :: w in lines ==> NEWLINE !in w
    ensures ParseLines(lines).Some? ==> AllLegal(ParseLines(lines).value)
  {
    if lines != [] {
      var n := |lines| - 1;
      ParsedLinesAreLegal(lines[..n]);
      TokensAreClean(lines[n], SEMICOLON);
      assert lines[n] in lines;
      if ParseLine(lines[n]).Good? {
        assert Tokens(lines[n], SEMICOLON)[2] in Tokens(lines[n], SEMICOLON);
        assert Legal(ParseLine(lines[n]).record.value);
      }
    }
  }

  lemma ParsedAreLegal(t: Text)
    ensures Parse(t).Some? ==> AllLegal(Parse(t).value)
  {
    TokensAreClean(t, NEWLINE);
    ParsedLinesAreLegal(Tokens(t, NEWLINE));
  }

  /** Written records are read back unchanged exactly when all their values are legal. */
  lemma RoundTrip(rs: seq<Record>)
    ensures Parse(Render(rs)) == Some(rs) <==> AllLegal(rs)
  {
    if AllLegal(rs) {
      LegalRoundTrip(rs);
    } else {
      ParsedAreLegal(Render(rs));
    }
  }

  /** A value with a semicolon in it is cut at it, silently. */
  lemma ValueCutAtSemicolon(r: Record, head: Text, tail: Text)
    requires r.value == head + [SEMICOLON] + tail && Legal(head)
    ensures ParseLine(LineOf(r)) == Good(r.(value := head)) && head != r.value
  {
    LineReadsFirstToken(r);
    FirstToken(head, tail, SEMICOLON);
  }

  // ---- the parsing loops ----

  lemma CutToken(text: Text, i: nat, j: nat, c: byte)
    requires i < j <= |text| && (forall n :: i <= n < j ==> text[n] != c) && (j < |text| ==> text[j] == c)
    ensures Tokens(text[i..], c) == [text[i..j]] + Tokens(text[if j < |text| then j + 1 else j..], c)
  {
    var w := text[i..j];
    if j < |text| {
      assert text[i..] == w + [c] + text[j + 1..];
      FirstToken(w, text[j + 1..], c);
    } else {
      assert text[i..] == w && text[j..] == [];
      OnlyToken(w, c);
    }
  }

  /** `strtok_r` in place: skips separators, then cuts the token and moves `next` past its end. */
  method NextToken(text: Text, start: nat, separator: byte) returns (token: Option<Text>, next: nat)
    requires start <= |text|
    ensures start <= next <= |text|
    ensures token.None? ==> next == |text| && Tokens(text[start..], separator) == []
    ensures token.Some? ==> next > start &&
                            Tokens(text[start..], separator) == [token.value] + Tokens(text[next..], separator)
  {
    var begin := start;
    while begin < |text| && text[begin] == separator
      invariant start <= begin <= |text|
      invariant Tokens(text[start..], separator) == Tokens(text[begin..], separator)
    {
      begin := begin + 1;
    }
    if begin == |text| {
      return None, begin;
    }
    var end := begin + 1;
    while end < |text| && text[end] != separator
      invariant begin < end <= |text|
      invariant forall n :: begin <= n < end ==> text[n] != separator
    {
      end := end + 1;
    }
    CutToken(text, begin, end, separator);
    token := Some(text[begin..end]);
    next := if end < |text| then end + 1 else end;
  }

  method StringSplit(text: Text, separator: byte) returns (substrings: seq<Text>)
    ensures substrings == Tokens(text, separator)
  {
    substrings := [];
    var next := 0;
    assert text[0..] == text;
    while next < |text|
      invariant next <= |text|
      invariant Tokens(text, separator) == substrings + Tokens(text[next..], separator)
    {
      var token;
      token, next := NextToken(text, next, separator);
      if token.None? {
        break;
      }
      substrings := substrings + [token.value];
    }
  }

  /** The lines of a dump, printed one after the other into a growing buffer. */
  method RenderRecords(rs: seq<Record>) returns (content: Text)
    ensures content == Render(rs)
  {
    content := [];
    for i := 0 to |rs|
      invariant content == Render(rs[..i])
    {
      assert rs[..i + 1][..i] == rs[..i];
      content := content + LineOf(rs[i]) + [NEWLINE];
    }
    assert rs[..|rs|] == rs;
  }

  /** One line of the scan for a key. */
  method ScanLine(line: Text, key: uint16, best: Option<Record>) returns (result: Option<Record>)
    requires !LineFor(line, key).Broken? && (best.Some? ==> best.value.key == key)
    ensures result == if LineFor(line, key).Good? then Newer(best, LineFor(line, key).record) else best
  {
    var fields := StringSplit(line, SEMICOLON);
    var timestamp := TimestampField(fields[0]);
    var lineKey := ValidateKey(fields[1]);
    if lineKey.None? || key != lineKey.value {
      return best;
    }
    if best.None? {
      result := Some(Record(timestamp, lineKey.value, fields[2]));
    } else if best.value.timestamp < timestamp {
      result := Some(best.value.(timestamp := timestamp, value := fields[2]));
    } else {
      result := best;
    }
  }

  /** Newest record of a key in a file's contents, read line by line without building the list. */
  method GetBiggestTimestamp(contents: Text, key: uint16) returns (result: Option<Record>)
    requires RecordsFor(contents, key).Some?
    ensures result == Scan(RecordsFor(contents, key).value, key)
  {
    var lines := StringSplit(contents, NEWLINE);
    ghost var found := [];
    result := None;
    for i := 0 to |lines|
      invariant LinesFor(lines[..i], key) == Some(found) && result == Scan(found, key)
      invariant result.Some? ==> result.value.key == key
    {
      PrefixIsScanned(lines, key, i + 1);
      assert lines[..i + 1][..i] == lines[..i];
      result := ScanLine(lines[i], key, result);
      if LineFor(lines[i], key).Good? {
        ghost var r := LineFor(lines[i], key).record;
        assert (found + [r])[..|found|] == found;
        found := found + [r];
      }
    }
    assert lines[..|lines|] == lines;
  }

  lemma {:induction false} PrefixIsScanned(lines: seq<Text>, key: uint16, n: nat)
    requires n <= |lines| && LinesFor(lines, key).Some?
    ensures LinesFor(lines[..n], key).Some?
    decreases |lines|
  {
    if n < |lines| {
      var m := |lines| - 1;
      PrefixIsScanned(lines[..m], key, n);
      assert lines[..m][..n] == lines[..n];
    } else {
      assert lines[..n] == lines;
    }
  }

  lemma {:induction false} PrefixParses(lines: seq<Text>, n: nat)
    requires n <= |lines| && ParseLines(lines).Some?
    ensures ParseLines(lines[..n]).Some?
    decreases |lines|
  {
    if n < |lines| {
      var m := |lines| - 1;
      PrefixParses(lines[..m], n);
      assert lines[..m][..n] == lines[..n];
    } else {
      assert lines[..n] == lines;
    }
  }
}
