/** The record format of src/42.c: serialize_custom prints the fields with semicolons between
    them, deserialize_custom takes the text apart with strtok.  Values are whole numbers of
    millionths, which is what "%f" prints. */
module Serializer {
  import opened Options
  import opened CStrings

  const MSG_SIZE := 512
  const NAME_SIZE := 64
  const MILLION := 1000000

  /** custom_t; count is values_count. */
  datatype Custom = Custom(id: int, name: string, count: int, values: seq<int>)

  /** What the C types allow: a 32-bit id, a name that fits its array, up to five floats. */
  predicate Typed(c: Custom) {
    && -0x8000_0000 <= c.id < 0x8000_0000
    && |c.name| < NAME_SIZE && NUL !in c.name
    && c.count == |c.values| <= 5
    && forall i :: 0 <= i < |c.values| ==> -FLOAT_LIMIT < c.values[i] < FLOAT_LIMIT
  }

  /** More than FLT_MAX, in millionths. */
  const FLOAT_LIMIT: int := 1000000000000000000000000000000000000000000000

  // ---------------------------------------------------------------- printing

  function Digit(d: nat): (r: char)
    requires d < 10
  {
    (48 + d) as char
  }

  predicate IsDigit(c: char) {
    '0' <= c <= '9'
  }

  function Digits(n: nat): (r: string)
    ensures |r| > 0
  {
    if n < 10 then [Digit(n)] else Digits(n / 10) + [Digit(n % 10)]
  }

  /** "%d". */
  function PrintInt(n: int): (r: string)
    ensures |r| > 0
  {
    if n < 0 then ['-'] + Digits(-n) else Digits(n)
  }

  /** The lowest k digits, with leading zeros. */
  function Padded(n: nat, k: nat): (r: string)
    ensures |r| == k
  {
    if k == 0 then [] else Padded(n / 10, k - 1) + [Digit(n % 10)]
  }

  /** "%f" of a number of millionths. */
  function PrintFixed(v: int): (r: string)
    ensures |r| > 0
  {
    if v < 0 then ['-'] + PrintMagnitude(-v) else PrintMagnitude(v)
  }

  function PrintMagnitude(v: nat): (r: string)
    ensures |r| > 0
  {
    Digits(v / MILLION) + ['.'] + Padded(v % MILLION, 6)
  }

  function ValuesText(values: seq<int>): (r: string) {
    if values == [] then []
    else ValuesText(values[..|values| - 1]) + [';'] + PrintFixed(values[|values| - 1])
  }

  function Head(c: Custom): (r: string) {
    PrintInt(c.id) + [';'] + c.name + [';'] + PrintInt(c.count)
  }

  function Serialize(c: Custom): (r: string) {
    Head(c) + ValuesText(c.values)
  }

  // ---------------------------------------------------------------- parsing

  function FieldEnd(s: string): (r: nat)
    ensures r <= |s| && ';' !in s[..r]
    ensures r < |s| ==> s[r] == ';'
  {
    if s == [] || s[0] == ';' then 0 else 1 + FieldEnd(s[1..])
  }

  /** The tokens that strtok(_, ";") yields one after the other: never an empty one. */
  function Tokens(s: string): (r: seq<string>)
    decreases |s|
  {
    if s == [] then []
    else if s[0] == ';' then Tokens(s[1..])
    else [s[..FieldEnd(s)]] + Tokens(s[FieldEnd(s)..])
  }

  function DigitRun(s: string): (r: nat)
    ensures r <= |s|
  {
    if s == [] || !IsDigit(s[0]) then 0 else 1 + DigitRun(s[1..])
  }

  function Value(s: string): (r: nat) {
    if s == [] then 0
    else 10 * Value(s[..|s| - 1]) + if IsDigit(s[|s| - 1]) then s[|s| - 1] as int - 48 else 0
  }

  function SkipSpaces(s: string): (r: string) {
    if s != [] && IsSpace(s[0]) then SkipSpaces(s[1..]) else s
  }

  /** Whether a minus sign leads, and the text after the sign. */
  function Sign(s: string): (r: (bool, string)) {
    if s != [] && s[0] == '-' then (true, s[1..])
    else if s != [] && s[0] == '+' then (false, s[1..])
    else (false, s)
  }

  function Signed(negative: bool, n: nat): (r: int) {
    if negative then 0 - n else n
  }

  function Atoi(s: string): (r: int) {
    var (negative, t) := Sign(SkipSpaces(s));
    Signed(negative, Value(t[..DigitRun(t)]))
  }

  /** The first six fraction digits as millionths. */
  function Fraction(s: string): (r: nat) {
    var f := s[..DigitRun(s)];
    if |f| >= 6 then Value(f[..6]) else Value(f + seq(6 - |f|, i => '0'))
  }

  /** atof of a plain decimal text, in millionths. */
  function Atof(s: string): (r: int) {
    var (negative, t) := Sign(SkipSpaces(s));
    var n := DigitRun(t);
    var fraction := if n < |t| && t[n] == '.' then Fraction(t[n + 1..]) else 0;
    Signed(negative, Value(t[..n]) * MILLION + fraction)
  }

  function ParseValues(tokens: seq<string>, n: nat): (r: seq<int>)
    ensures |r| == n
  {
    if n == 0 then []
    else ParseValues(tokens, n - 1) + [if n <= |tokens| then Atof(tokens[n - 1]) else 0]
  }

  /** None where the code would use a null token or overrun the five values. */
  function ParseTokens(tokens: seq<string>): (r: Option<Custom>) {
    if |tokens| < 3 then None
    else
      var count := Atoi(tokens[2]);
      var name := if |tokens[1]| < NAME_SIZE then tokens[1] else tokens[1][..NAME_SIZE - 1];
      if count > 5 then None
      else Some(Custom(Atoi(tokens[0]), name, count, ParseValues(tokens[3..], if count < 0 then 0 else count)))
  }

  /** The text the parser works on. */
  function Temp(buffer: string): (r: string) {
    var s := CString(buffer);
    if |s| < MSG_SIZE then s else s[..MSG_SIZE - 1]
  }

  function Deserialize(buffer: string): (r: Option<Custom>) {
    ParseTokens(Tokens(Temp(buffer)))
  }

  // ---------------------------------------------------------------- the code with its positions

  /** What snprintf leaves in room cells, the closing zero aside. */
  function Clipped(text: string, room: nat): (r: string)
    requires room > 0
  {
    if |text| < room then text else text[..room - 1]
  }

  /** pos grows by what the whole text needed, whether or not it was cut. */
  method SerializeCustom(c: Custom) returns (buffer: string)
    requires Typed(c)
    ensures buffer == Serialize(c)
    ensures |buffer| < 512 && NUL !in buffer
  {
    hide PrintInt, PrintFixed, ValuesText;
    HeadFits(c);
    var head := Head(c);
    buffer := Clipped(head, MSG_SIZE);
    var pos: nat := |head|;
    ValuesTextOfNone();
    assert c.values[..0] == [];
    for i := 0 to |c.values|
      invariant pos == |buffer| < MSG_SIZE
      invariant buffer == head + ValuesText(c.values[..i])
    {
      ValuesTextFits(c.values[..i + 1]);
      ValuesTextSnoc(c.values, i);
      var text := [';'] + PrintFixed(c.values[i]);
      buffer := buffer[..pos] + Clipped(text, MSG_SIZE - pos);
      pos := pos + |text|;
    }
    assert c.values[..|c.values|] == c.values;
    FitsBuffer(c);
  }

  lemma ValuesTextOfNone()
    ensures ValuesText([]) == []
  {
  }

  lemma ValuesTextSnoc(values: seq<int>, i: nat)
    requires i < |values|
    ensures ValuesText(values[..i + 1]) == ValuesText(values[..i]) + ([';'] + PrintFixed(values[i]))
  {
    hide PrintFixed;
    assert values[..i + 1][..i] == values[..i];
  }

  /** One call of strtok, from position pos of the text on. */
  method Strtok(s: string, pos: nat) returns (token: Option<string>, next: nat)
    requires pos <= |s|
    ensures next <= |s|
    ensures Tokens(s[pos..]) == if token == None then [] else [token.value] + Tokens(s[next..])
    ensures token == None ==> next == |s|
  {
    hide Tokens;
    var start := pos;
    while start < |s| && s[start] == ';'
      invariant pos <= start <= |s| && Tokens(s[start..]) == Tokens(s[pos..])
      decreases |s| - start
    {
      TokensSemicolon(s[start + 1..]);
      assert s[start..] == [';'] + s[start + 1..];
      start := start + 1;
    }
    if start == |s| {
      NoTokens();
      assert s[start..] == [];
      return None, start;
    }
    next := start;
    while next < |s| && s[next] != ';'
      invariant start <= next <= |s| && ';' !in s[start..next]
      decreases |s| - next
    {
      next := next + 1;
    }
    token := Some(s[start..next]);
    assert s[start..next] + s[next..] == s[start..];
    TokensCons(s[start..next], s[next..]);
  }

  /** The loop over the values: a missing token counts as 0. */
  method ParseLoop(s: string, start: nat, count: int, ghost rest: seq<string>) returns (values: seq<int>)
    requires start <= |s| && Tokens(s[start..]) == rest
    ensures values == ParseValues(rest, if count < 0 then 0 else count)
  {
    hide Atof, Tokens;
    var pos: nat, i: nat := start, 0;
    values := [];
    NoTokens();
    assert s[|s|..] == [];
    while i < count
      invariant pos <= |s|
      invariant if count < 0 then i == 0 else i <= count
      invariant values == ParseValues(rest, i)
      invariant Tokens(s[pos..]) == if i <= |rest| then rest[i..] else []
      decreases count - i
    {
      var t, next := Strtok(s, pos);
      values := values + [if t.Some? then Atof(t.value) else 0];
      pos := next;
      i := i + 1;
    }
  }

  method DeserializeCustom(buffer: string) returns (r: Option<Custom>)
    ensures r == Deserialize(buffer)
  {
    hide Tokens, Atoi, ParseValues, CString;
    var s := Temp(buffer);
    assert s[0..] == s;
    var t0, p0 := Strtok(s, 0);
    if t0 == None {
      return None;
    }
    var t1, p1 := Strtok(s, p0);
    if t1 == None {
      return None;
    }
    var t2, p2 := Strtok(s, p1);
    if t2 == None {
      return None;
    }
    ghost var rest := Tokens(s[p2..]);
    assert Tokens(s) == [t0.value, t1.value, t2.value] + rest;
    var count := Atoi(t2.value);
    if count > 5 {
      return None;
    }
    var values := ParseLoop(s, p2, count, rest);
    var name := if |t1.value| < NAME_SIZE then t1.value else t1.value[..NAME_SIZE - 1];
    r := Some(Custom(Atoi(t0.value), name, count, values));
  }

  // ---------------------------------------------------------------- numbers read back

  lemma {:induction false} DigitsAre(n: nat)
    ensures forall i :: 0 <= i < |Digits(n)| ==> IsDigit(Digits(n)[i])
    ensures Value(Digits(n)) == n
  {
    if n < 10 {
      assert [Digit(n)][..0] == [];
      assert Value([]) == 0;
    } else {
      DigitsAre(n / 10);
      ValueSnoc(Digits(n / 10), Digit(n % 10));
    }
  }

  lemma ValueSnoc(s: string, c: char)
    ensures Value(s + [c]) == 10 * Value(s) + if IsDigit(c) then c as int - 48 else 0
  {
    assert (s + [c])[..|s|] == s;
  }

  function Power10(k: nat): (r: nat)
    ensures r > 0
  {
    if k == 0 then 1 else 10 * Power10(k - 1)
  }

  lemma {:induction false} PaddedAre(n: nat, k: nat)
    requires n < Power10(k)
    ensures forall i :: 0 <= i < k ==> IsDigit(Padded(n, k)[i])
    ensures Value(Padded(n, k)) == n
  {
    if k > 0 {
      PaddedAre(n / 10, k - 1);
      ValueSnoc(Padded(n / 10, k - 1), Digit(n % 10));
    }
  }

  /** A run of digits ends at the first other character. */
  lemma {:induction false} RunEnds(s: string, rest: string)
    requires forall i :: 0 <= i < |s| ==> IsDigit(s[i])
    requires rest == [] || !IsDigit(rest[0])
    ensures DigitRun(s + rest) == |s| && (s + rest)[..|s|] == s
  {
    if s == [] {
      assert s + rest == rest;
    } else {
      RunEnds(s[1..], rest);
      assert (s + rest)[1..] == s[1..] + rest;
    }
  }

  lemma PlainText(s: string)
    requires s != [] && (IsDigit(s[0]) || s[0] == '-')
    ensures SkipSpaces(s) == s
    ensures Sign(s) == if s[0] == '-' then (true, s[1..]) else (false, s)
  {
  }

  lemma AtoiOfPrint(n: int)
    ensures Atoi(PrintInt(n)) == n
  {
    hide Digits, Value, DigitRun, SkipSpaces, Sign;
    var m := if n < 0 then -n else n;
    DigitsAre(m);
    RunEnds(Digits(m), []);
    assert Digits(m) + [] == Digits(m);
    PlainText(PrintInt(n));
    assert n < 0 ==> PrintInt(n)[1..] == Digits(m);
  }

  lemma SixDigits()
    ensures Power10(6) == MILLION
  {
    assert Power10(3) == 1000;
  }

  lemma FractionOfPadded(n: nat)
    requires n < MILLION
    ensures Fraction(Padded(n, 6)) == n
  {
    hide Value, DigitRun, Padded;
    SixDigits();
    PaddedAre(n, 6);
    RunEnds(Padded(n, 6), []);
    assert Padded(n, 6) + [] == Padded(n, 6) && Padded(n, 6)[..6] == Padded(n, 6);
  }

  lemma AtofOfPrint(v: int)
    ensures Atof(PrintFixed(v)) == v
  {
    hide Digits, Value, DigitRun, SkipSpaces, Sign, Fraction, Padded;
    var m := if v < 0 then -v else v;
    var whole, part := Digits(m / MILLION), Padded(m % MILLION, 6);
    DigitsAre(m / MILLION);
    RunEnds(whole, ['.'] + part);
    FractionOfPadded(m % MILLION);
    var t := PrintMagnitude(m);
    assert t == whole + (['.'] + part);
    assert t[|whole|] == '.' && t[|whole| + 1..] == part;
    PlainText(PrintFixed(v));
    assert v < 0 ==> PrintFixed(v)[1..] == t;
    assert m == (m / MILLION) * MILLION + m % MILLION;
  }

  // ---------------------------------------------------------------- the text taken apart

  predicate Plain(s: string) {
    s != [] && ';' !in s
  }

  lemma {:induction false} FieldEndOf(s: string, rest: string)
    requires ';' !in s && (rest == [] || rest[0] == ';')
    ensures FieldEnd(s + rest) == |s|
  {
    if s == [] {
      assert s + rest == rest;
    } else {
      FieldEndOf(s[1..], rest);
      assert (s + rest)[1..] == s[1..] + rest;
    }
  }

  /** A plain field in front of a semicolon, or at the end, is one token. */
  lemma TokensCons(s: string, rest: string)
    requires Plain(s) && (rest == [] || rest[0] == ';')
    ensures Tokens(s + rest) == [s] + Tokens(rest)
  {
    FieldEndOf(s, rest);
    assert (s + rest)[..|s|] == s && (s + rest)[|s|..] == rest;
  }

  lemma TokensSemicolon(rest: string)
    ensures Tokens([';'] + rest) == Tokens(rest)
  {
    assert ([';'] + rest)[1..] == rest;
  }

  /** Whatever the text, its tokens are neither empty nor hold a semicolon. */
  lemma {:induction false} TokensArePlain(s: string)
    ensures forall i :: 0 <= i < |Tokens(s)| ==> Plain(Tokens(s)[i])
    decreases |s|
  {
    if s != [] {
      if s[0] == ';' {
        TokensArePlain(s[1..]);
      } else {
        TokensArePlain(s[FieldEnd(s)..]);
      }
    }
  }

  lemma {:induction false} DigitsPlain(n: nat)
    ensures Plain(Digits(n)) && NUL !in Digits(n)
  {
    DigitsAre(n);
  }

  lemma NumbersArePlain(n: int)
    ensures Plain(PrintInt(n)) && NUL !in PrintInt(n)
    ensures Plain(PrintFixed(n)) && NUL !in PrintFixed(n)
  {
    hide Digits, Padded;
    var m := if n < 0 then -n else n;
    DigitsPlain(m);
    DigitsPlain(m / MILLION);
    SixDigits();
    PaddedAre(m % MILLION, 6);
  }

  /** The values' part of the text, seen from the front. */
  function ValuesFrom(values: seq<int>): (r: string) {
    if values == [] then [] else [';'] + (PrintFixed(values[0]) + ValuesFrom(values[1..]))
  }

  lemma {:induction false} ValuesFromSnoc(values: seq<int>, v: int)
    ensures ValuesFrom(values + [v]) == ValuesFrom(values) + [';'] + PrintFixed(v)
  {
    hide PrintFixed;
    if values == [] {
      assert ([] + [v])[1..] == [];
      assert ValuesFrom([v]) == [';'] + (PrintFixed(v) + []);
    } else {
      ValuesFromSnoc(values[1..], v);
      assert (values + [v])[1..] == values[1..] + [v];
    }
  }

  lemma {:induction false} ValuesTextIs(values: seq<int>)
    ensures ValuesText(values) == ValuesFrom(values)
  {
    hide PrintFixed;
    if values != [] {
      var before, v := values[..|values| - 1], values[|values| - 1];
      ValuesTextIs(before);
      ValuesFromSnoc(before, v);
      assert values == before + [v];
    }
  }

  function Printed(values: seq<int>): (r: seq<string>)
    ensures |r| == |values|
  {
    seq(|values|, i requires 0 <= i < |values| => PrintFixed(values[i]))
  }

  lemma {:induction false} TokensOfValues(values: seq<int>)
    ensures Tokens(ValuesFrom(values)) == Printed(values)
  {
    hide PrintFixed, Tokens;
    if values == [] {
      NoTokens();
    } else {
      var rest := ValuesFrom(values[1..]);
      TokensOfValues(values[1..]);
      TokensSemicolon(PrintFixed(values[0]) + rest);
      NumbersArePlain(values[0]);
      TokensCons(PrintFixed(values[0]), rest);
      assert Printed(values) == [PrintFixed(values[0])] + Printed(values[1..]);
    }
  }

  lemma NoTokens()
    ensures Tokens([]) == []
  {
  }

  lemma TokensOfRecord(c: Custom)
    requires Plain(c.name)
    ensures Tokens(Serialize(c)) == [PrintInt(c.id), c.name, PrintInt(c.count)] + Printed(c.values)
  {
    hide PrintInt, PrintFixed, Tokens, ValuesText, ValuesFrom;
    var v := ValuesText(c.values);
    ValuesTextIs(c.values);
    TokensOfValues(c.values);
    ValuesFromHead(c.values);
    NumbersArePlain(c.id);
    NumbersArePlain(c.count);
    TokensCons(PrintInt(c.count), v);
    var tail := PrintInt(c.count) + v;
    TokensSemicolon(tail);
    TokensCons(c.name, [';'] + tail);
    TokensSemicolon(c.name + ([';'] + tail));
    TokensCons(PrintInt(c.id), [';'] + (c.name + ([';'] + tail)));
    assert Serialize(c) == PrintInt(c.id) + ([';'] + (c.name + ([';'] + tail)));
  }

  lemma ValuesFromHead(values: seq<int>)
    ensures ValuesFrom(values) == [] || ValuesFrom(values)[0] == ';'
  {
  }

  lemma {:induction false} ParsePrinted(values: seq<int>, n: nat)
    ensures forall i :: 0 <= i < n ==> ParseValues(Printed(values), n)[i] == if i < |values| then values[i] else 0
  {
    hide PrintFixed, Atof;
    if n > 0 {
      ParsePrinted(values, n - 1);
      if n <= |values| {
        AtofOfPrint(values[n - 1]);
      }
    }
  }

  // ---------------------------------------------------------------- the text fits its buffer

  /** A number below ten to the k has at most k digits. */
  lemma {:induction false} DigitsBound(n: nat, k: nat)
    requires 0 < k && n < Power10(k)
    ensures |Digits(n)| <= k
  {
    if n >= 10 {
      assert Power10(1) == 10;
      DigitsBound(n / 10, k - 1);
    }
  }

  lemma Powers()
    ensures Power10(10) == 10000000000
    ensures Power10(39) == 1000000000000000000000000000000000000000
  {
    assert Power10(5) == 100000;
    assert Power10(10) == 10000000000;
    assert Power10(15) == 1000000000000000;
    assert Power10(20) == 100000000000000000000;
    assert Power10(25) == 10000000000000000000000000;
    assert Power10(30) == 1000000000000000000000000000000;
    assert Power10(35) == 100000000000000000000000000000000000;
  }

  lemma IntFits(n: int)
    requires -0x8000_0000 <= n < 0x8000_0000
    ensures |PrintInt(n)| <= 11
  {
    hide Power10, Digits;
    Powers();
    DigitsBound(if n < 0 then -n else n, 10);
  }

  lemma FixedFits(v: int)
    requires -FLOAT_LIMIT < v < FLOAT_LIMIT
    ensures |PrintFixed(v)| <= 47
  {
    hide Power10, Digits, Padded;
    Powers();
    DigitsBound((if v < 0 then -v else v) / MILLION, 39);
  }

  lemma {:induction false} ValuesTextFits(values: seq<int>)
    requires forall i :: 0 <= i < |values| ==> -FLOAT_LIMIT < values[i] < FLOAT_LIMIT
    ensures |ValuesText(values)| <= 48 * |values| && NUL !in ValuesText(values)
  {
    hide PrintFixed;
    if values != [] {
      ValuesTextFits(values[..|values| - 1]);
      FixedFits(values[|values| - 1]);
      NumbersArePlain(values[|values| - 1]);
    }
  }

  lemma HeadFits(c: Custom)
    requires Typed(c)
    ensures |Head(c)| <= 87 && NUL !in Head(c)
  {
    hide PrintInt;
    IntFits(c.id);
    IntFits(c.count);
    NumbersArePlain(c.id);
    NumbersArePlain(c.count);
  }

  /** No record is cut: text and closing zero fit the message. */
  lemma FitsBuffer(c: Custom)
    requires Typed(c)
    ensures |Serialize(c)| < 512 && NUL !in Serialize(c)
  {
    hide Head, ValuesText;
    HeadFits(c);
    ValuesTextFits(c.values);
  }

  // ---------------------------------------------------------------- the round trip

  /** Whatever stands behind the closing zero, a record comes back exactly when its name is a token. */
  lemma RoundTrip(c: Custom, rest: string)
    requires Typed(c)
    ensures Deserialize(Serialize(c) + [NUL] + rest) == Some(c) <==> c.name != "" && ';' !in c.name
  {
    hide Serialize, Deserialize;
    var s := Serialize(c);
    FitsBuffer(c);
    if Plain(c.name) {
      ParsesRecord(c, rest);
      WholeRecord(c);
    } else {
      ParsedNameIsPlain(s + [NUL] + rest);
    }
  }

  /** What a printed record of any name, count and number of values is read as: the name cut to its
      array, missing values as 0, values beyond the count not at all. */
  function ReadBack(c: Custom): (r: Custom) {
    Custom(c.id, if |c.name| < 64 then c.name else c.name[..63], c.count, ValuesRead(c.values, c.count))
  }

  function ValuesRead(values: seq<int>, count: int): (r: seq<int>)
    ensures |r| == if count < 0 then 0 else count
    ensures forall i :: 0 <= i < |r| ==> r[i] == if i < |values| then values[i] else 0
  {
    if count <= 0 then []
    else if count <= |values| then values[..count]
    else values + seq(count - |values|, i => 0)
  }

  lemma WholeRecord(c: Custom)
    requires Typed(c)
    ensures ReadBack(c) == c && c.count <= 5
  {
  }

  /** A printed record with a plain name that fits the message is read as ReadBack says; with a count
      over five it would overrun the values. */
  lemma ParsesRecord(c: Custom, rest: string)
    requires Plain(c.name) && NUL !in c.name && |Serialize(c)| < 512
    ensures Deserialize(Serialize(c) + [NUL] + rest) == if c.count > 5 then None else Some(ReadBack(c))
  {
    hide Tokens, Serialize, CString, PrintInt, PrintFixed, Atoi, Atof, ParseValues;
    var s := Serialize(c);
    NoNul(c);
    CStringStops(s, rest);
    TokensOfRecord(c);
    AtoiOfPrint(c.id);
    AtoiOfPrint(c.count);
    assert Tokens(s)[3..] == Printed(c.values);
    var n := if c.count < 0 then 0 else c.count;
    ParsePrinted(c.values, n);
    assert ParseValues(Printed(c.values), n) == ValuesRead(c.values, c.count);
  }

  lemma NoNul(c: Custom)
    requires NUL !in c.name
    ensures NUL !in Serialize(c)
  {
    hide PrintInt, ValuesText;
    NumbersArePlain(c.id);
    NumbersArePlain(c.count);
    NoNulInValues(c.values);
  }

  lemma {:induction false} NoNulInValues(values: seq<int>)
    ensures NUL !in ValuesText(values)
  {
    hide PrintFixed;
    if values != [] {
      NoNulInValues(values[..|values| - 1]);
      NumbersArePlain(values[|values| - 1]);
    }
  }

  /** Of a message without a closing zero the first 511 characters count. */
  lemma LongMessage(s: string)
    requires NUL !in s && |s| >= 512
    ensures Deserialize(s) == Deserialize(s[..511])
  {
    hide Tokens, CString;
    CStringWhole(s);
    CStringWhole(s[..511]);
  }

  lemma ParsedNameIsPlain(buffer: string)
    ensures Deserialize(buffer) == None || Plain(Deserialize(buffer).value.name)
  {
    hide Atoi, ParseValues, Tokens;
    TokensArePlain(Temp(buffer));
  }

  // ---------------------------------------------------------------- what numbers look like

  const TEN := "0123456789"

  lemma DigitsAreTen(c: char, d: nat)
    ensures IsDigit(c) <==> c in TEN
    ensures d < 10 ==> Digit(d) == TEN[d]
  {
    if IsDigit(c) {
      assert TEN[c as int - 48] == c;
    }
  }

  predicate AllDigits(s: string) {
    forall i :: 0 <= i < |s| ==> s[i] in TEN
  }

  lemma AllDigitsAre(s: string)
    ensures AllDigits(s) <==> forall i :: 0 <= i < |s| ==> IsDigit(s[i])
  {
    forall i | 0 <= i < |s| ensures s[i] in TEN <==> IsDigit(s[i]) {
      DigitsAreTen(s[i], 0);
    }
  }

  /** Digits without a leading zero, but for the number 0 itself. */
  predicate IsNumeral(s: string) {
    s != [] && AllDigits(s) && (s[0] == '0' ==> s == "0")
  }

  lemma {:induction false} DigitsAreNumeral(n: nat)
    ensures IsNumeral(Digits(n)) && (Digits(n) == "0" <==> n == 0)
  {
    hide AllDigits;
    DigitsAre(n);
    AllDigitsAre(Digits(n));
    if n >= 10 {
      DigitsAreNumeral(n / 10);
    }
  }

  /** "%d" is a minus sign for a negative number, else nothing, and then a numeral. */
  lemma IntLooks(n: int)
    ensures n >= 0 ==> IsNumeral(PrintInt(n))
    ensures n < 0 ==> PrintInt(n)[0] == '-' && IsNumeral(PrintInt(n)[1..])
  {
    hide Digits;
    DigitsAreNumeral(if n < 0 then -n else n);
  }

  /** "%f" is a minus sign for a negative number, else nothing, and then a numeral, a point and six digits. */
  lemma FixedLooks(v: int) returns (whole: string, part: string)
    ensures PrintFixed(v) == (if v < 0 then "-" else "") + whole + "." + part
    ensures IsNumeral(whole) && |part| == 6 && AllDigits(part)
  {
    hide Digits, Padded;
    var m := if v < 0 then -v else v;
    whole, part := Digits(m / MILLION), Padded(m % MILLION, 6);
    DigitsAreNumeral(m / MILLION);
    SixDigits();
    PaddedAre(m % MILLION, 6);
    AllDigitsAre(part);
  }

  predicate AllSpaces(s: string) {
    forall i :: 0 <= i < |s| ==> s[i] in BLANKS
  }

  /** An optional sign. */
  predicate IsSign(sign: string) {
    sign in {"", "+", "-"}
  }

  lemma {:induction false} SkipsSpaces(spaces: string, s: string)
    requires AllSpaces(spaces) && (s == [] || s[0] !in BLANKS)
    ensures SkipSpaces(spaces + s) == s
  {
    if spaces == [] {
      assert spaces + s == s;
      if s != [] {
        SpacesAreBlanks(s[0]);
      }
    } else {
      SpacesAreBlanks(spaces[0]);
      SkipsSpaces(spaces[1..], s);
      assert (spaces + s)[1..] == spaces[1..] + s;
    }
  }

  lemma TakesSign(sign: string, s: string)
    requires IsSign(sign) && (sign == "" ==> s == [] || s[0] !in {'+', '-'})
    ensures Sign(sign + s) == (sign == "-", s)
  {
    if sign != "" {
      assert (sign + s)[1..] == s;
    } else {
      assert sign + s == s;
    }
  }

  /** Whitespace, a sign and digits, each as long as can be, and the rest. */
  predicate IsInteger(spaces: string, sign: string, digits: string, rest: string) {
    && AllSpaces(spaces) && IsSign(sign) && AllDigits(digits)
    && (rest == [] || rest[0] !in TEN)
    && (sign == "" && digits == "" ==> rest == [] || rest[0] !in BLANKS + {'+', '-'})
  }

  /** Every text has that form. */
  lemma {:induction false} EveryTextIsInteger(s: string) returns (spaces: string, sign: string, digits: string, rest: string)
    ensures IsInteger(spaces, sign, digits, rest) && s == spaces + sign + digits + rest
  {
    if s != [] && s[0] in BLANKS {
      spaces, sign, digits, rest := EveryTextIsInteger(s[1..]);
      spaces := [s[0]] + spaces;
    } else {
      spaces := "";
      sign, digits, rest := SignAndDigits(s);
      assert spaces + sign + digits + rest == sign + digits + rest;
    }
  }

  lemma SplitSign(s: string) returns (sign: string, t: string)
    ensures IsSign(sign) && s == sign + t && (sign == "" ==> t == [] || t[0] !in {'+', '-'})
  {
    sign := if s == [] then "" else if s[0] == '+' then "+" else if s[0] == '-' then "-" else "";
    t := s[|sign|..];
  }

  lemma SignAndDigits(s: string) returns (sign: string, digits: string, rest: string)
    requires s == [] || s[0] !in BLANKS
    ensures IsInteger("", sign, digits, rest) && s == sign + digits + rest
  {
    hide IsSign, AllDigits;
    var t;
    sign, t := SplitSign(s);
    var n := LongestRun(t);
    digits, rest := t[..n], t[n..];
    assert t == digits + rest;
  }

  lemma {:induction false} LongestRun(t: string) returns (n: nat)
    ensures n <= |t| && AllDigits(t[..n]) && (n == |t| || t[n] !in TEN)
  {
    n := 0;
    if t != [] && t[0] in TEN {
      n := LongestRun(t[1..]);
      n := n + 1;
    }
  }

  /** However it is written, with whitespace, a sign and leading zeros in front and anything but a
      digit behind, atoi reads the number; no digits count as 0. */
  lemma AtoiReads(spaces: string, sign: string, digits: string, rest: string)
    requires IsInteger(spaces, sign, digits, rest)
    ensures Atoi(spaces + sign + digits + rest) == if sign == "-" then 0 - Value(digits) else Value(digits)
  {
    hide Value, SkipSpaces, Sign, DigitRun;
    var t := digits + rest;
    assert spaces + sign + digits + rest == spaces + (sign + t);
    NotBlank(sign, t);
    SkipsSpaces(spaces, sign + t);
    TakesSign(sign, t);
    RunOfDigits(digits, rest);
  }

  lemma RunOfDigits(s: string, rest: string)
    requires AllDigits(s) && (rest == [] || rest[0] !in TEN)
    ensures DigitRun(s + rest) == |s| && (s + rest)[..|s|] == s
  {
    AllDigitsAre(s);
    if rest != [] {
      DigitsAreTen(rest[0], 0);
    }
    RunEnds(s, rest);
  }

  lemma NotBlank(sign: string, t: string)
    requires IsSign(sign) && (sign == "" ==> t == [] || t[0] !in BLANKS)
    ensures sign + t == [] || (sign + t)[0] !in BLANKS
  {
  }

  /** Leading zeros do not matter. */
  lemma {:induction false} LeadingZeros(n: nat, k: nat)
    ensures Value(seq(k, i => '0') + Digits(n)) == n
    decreases k, n
  {
    if n < 10 {
      ZerosAreZero(k);
      DigitsAre(n);
      ValueSnoc(seq(k, i => '0'), Digit(n));
    } else {
      LeadingZeros(n / 10, k);
      ValueSnoc(seq(k, i => '0') + Digits(n / 10), Digit(n % 10));
      assert seq(k, i => '0') + Digits(n) == seq(k, i => '0') + Digits(n / 10) + [Digit(n % 10)];
    }
  }

  lemma {:induction false} ZerosAreZero(k: nat)
    ensures Value(seq(k, i => '0')) == 0
  {
    if k > 0 {
      ZerosAreZero(k - 1);
      ValueSnoc(seq(k - 1, i => '0'), '0');
      assert seq(k, i => '0') == seq(k - 1, i => '0') + ['0'];
    }
  }

  lemma DigitFirst(s: string)
    requires AllDigits(s) && s != ""
    ensures s[0] !in BLANKS + {'+', '-'}
  {
  }

  /** A decimal text is read as its millionths: fewer than six digits behind the point are filled up,
      digits beyond the sixth are dropped. */
  lemma AtofReads(spaces: string, sign: string, whole: string, part: string, rest: string)
    requires AllSpaces(spaces) && IsSign(sign) && AllDigits(whole) && AllDigits(part)
    requires whole != "" && (rest == [] || rest[0] !in TEN)
    ensures var six := if |part| >= 6 then part[..6] else part + seq(6 - |part|, i => '0');
      Atof(spaces + sign + whole + "." + part + rest)
      == if sign == "-" then 0 - (Value(whole) * 1000000 + Value(six)) else Value(whole) * 1000000 + Value(six)
  {
    hide Value, SkipSpaces, Sign, DigitRun, Fraction, AllSpaces, AllDigits, IsSign;
    DigitFirst(whole);
    var tail := ['.'] + (part + rest);
    var t := whole + tail;
    assert spaces + sign + whole + "." + part + rest == spaces + (sign + t);
    NotBlank(sign, t);
    SkipsSpaces(spaces, sign + t);
    TakesSign(sign, t);
    RunOfDigits(whole, tail);
    assert t[|whole|] == '.' && t[|whole| + 1..] == part + rest;
    FractionOf(part, rest);
  }

  lemma FractionOf(part: string, rest: string)
    requires AllDigits(part) && (rest == [] || rest[0] !in TEN)
    ensures Fraction(part + rest) == Value(if |part| >= 6 then part[..6] else part + seq(6 - |part|, i => '0'))
  {
    hide Value;
    RunOfDigits(part, rest);
  }
}
