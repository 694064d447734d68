/** The trace token: its parser, which cuts the text at commas, and its printed form. */
module TraceToken {
  import opened Types

  type U32 = n: nat | n < TWO_32

  /** `dependency` is the dependency id of a dependent token. */
  datatype Token = Token(isStatic: bool, region: U32, id: U32, request: U32, execution: U32, dependency: Option<U32>)

  datatype ParseError = InvalidArgument | OutOfRange
  datatype Result<+T> = Ok(value: T) | Err(error: ParseError)

  // ---------------------------------------------------------------- decimal text

  predicate IsDigit(c: char) { '0' <= c <= '9' }

  predicate IsSpace(c: char) { c == ' ' || '\t' <= c <= '\r' }

  function DigitChar(d: nat): char
    requires d < 10
  {
    '0' + d as char
  }

  /** Decimal digits as an output stream writes an unsigned number. */
  function Dec(n: nat): (s: string)
    ensures s != [] && forall k :: 0 <= k < |s| ==> IsDigit(s[k])
  {
    if n < 10 then [DigitChar(n)] else Dec(n / 10) + [DigitChar(n % 10)]
  }

  function DigitValue(c: char): nat
    requires IsDigit(c)
  {
    c as nat - '0' as nat
  }

  function Value(digits: string): nat
    requires forall k :: 0 <= k < |digits| ==> IsDigit(digits[k])
  {
    if digits == [] then 0
    else Value(digits[..|digits| - 1]) * 10 + DigitValue(digits[|digits| - 1])
  }

  function SkipSpaces(s: string): string {
    if s != [] && IsSpace(s[0]) then SkipSpaces(s[1..]) else s
  }

  /** Length of the leading run of digits. */
  function DigitRun(s: string): (n: nat)
    ensures n <= |s| && forall k :: 0 <= k < n ==> IsDigit(s[k])
  {
    if s == [] || !IsDigit(s[0]) then 0
    else
      var n := DigitRun(s[1..]);
      assert forall k :: 1 <= k < n + 1 ==> s[k] == s[1..][k - 1];
      n + 1
  }

  const LONG_MAX := 0x7FFF_FFFF_FFFF_FFFF

  /** `std::stol`: leading spaces, a sign, then as many digits as there are, as a 64-bit value. */
  function Stol(text: string): Result<int> {
    var s := SkipSpaces(text);
    var signed := s != [] && (s[0] == '-' || s[0] == '+');
    var digits := if signed then s[1..] else s;
    var n := DigitRun(digits);
    if n == 0 then Err(InvalidArgument)
    else
      var v: int := Value(digits[..n]);
      var x := if signed && s[0] == '-' then -v else v;
      if -LONG_MAX - 1 <= x <= LONG_MAX then Ok(x) else Err(OutOfRange)
  }

  /** Conversion of a 64-bit value to `unsigned`. */
  function Narrow(x: int): (n: U32)
    ensures 0 <= x < TWO_32 ==> n == x
  {
    x % TWO_32
  }

  /** A field: the parsed number, narrowed to 32 bits. */
  function Field(text: string): Result<U32> {
    match Stol(text)
    case Err(e) => Err(e)
    case Ok(x) => Ok(Narrow(x))
  }

  // ---------------------------------------------------------------- printing and parsing

  function Print(t: Token): string {
    (if t.isStatic then "s" else "")
    + Dec(t.region) + ", " + Dec(t.id) + ", " + Dec(t.request) + ", " + Dec(t.execution)
    + (if t.dependency.Some? then ", " + Dec(t.dependency.value) else "")
  }

  /** Position of the first comma, |s| when there is none. */
  function Comma(s: string): (k: nat)
    ensures k <= |s| && (k < |s| ==> s[k] == ',') && forall j :: 0 <= j < k ==> s[j] != ','
  {
    if s == [] || s[0] == ',' then 0
    else
      var k := Comma(s[1..]);
      assert forall j :: 1 <= j < k + 1 ==> s[j] == s[1..][j - 1];
      k + 1
  }

  function Head(s: string): string { s[..Comma(s)] }

  /** What follows the first comma. Without a comma the source's position wraps to 0 and the whole
      text is kept. */
  function Rest(s: string): string {
    if Comma(s) < |s| then s[Comma(s) + 1..] else s
  }

  function ParseSpec(text: string): Result<Token> {
    var first := Head(text);
    if first == [] then Err(OutOfRange)
    else
      var isStatic := first[0] == 's';
      match Field(if isStatic then first[1..] else first)
      case Err(e) => Err(e)
      case Ok(region) =>
        var s1 := Rest(text);
        match Field(Head(s1))
        case Err(e) => Err(e)
        case Ok(id) =>
          var s2 := Rest(s1);
          match Field(Head(s2))
          case Err(e) => Err(e)
          case Ok(request) =>
            var s3 := Rest(s2);
            match Field(Head(s3))
            case Err(e) => Err(e)
            case Ok(execution) =>
              var s4 := Rest(s3);
              if s4 == [] then Ok(Token(isStatic, region, id, request, execution, None))
              else
                match Field(s4)
                case Err(e) => Err(e)
                case Ok(dependency) => Ok(Token(isStatic, region, id, request, execution, Some(dependency)))
  }

  /** The parsing constructor, which cuts its text step by step. */
  method Parse(text: string) returns (r: Result<Token>)
    ensures r == ParseSpec(text)
  {
    var trace := text;
    var regionText := Head(trace);
    if |regionText| == 0 {
      return Err(OutOfRange);
    }
    var isStatic := regionText[0] == 's';
    if isStatic {
      regionText := regionText[1..];
    }
    var region := Field(regionText);
    if region.Err? {
      return Err(region.error);
    }
    trace := Rest(trace);
    var id := Field(Head(trace));
    if id.Err? {
      return Err(id.error);
    }
    trace := Rest(trace);
    var request := Field(Head(trace));
    if request.Err? {
      return Err(request.error);
    }
    trace := Rest(trace);
    var execution := Field(Head(trace));
    if execution.Err? {
      return Err(execution.error);
    }
    trace := Rest(trace);
    if |trace| == 0 {
      return Ok(Token(isStatic, region.value, id.value, request.value, execution.value, None));
    }
    var dependency := Field(trace);
    if dependency.Err? {
      return Err(dependency.error);
    }
    r := Ok(Token(isStatic, region.value, id.value, request.value, execution.value, Some(dependency.value)));
  }

  // ---------------------------------------------------------------- round trips

  lemma {:induction false} DecValue(n: nat)
    ensures Value(Dec(n)) == n
  {
    if n >= 10 {
      DecValue(n / 10);
      assert Dec(n)[..|Dec(n)| - 1] == Dec(n / 10);
    } else {
      assert Dec(n)[..0] == [];
    }
  }

  lemma {:induction false} DigitRunAll(s: string)
    requires forall k :: 0 <= k < |s| ==> IsDigit(s[k])
    ensures DigitRun(s) == |s|
  {
    if s != [] {
      assert forall k :: 0 <= k < |s[1..]| ==> s[1..][k] == s[k + 1];
      DigitRunAll(s[1..]);
    }
  }

  /** Reading a run of digits, after at most one space. */
  lemma StolDigits(s: string)
    requires s != [] && forall k :: 0 <= k < |s| ==> IsDigit(s[k])
    requires Value(s) <= LONG_MAX
    ensures Stol(s) == Ok(Value(s)) && Stol(" " + s) == Ok(Value(s))
  {
    SkipOne(s);
    StolSkipped(s, s);
    StolSkipped(" " + s, s);
  }

  lemma StolSkipped(text: string, s: string)
    requires s != [] && forall k :: 0 <= k < |s| ==> IsDigit(s[k])
    requires SkipSpaces(text) == s && Value(s) <= LONG_MAX
    ensures Stol(text) == Ok(Value(s))
  {
    DigitRunAll(s);
    assert IsDigit(s[0]) && s[..|s|] == s;
  }

  lemma SkipOne(s: string)
    requires s != [] && IsDigit(s[0])
    ensures SkipSpaces(s) == s && SkipSpaces(" " + s) == s
  {
    assert !IsSpace(s[0]);
    assert (" " + s)[1..] == s;
  }

  lemma FieldDigits(s: string, n: U32)
    requires s != [] && forall k :: 0 <= k < |s| ==> IsDigit(s[k])
    requires Value(s) == n
    ensures Field(s) == Ok(n) && Field(" " + s) == Ok(n)
  {
    assert n <= LONG_MAX;
    StolDigits(s);
    assert Stol(s) == Ok(n as int);
  }

  lemma DecField(n: U32)
    ensures Field(Dec(n)) == Ok(n) && Field(" " + Dec(n)) == Ok(n)
  {
    DecValue(n);
    var s := Dec(n);
    FieldDigits(s, n);
  }

  lemma {:induction false} CutAt(head: string, rest: string)
    requires ',' !in head
    ensures Head(head + "," + rest) == head && Rest(head + "," + rest) == rest
  {
    var s := head + "," + rest;
    assert s[|head|] == ',';
    assert forall j :: 0 <= j < |head| ==> s[j] == head[j];
    assert Comma(s) == |head|;
  }

  lemma NoCut(s: string)
    requires ',' !in s
    ensures Head(s) == s && Rest(s) == s
  {
  }

  lemma DecPlain(n: nat, prefix: string)
    requires ',' !in prefix
    ensures ',' !in prefix + Dec(n)
  {
    forall c | c in Dec(n)
      ensures c != ','
    {
      assert IsDigit(c);
    }
  }

  /** The first four fields of a text in the printed form, whatever follows them. */
  function Fields(t: Token, tail: string): string {
    ((if t.isStatic then "s" else "") + Dec(t.region)) + "," +
    ((" " + Dec(t.id)) + "," + ((" " + Dec(t.request)) + "," + ((" " + Dec(t.execution)) + tail)))
  }

  lemma PrintFields(t: Token, tail: string)
    ensures Print(t.(dependency := None)) + tail == Fields(t, tail)
  {
  }

  lemma FirstField(t: Token, rest: string)
    ensures var first := (if t.isStatic then "s" else "") + Dec(t.region);
            && Head(first + "," + rest) == first && Rest(first + "," + rest) == rest
            && first != [] && (first[0] == 's' <==> t.isStatic)
            && Field(if t.isStatic then first[1..] else first) == Ok(t.region)
  {
    var first := (if t.isStatic then "s" else "") + Dec(t.region);
    DecPlain(t.region, if t.isStatic then "s" else "");
    CutAt(first, rest);
    DecField(t.region);
    assert IsDigit(Dec(t.region)[0]);
    assert (if t.isStatic then first[1..] else first) == Dec(t.region);
  }

  lemma NextField(n: U32, rest: string)
    ensures Head((" " + Dec(n)) + "," + rest) == " " + Dec(n) && Rest((" " + Dec(n)) + "," + rest) == rest
    ensures Field(" " + Dec(n)) == Ok(n)
  {
    DecPlain(n, " ");
    CutAt(" " + Dec(n), rest);
    DecField(n);
  }

  /** Parsing reduces to what the last cut leaves. */
  lemma ParseFields(t: Token, tail: string)
    requires Head((" " + Dec(t.execution)) + tail) == " " + Dec(t.execution)
    ensures var s4 := Rest((" " + Dec(t.execution)) + tail);
            && (s4 == [] ==> ParseSpec(Fields(t, tail)) == Ok(t.(dependency := None)))
            && (s4 != [] && Field(s4).Ok? ==> ParseSpec(Fields(t, tail)) == Ok(t.(dependency := Some(Field(s4).value))))
  {
    var s3 := (" " + Dec(t.execution)) + tail;
    var s2 := (" " + Dec(t.request)) + "," + s3;
    var s1 := (" " + Dec(t.id)) + "," + s2;
    FirstField(t, s1);
    NextField(t.id, s2);
    NextField(t.request, s3);
    DecField(t.execution);
  }

  /** A dependent token survives printing and parsing; so does an independent one whose printed
      form is given a trailing comma. */
  lemma RoundTrip(t: Token)
    ensures ParseSpec(Print(t) + (if t.dependency.Some? then "" else ",")) == Ok(t)
  {
    DecPlain(t.execution, " ");
    if t.dependency.Some? {
      var tail := "," + (" " + Dec(t.dependency.value));
      PrintFields(t, tail);
      assert Print(t) + "" == Print(t.(dependency := None)) + tail;
      assert (" " + Dec(t.execution)) + tail == (" " + Dec(t.execution)) + "," + (" " + Dec(t.dependency.value));
      CutAt(" " + Dec(t.execution), " " + Dec(t.dependency.value));
      DecField(t.dependency.value);
      ParseFields(t, tail);
    } else {
      PrintFields(t, ",");
      assert (" " + Dec(t.execution)) + "," == (" " + Dec(t.execution)) + "," + "";
      CutAt(" " + Dec(t.execution), "");
      ParseFields(t, ",");
    }
  }

  /** Without that comma the execution time is read again as a dependency: printing and parsing
      gives the token back if and only if it is dependent. */
  lemma PlainRoundTrip(t: Token)
    ensures ParseSpec(Print(t)) == Ok(t) <==> t.dependency.Some?
    ensures t.dependency.None? ==> ParseSpec(Print(t)) == Ok(t.(dependency := Some(t.execution)))
  {
    if t.dependency.Some? {
      RoundTrip(t);
      assert Print(t) + "" == Print(t);
    } else {
      DecPlain(t.execution, " ");
      PrintFields(t, "");
      assert Print(t) + "" == Print(t);
      assert (" " + Dec(t.execution)) + "" == " " + Dec(t.execution);
      NoCut(" " + Dec(t.execution));
      DecField(t.execution);
      ParseFields(t, "");
    }
  }

  // ---------------------------------------------------------------- fields and examples

  predicate InLong(x: int) { -0x8000_0000_0000_0000 <= x <= 0x7FFF_FFFF_FFFF_FFFF }

  lemma StolPlain(s: string)
    requires s != [] && forall k :: 0 <= k < |s| ==> IsDigit(s[k])
    ensures Stol(s) == if InLong(Value(s)) then Ok(Value(s)) else Err(OutOfRange)
  {
    DigitRunAll(s);
    SkipOne(s);
    assert s[..|s|] == s;
  }

  lemma StolNegative(text: string, s: string)
    requires s != [] && forall k :: 0 <= k < |s| ==> IsDigit(s[k])
    requires text == ['-'] + s
    ensures Stol(text) == if InLong(0 - Value(s)) then Ok(0 - Value(s)) else Err(OutOfRange)
  {
    DigitRunAll(s);
    assert text[0] == '-' && SkipSpaces(text) == text;
    assert text[1..] == s && s[..|s|] == s;
  }

  lemma FieldNumber(text: string, x: int)
    requires Stol(text) == if InLong(x) then Ok(x) else Err(OutOfRange)
    ensures Field(text) == if InLong(x) then Ok(x % 0x1_0000_0000) else Err(OutOfRange)
  {
  }

  /** A number beyond the 64-bit range of `std::stol` is an error; any other number is reduced to
      32 bits, a negative one from above. */
  lemma NumberField(n: nat)
    ensures Field(Dec(n)) == if InLong(n) then Ok(n % 0x1_0000_0000) else Err(OutOfRange)
    ensures Field(['-'] + Dec(n)) == if InLong(0 - n) then Ok((0 - n) % 0x1_0000_0000) else Err(OutOfRange)
  {
    var s := Dec(n);
    DecValue(n);
    StolPlain(s);
    FieldNumber(s, n);
    StolNegative(['-'] + s, s);
    FieldNumber(['-'] + s, 0 - n);
  }

  lemma Digits()
    ensures Dec(1) == "1" && Dec(3) == "3" && Dec(4) == "4" && Dec(5) == "5" && Dec(6) == "6"
  {
  }

  lemma TwoDigits()
    ensures Dec(12) == "12"
  {
    Digits();
    assert Dec(12) == Dec(1) + "2";
  }

  /** A token as it is printed. */
  lemma PrintedToken()
    ensures Print(Token(true, 12, 3, 4, 5, Some(6))) == "s12, 3, 4, 5, 6"
    ensures Print(Token(false, 3, 12, 4, 5, None)) == "3, 12, 4, 5"
  {
    Digits();
    TwoDigits();
  }
}
