/** The user-input validators of temboardagent/validators.py.  Each one
    either returns a value (`Ok`) or raises `ValueError` (`Err`, carrying
    the exception's message).  A validator is meant to be idempotent: it
    accepts what it returns. */
module Validators {
  import opened Wrappers
  import opened Text

  // ---------------------------------------------------------------------
  // address: a dotted-quad IPv4 address.

  /** One octet alternative of the address pattern, written as the regex
      `[3-9]\d?|2(?:5[0-5]|[0-4]?\d)?|1\d{0,2}|\d` reads. */
  predicate IsOctet(o: string)
    ensures IsOctet(o) ==> 1 <= |o| <= 3 && AllDigits(o)
  {
    || (1 <= |o| <= 2 && '3' <= o[0] <= '9' && (|o| == 2 ==> IsDigit(o[1])))
    || (1 <= |o| <= 3 && o[0] == '2' &&
        (|o| == 1
         || (|o| == 3 && o[1] == '5' && '0' <= o[2] <= '5')
         || (|o| == 2 && IsDigit(o[1]))
         || (|o| == 3 && '0' <= o[1] <= '4' && IsDigit(o[2]))))
    || (1 <= |o| <= 3 && o[0] == '1' && AllDigits(o))
    || (|o| == 1 && IsDigit(o[0]))
  }

  /** The address pattern without its `$`: an octet followed by three
      `\.`-prefixed octets.  An octet never contains a dot, so the four
      octets are exactly the pieces of the string split on dots. */
  predicate IsDottedQuad(s: string) {
    var parts := Split(s, '.');
    |parts| == 4 && forall i :: 0 <= i < 4 ==> IsOctet(parts[i])
  }

  /** `address(raw)`: returns `raw` unchanged when `_address_re.match(raw)`. */
  function Address(raw: string): (r: Result<string, string>)
    ensures r.Ok? ==> r.value == raw
    ensures r.Err? ==> r.error == "invalid address"
  {
    if MatchesWithDollar(raw, IsDottedQuad) then Ok(raw) else Err("invalid address")
  }

  /** The address written from four numbers. */
  function Quad(a: nat, b: nat, c: nat, d: nat): string {
    Join([Decimal(a), Decimal(b), Decimal(c), Decimal(d)], '.')
  }

  /** The value of a numeral of one to three digits, digit by digit. */
  lemma ShortNumeralValue(o: string)
    requires 1 <= |o| <= 3 && AllDigits(o)
    ensures DecimalValue(o) ==
      if |o| == 1 then DigitValue(o[0])
      else if |o| == 2 then DigitValue(o[0]) * 10 + DigitValue(o[1])
      else DigitValue(o[0]) * 100 + DigitValue(o[1]) * 10 + DigitValue(o[2])
  {
    assert DecimalValue(o[..0]) == 0;
    if |o| >= 2 {
      assert o[..1][..0] == o[..0];
      assert DecimalValue(o[..1]) == DigitValue(o[0]);
    }
    if |o| == 3 {
      assert o[..2][..1] == o[..1];
      assert DecimalValue(o[..2]) == DigitValue(o[0]) * 10 + DigitValue(o[1]);
    }
  }

  /** A canonical numeral of at most 255 has at most three digits. */
  lemma ByteNumeralIsShort(o: string)
    requires IsCanonicalDecimal(o) && DecimalValue(o) <= 255
    ensures |o| <= 3
  {
    if |o| > 3 {
      DecimalValueAtLeastPow(o);
      Pow10Monotone(3, |o| - 1);
    }
  }

  /** The octet alternatives match exactly the numerals of 0..255 written
      without leading zeros. */
  lemma OctetIsByteNumeral(o: string)
    ensures IsOctet(o) <==> IsCanonicalDecimal(o) && DecimalValue(o) <= 255
  {
    if IsOctet(o) {
      assert AllDigits(o);
      ShortNumeralValue(o);
    }
    if IsCanonicalDecimal(o) && DecimalValue(o) <= 255 {
      ByteNumeralIsShort(o);
      ShortNumeralValue(o);
      if |o| == 3 {
        assert o[0] == '1' || o[0] == '2';
        if o[0] == '2' {
          assert '0' <= o[1] <= '5';
          assert o[1] == '5' ==> '0' <= o[2] <= '5';
        }
      }
    }
  }

  /** Every number 0..255 written in decimal is an octet. */
  lemma ByteNumeralIsOctet(n: nat)
    requires n <= 255
    ensures IsOctet(Decimal(n))
  {
    DecimalValueOfDecimal(n);
    OctetIsByteNumeral(Decimal(n));
  }

  /** Four numbers in 0..255 joined by dots are accepted, with or without one
      trailing newline, and returned unchanged. */
  lemma AddressAcceptsQuad(a: nat, b: nat, c: nat, d: nat)
    requires a <= 255 && b <= 255 && c <= 255 && d <= 255
    ensures Address(Quad(a, b, c, d)) == Ok(Quad(a, b, c, d))
    ensures Address(Quad(a, b, c, d) + "\n") == Ok(Quad(a, b, c, d) + "\n")
  {
    var parts := [Decimal(a), Decimal(b), Decimal(c), Decimal(d)];
    ByteNumeralIsOctet(a);
    ByteNumeralIsOctet(b);
    ByteNumeralIsOctet(c);
    ByteNumeralIsOctet(d);
    forall i | 0 <= i < 4 ensures '.' !in parts[i] { }
    SplitJoin(parts, '.');
    var q := Quad(a, b, c, d);
    assert (q + "\n")[..|q + "\n"| - 1] == q;
  }

  /** Whatever `address` accepts is four numbers in 0..255 joined by dots,
      possibly followed by one newline. */
  lemma AddressAcceptsOnlyQuads(raw: string)
    requires Address(raw).Ok?
    ensures exists a: nat, b: nat, c: nat, d: nat ::
      a <= 255 && b <= 255 && c <= 255 && d <= 255 &&
      (raw == Quad(a, b, c, d) || raw == Quad(a, b, c, d) + "\n")
  {
    var body := if IsDottedQuad(raw) then raw else raw[..|raw| - 1];
    assert raw == body || raw == body + "\n";
    var a, b, c, d := DottedQuadValues(body);
  }

  /** The four numbers a dotted quad writes. */
  lemma DottedQuadValues(body: string) returns (a: nat, b: nat, c: nat, d: nat)
    requires IsDottedQuad(body)
    ensures a <= 255 && b <= 255 && c <= 255 && d <= 255
    ensures body == Quad(a, b, c, d)
  {
    var parts := Split(body, '.');
    JoinSplit(body, '.');
    OctetValue(parts[0]);
    OctetValue(parts[1]);
    OctetValue(parts[2]);
    OctetValue(parts[3]);
    a, b, c, d := DecimalValue(parts[0]), DecimalValue(parts[1]), DecimalValue(parts[2]), DecimalValue(parts[3]);
    assert parts == [Decimal(a), Decimal(b), Decimal(c), Decimal(d)];
  }

  /** An octet is the decimal numeral of a number in 0..255. */
  lemma OctetValue(o: string)
    requires IsOctet(o)
    ensures AllDigits(o) && DecimalValue(o) <= 255 && Decimal(DecimalValue(o)) == o
  {
    OctetIsByteNumeral(o);
    DecimalOfDecimalValue(o);
  }

  /** `address` accepts what it returns. */
  lemma AddressIdempotent(raw: string)
    requires Address(raw).Ok?
    ensures Address(Address(raw).value) == Address(raw)
  {
  }

  // ---------------------------------------------------------------------
  // boolean.

  /** What `boolean` is given: a bool, or a string for `strtobool`. */
  datatype BoolInput = BoolValue(b: bool) | BoolText(s: string)

  const TrueWords: set<string> := {"y", "yes", "t", "true", "on", "1"}
  const FalseWords: set<string> := {"n", "no", "f", "false", "off", "0"}

  /** `distutils.util.strtobool`, converted with `bool(...)`. */
  function StrToBool(s: string): (r: Result<bool, string>)
    ensures r == Ok(true) <==> Lower(s) in TrueWords
    ensures r == Ok(false) <==> Lower(s) in FalseWords
    ensures r.Err? ==> r.error == "invalid truth value '" + Lower(s) + "'"
  {
    var l := Lower(s);
    if l in TrueWords then Ok(true)
    else if l in FalseWords then Ok(false)
    else Err("invalid truth value '" + l + "'")
  }

  /** `boolean(raw)`: a bool is returned as it is, a string is parsed. */
  function Boolean(raw: BoolInput): (r: Result<bool, string>)
    ensures raw.BoolValue? ==> r == Ok(raw.b)
    ensures raw.BoolText? ==> r == StrToBool(raw.s)
  {
    match raw
    case BoolValue(b) => Ok(b)
    case BoolText(s) => StrToBool(s)
  }

  /** The true and false words are disjoint, so no spelling is both. */
  lemma TruthWordsDisjoint()
    ensures TrueWords * FalseWords == {}
  {
    assert forall w :: w in TrueWords ==> w !in FalseWords;
  }

  /** Parsing ignores the case of the letters. */
  lemma BooleanIgnoresCase(s: string)
    ensures Boolean(BoolText(Upper(s))) == Boolean(BoolText(s))
  {
    LowerOfUpper(s);
  }

  /** `boolean` accepts what it returns. */
  lemma BooleanIdempotent(raw: BoolInput)
    requires Boolean(raw).Ok?
    ensures Boolean(BoolValue(Boolean(raw).value)) == Boolean(raw)
  {
  }

  // ---------------------------------------------------------------------
  // jsonlist.

  /** A Python value as `json.loads` produces it, or as a caller passes it.
      `PyOther` is any other object (a float, a dict), carried with the text
      that `str()` gives for it. */
  datatype PyValue =
    | PyNone
    | PyBool(b: bool)
    | PyInt(i: int)
    | PyStr(s: string)
    | PyList(items: seq<PyValue>)
    | PyOther(text: string)

  function IntText(i: int): (s: string)
    ensures |s| >= 1
  {
    if i < 0 then "-" + Decimal(-i) else Decimal(i)
  }

  /** `str(v)`.  For a nested list the items are written with `str` rather
      than `repr`, so string items appear without quotes. */
  function ToStr(v: PyValue): string {
    match v
    case PyNone => "None"
    case PyBool(b) => if b then "True" else "False"
    case PyInt(i) => IntText(i)
    case PyStr(s) => s
    case PyList(items) => "[" + ItemsText(items) + "]"
    case PyOther(t) => t
  }

  function ItemsText(items: seq<PyValue>): string
    decreases items
  {
    if items == [] then ""
    else if |items| == 1 then ToStr(items[0])
    else ToStr(items[0]) + ", " + ItemsText(items[1..])
  }

  /** The identifier pattern `^[a-zA-Z0-9]+$` without its `$`. */
  predicate IsAlnumWord(w: string) {
    |w| >= 1 && forall i :: 0 <= i < |w| ==> IsAsciiAlnum(w[i])
  }

  predicate IsIdentifier(e: string) {
    MatchesWithDollar(e, IsAlnumWord)
  }

  /** `i` is the position of the first entry that is not an identifier. */
  predicate FirstInvalidAt(entries: seq<string>, i: nat) {
    i < |entries| && !IsIdentifier(entries[i]) &&
    forall j :: 0 <= j < i ==> IsIdentifier(entries[j])
  }

  /** The position of the first entry, in order, that is not an identifier:
      the checking loop stops and raises there. */
  function FirstInvalid(entries: seq<string>): (r: Option<nat>)
    ensures r.None? <==> forall i :: 0 <= i < |entries| ==> IsIdentifier(entries[i])
    ensures r.Some? ==> FirstInvalidAt(entries, r.value)
  {
    if entries == [] then None
    else if !IsIdentifier(entries[0]) then Some(0)
    else match FirstInvalid(entries[1..])
      case None => None
      case Some(i) => Some(i + 1)
  }

  /** `[str(e) for e in raw]`. */
  function StrEach(items: seq<PyValue>): (texts: seq<string>)
    ensures |texts| == |items|
    ensures forall i :: 0 <= i < |items| ==> texts[i] == ToStr(items[i])
  {
    seq(|items|, i requires 0 <= i < |items| => ToStr(items[i]))
  }

  /** `jsonlist(raw)`.  A string is first decoded by `loads`, which stands
      for `json.loads` (its `Err` is the decoder's `ValueError`). */
  function JsonList(raw: PyValue, loads: string -> Result<PyValue, string>): (r: Result<seq<string>, string>)
    ensures r.Ok? ==> forall i :: 0 <= i < |r.value| ==> IsIdentifier(r.value[i])
    ensures raw.PyList? && r.Ok? ==> |r.value| == |raw.items|
    ensures !raw.PyList? && !raw.PyStr? ==> r == Err("not a list")
    ensures raw.PyStr? && loads(raw.s).Err? ==> r == Err(loads(raw.s).error)
    ensures raw.PyStr? && loads(raw.s).Ok? && !loads(raw.s).value.PyList? ==> r == Err("not a list")
  {
    var decoded := if raw.PyStr? then loads(raw.s) else Ok(raw);
    if decoded.Err? then Err(decoded.error)
    else if !decoded.value.PyList? then Err("not a list")
    else
      var entries := StrEach(decoded.value.items);
      match FirstInvalid(entries)
      case Some(i) => Err(entries[i] + " is invalid")
      case None => Ok(entries)
  }

  /** A list value is accepted exactly when the `str` of every item is an
      identifier, and then the result is those texts in order; otherwise
      the first offending text is named. */
  lemma JsonListOfList(items: seq<PyValue>, loads: string -> Result<PyValue, string>)
    ensures JsonList(PyList(items), loads).Ok? <==>
      forall i :: 0 <= i < |items| ==> IsIdentifier(ToStr(items[i]))
    ensures JsonList(PyList(items), loads).Ok? ==>
      var out := JsonList(PyList(items), loads).value;
      |out| == |items| && forall i :: 0 <= i < |items| ==> out[i] == ToStr(items[i])
    ensures JsonList(PyList(items), loads).Err? ==>
      exists i :: 0 <= i < |items| && !IsIdentifier(ToStr(items[i])) &&
        JsonList(PyList(items), loads).error == ToStr(items[i]) + " is invalid"
  {
    var entries := StrEach(items);
    var f := FirstInvalid(entries);
    if f.Some? {
      assert !IsIdentifier(ToStr(items[f.value]));
    }
  }

  /** A string is decoded first: a decoding error is raised as it is, a
      decoded value that is not a list is refused, and a decoded list is
      checked as if it had been given directly. */
  lemma JsonListOfText(text: string, loads: string -> Result<PyValue, string>)
    ensures loads(text).Err? ==> JsonList(PyStr(text), loads) == Err(loads(text).error)
    ensures loads(text).Ok? && !loads(text).value.PyList? ==> JsonList(PyStr(text), loads) == Err("not a list")
    ensures loads(text).Ok? && loads(text).value.PyList? ==>
      JsonList(PyStr(text), loads) == JsonList(loads(text).value, loads)
  {
  }

  /** A value that is neither a list nor a string is refused. */
  lemma JsonListRefusesNonList(raw: PyValue, loads: string -> Result<PyValue, string>)
    requires !raw.PyList? && !raw.PyStr?
    ensures JsonList(raw, loads) == Err("not a list")
  {
  }

  /** Every entry returned is a non-empty ASCII alphanumeric word, possibly
      followed by one newline. */
  lemma JsonListEntriesAreIdentifiers(raw: PyValue, loads: string -> Result<PyValue, string>)
    requires JsonList(raw, loads).Ok?
    ensures forall e :: e in JsonList(raw, loads).value ==>
      (IsAlnumWord(e) || (IsAlnumWord(e[..|e| - 1]) && e[|e| - 1] == '\n'))
  {
  }

  function AsPyList(entries: seq<string>): (v: PyValue)
    ensures v.PyList? && |v.items| == |entries|
    ensures forall i :: 0 <= i < |entries| ==> v.items[i] == PyStr(entries[i])
  {
    PyList(seq(|entries|, i requires 0 <= i < |entries| => PyStr(entries[i])))
  }

  /** `jsonlist` accepts the list of strings it returns and returns it
      again. */
  lemma JsonListIdempotent(raw: PyValue, loads: string -> Result<PyValue, string>)
    requires JsonList(raw, loads).Ok?
    ensures JsonList(AsPyList(JsonList(raw, loads).value), loads) == JsonList(raw, loads)
  {
    var out := JsonList(raw, loads).value;
    var items := AsPyList(out).items;
    assert StrEach(items) == out;
  }

  // ---------------------------------------------------------------------
  // port.

  /** What `port` is given: an integer, or a string for `int()`. */
  datatype PortInput = PortInt(i: int) | PortText(s: string)

  predicate IsPyWhitespace(c: char) {
    c == ' ' || c == '\t' || c == '\n' || c == '\r' || c as int == 11 || c as int == 12
  }

  /** `s.lstrip()`. */
  function TrimStart(s: string): string {
    if |s| > 0 && IsPyWhitespace(s[0]) then TrimStart(s[1..]) else s
  }

  /** `s.rstrip()`. */
  function TrimEnd(s: string): string {
    if |s| > 0 && IsPyWhitespace(s[|s| - 1]) then TrimEnd(s[..|s| - 1]) else s
  }

  /** `int(s)` in base 10 as Python 2 reads a string: surrounding
      whitespace, an optional sign, whitespace again after the sign, then
      one or more ASCII digits; `None` is the `ValueError`. */
  function ParseInt(s: string): (r: Option<int>)
  {
    var t := TrimEnd(TrimStart(s));
    if |t| >= 1 && (t[0] == '+' || t[0] == '-') then
      var digits := TrimStart(t[1..]);
      if |digits| >= 1 && AllDigits(digits) then
        var v: int := DecimalValue(digits);
        Some(if t[0] == '-' then -v else v)
      else None
    else if |t| >= 1 && AllDigits(t) then Some(DecimalValue(t))
    else None
  }

  /** Stripping leading whitespace stops at the first character that is
      not whitespace. */
  lemma {:induction false} TrimStartBlanks(w: string, d: string)
    requires forall i :: 0 <= i < |w| ==> IsPyWhitespace(w[i])
    requires |d| >= 1 && !IsPyWhitespace(d[0])
    ensures TrimStart(w + d) == d
  {
    if w == [] {
      assert w + d == d;
    } else {
      assert (w + d)[1..] == w[1..] + d;
      TrimStartBlanks(w[1..], d);
    }
  }

  /** A sign, whitespace and digits: nothing to strip around it, and the
      digits are what is left after the sign once its whitespace is
      stripped. */
  lemma SignedNumeralShape(sign: char, w: string, d: string)
    requires sign == '+' || sign == '-'
    requires forall i :: 0 <= i < |w| ==> IsPyWhitespace(w[i])
    requires |d| >= 1 && AllDigits(d)
    ensures var s := [sign] + w + d;
      TrimEnd(TrimStart(s)) == s && |s| >= 1 && s[0] == sign && TrimStart(s[1..]) == d
  {
    var s := [sign] + w + d;
    assert s[0] == sign;
    var last := d[|d| - 1];
    assert IsDigit(last);
    assert s[|s| - 1] == last;
    assert TrimStart(s) == s;
    assert TrimEnd(s) == s;
    assert s[1..] == w + d;
    assert IsDigit(d[0]);
    TrimStartBlanks(w, d);
  }

  /** `int()` skips whitespace between the sign and the digits. */
  lemma ParseIntSkipsBlanksAfterSign(sign: char, w: string, d: string)
    requires sign == '+' || sign == '-'
    requires forall i :: 0 <= i < |w| ==> IsPyWhitespace(w[i])
    requires |d| >= 1 && AllDigits(d)
    ensures ParseInt([sign] + w + d) ==
      Some(if sign == '-' then -(DecimalValue(d) as int) else DecimalValue(d) as int)
  {
    SignedNumeralShape(sign, w, d);
    ParseIntOfSigned([sign] + w + d, sign, d);
  }

  /** A stripped text made of a sign, whitespace and digits is read as the
      signed value of the digits. */
  lemma ParseIntOfSigned(t: string, sign: char, d: string)
    requires TrimEnd(TrimStart(t)) == t && |t| >= 1 && t[0] == sign && (sign == '+' || sign == '-')
    requires TrimStart(t[1..]) == d && |d| >= 1 && AllDigits(d)
    ensures ParseInt(t) == Some(if sign == '-' then -(DecimalValue(d) as int) else DecimalValue(d) as int)
  {
  }

  /** `port("+ 80")` is port 80, and `port("- 80")` is out of range. */
  lemma PortSkipsBlanksAfterSign()
    ensures Port(PortText("+ 80")) == Ok(80)
    ensures Port(PortText("- 80")) == Err("Port out of range")
  {
    assert "+ 80" == ['+'] + " " + "80" && "- 80" == ['-'] + " " + "80";
    assert DecimalValue("80") == 80 by { assert "80"[..1] == "8"; assert "8"[..0] == ""; }
    ParseIntSkipsBlanksAfterSign('+', " ", "80");
    ParseIntSkipsBlanksAfterSign('-', " ", "80");
  }

  /** The upper bound `port` checks against, as written. */
  const PortBound := 65635

  /** `port(raw)` as written: refuses numbers below 0 or above 65635. */
  function Port(raw: PortInput): (r: Result<int, string>)
    ensures r.Ok? ==> 0 <= r.value <= PortBound
    ensures raw.PortInt? ==> (r.Ok? <==> 0 <= raw.i <= PortBound) && (r.Ok? ==> r.value == raw.i)
    ensures raw.PortText? && ParseInt(raw.s).None? ==> r == Err("invalid literal for int()")
    ensures raw.PortText? && ParseInt(raw.s).Some? ==>
      (r.Ok? <==> 0 <= ParseInt(raw.s).value <= PortBound) &&
      (r.Ok? ==> r.value == ParseInt(raw.s).value)
    ensures r.Err? && !(raw.PortText? && ParseInt(raw.s).None?) ==> r.error == "Port out of range"
  {
    var n := match raw case PortInt(i) => Some(i) case PortText(s) => ParseInt(s);
    if n.None? then Err("invalid literal for int()")
    else if 0 > n.value || n.value > PortBound then Err("Port out of range")
    else Ok(n.value)
  }

  /** A string of digits has no surrounding whitespace to strip. */
  lemma TrimDigits(s: string)
    requires |s| >= 1 && AllDigits(s)
    ensures TrimEnd(TrimStart(s)) == s
  {
    assert TrimStart(s) == s by { assert IsDigit(s[0]); }
    assert TrimEnd(s) == s by { assert IsDigit(s[|s| - 1]); }
  }

  /** `int()` reads a bare string of digits as its decimal value. */
  lemma ParseIntOfDigits(s: string)
    requires |s| >= 1 && AllDigits(s)
    ensures ParseInt(s) == Some(DecimalValue(s) as int)
  {
    TrimDigits(s);
    assert s[0] != '+' && s[0] != '-' by { assert IsDigit(s[0]); }
  }

  /** A number given as its decimal numeral is checked like the number. */
  lemma PortOfNumeral(n: nat)
    ensures Port(PortText(Decimal(n))) == Port(PortInt(n))
  {
    DecimalValueOfDecimal(n);
    ParseIntOfDigits(Decimal(n));
  }

  /** The bound as written lets through numbers that are not TCP ports. */
  lemma PortAcceptsAboveTcpRange()
    ensures Port(PortInt(65600)) == Ok(65600)
  {
  }

  /** `port` with the evidently intended bound 65535, the largest TCP port. */
  function TcpPort(raw: PortInput): (r: Result<int, string>)
    ensures r.Ok? ==> 0 <= r.value < 0x1_0000
  {
    var n := match raw case PortInt(i) => Some(i) case PortText(s) => ParseInt(s);
    if n.None? then Err("invalid literal for int()")
    else if 0 > n.value || n.value > 65535 then Err("Port out of range")
    else Ok(n.value)
  }

  /** The corrected validator accepts exactly the 16-bit port numbers. */
  lemma TcpPortAcceptsExactly16Bit(i: int)
    ensures TcpPort(PortInt(i)) == (if 0 <= i < 0x1_0000 then Ok(i) else Err("Port out of range"))
  {
  }

  /** `port` accepts the number it returns. */
  lemma PortIdempotent(raw: PortInput)
    requires Port(raw).Ok?
    ensures Port(PortInt(Port(raw).value)) == Port(raw)
  {
  }

  // ---------------------------------------------------------------------
  // loglevel, logmethod, syslogfacility: membership in sets the logging
  // library and the agent's log module define (given here as parameters).

  /** `loglevel(raw)`: the upper-cased name when it is a known level. */
  function LogLevel(raw: string, levelNames: set<string>): (r: Result<string, string>)
    ensures r.Ok? <==> Upper(raw) in levelNames
    ensures r.Ok? ==> r.value == Upper(raw)
    ensures r.Err? ==> r.error == "unkown log level"
  {
    var u := Upper(raw);
    if u !in levelNames then Err("unkown log level") else Ok(u)
  }

  /** `logmethod(raw)`: the input unchanged when it is a known log method. */
  function LogMethod(raw: string, methods: set<string>): (r: Result<string, string>)
    ensures r.Ok? <==> raw in methods
    ensures r.Ok? ==> r.value == raw
    ensures r.Err? ==> r.error == "unkown method"
  {
    if raw !in methods then Err("unkown method") else Ok(raw)
  }

  /** `syslogfacility(raw)`: the input unchanged when it is a facility name. */
  function SyslogFacility(raw: string, facilities: set<string>): (r: Result<string, string>)
    ensures r.Ok? <==> raw in facilities
    ensures r.Ok? ==> r.value == raw
    ensures r.Err? ==> r.error == "unkown syslog facility"
  {
    if raw !in facilities then Err("unkown syslog facility") else Ok(raw)
  }

  /** `loglevel` accepts the name it returns, in any case it was given. */
  lemma LogLevelIdempotent(raw: string, levelNames: set<string>)
    requires LogLevel(raw, levelNames).Ok?
    ensures LogLevel(LogLevel(raw, levelNames).value, levelNames) == LogLevel(raw, levelNames)
  {
    UpperIdempotent(raw);
  }

  lemma LogMethodIdempotent(raw: string, methods: set<string>)
    requires LogMethod(raw, methods).Ok?
    ensures LogMethod(LogMethod(raw, methods).value, methods) == LogMethod(raw, methods)
  {
  }

  lemma SyslogFacilityIdempotent(raw: string, facilities: set<string>)
    requires SyslogFacility(raw, facilities).Ok?
    ensures SyslogFacility(SyslogFacility(raw, facilities).value, facilities) ==
      SyslogFacility(raw, facilities)
  {
  }
}
