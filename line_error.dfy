/** `LineError`: an I/O error together with the number of the line it
    happened on, if any, and the two ways it renders as text. The same type
    is declared twice in the repository, in src/lib.rs and in
    crates/rw/src/line_erro.rs, with the same behaviour. */
module LineErrors {
  import opened Bytes
  import opened Io

  datatype LineError = LineError(lineno: Option<nat>, error: IoError)

  predicate IsDigit(b: byte) {
    0x30 <= b <= 0x39
  }

  predicate AllDigits(d: seq<byte>) {
    forall i | 0 <= i < |d| :: IsDigit(d[i])
  }

  /** The decimal digits of `n`, as `{}` formats an unsigned integer: at
      least one digit, and no leading zero unless `n` is zero. */
  function Decimal(n: nat): (d: seq<byte>)
    ensures |d| > 0 && AllDigits(d)
    ensures d[0] == 0x30 ==> n == 0
    decreases n
  {
    if n < 10 then [(0x30 + n) as byte]
    else Decimal(n / 10) + [(0x30 + n % 10) as byte]
  }

  /** The number a run of decimal digits denotes. */
  function DigitsValue(d: seq<byte>): nat
    requires AllDigits(d)
  {
    if d == [] then 0
    else DigitsValue(d[..|d| - 1]) * 10 + (d[|d| - 1] as int - 0x30)
  }

  /** Reading the digits back gives the number. */
  lemma {:induction false} DecimalValue(n: nat)
    ensures DigitsValue(Decimal(n)) == n
    decreases n
  {
    if n >= 10 {
      var d := Decimal(n);
      DecimalValue(n / 10);
      assert d[..|d| - 1] == Decimal(n / 10);
    }
  }

  /** The decimal text of a number, which is ASCII and so a `String`. */
  function DecimalText(n: nat): Str {
    AsciiValid(Decimal(n));
    Decimal(n)
  }

  function Append(a: Str, b: Str): Str {
    ValidConcat(a, b);
    a + b
  }

  /** The fixed parts of the two renderings, as bytes. */
  const ErrorInLine: seq<byte> := Text("Error in line ")
  const ColonSpace: seq<byte> := Text(": ")
  const ErrorColon: seq<byte> := Text("Error: ")
  const LineWord: seq<byte> := Text("Line ")
  const Space: seq<byte> := Text(" ")

  /** What the fixed parts look like where it matters: where the two
      `Display` forms first differ, and that the separator after the line
      number is not a digit. */
  lemma FixedParts()
    ensures |ErrorInLine| == 14 && |ColonSpace| == 2 && |ErrorColon| == 7 && |LineWord| == 5 && |Space| == 1
    ensures ErrorInLine[5] == 0x20 && ErrorColon[5] == 0x3A && ColonSpace[0] == 0x3A
  {
    assert "Error in line "[5] == ' ' && "Error: "[5] == ':' && ": "[0] == ':';
    assert ErrorInLine[5] as int == ' ' as int;
    assert ErrorColon[5] as int == ':' as int;
    assert ColonSpace[0] as int == ':' as int;
  }

  /** `Display`: "Error in line n: e" with a line number, "Error: e"
      without one. */
  function Display(e: LineError): (r: Str)
    ensures |r| > |e.error.message| && r[|r| - |e.error.message|..] == e.error.message
    ensures e.lineno.Some? ==> |r| > |ErrorInLine| && r[..|ErrorInLine|] == ErrorInLine
    ensures e.lineno.None? ==> |r| == |ErrorColon| + |e.error.message| && r[..|ErrorColon|] == ErrorColon
  {
    match e.lineno
    case Some(n) =>
      Append(Append(Append(ErrorInLine, DecimalText(n)), ColonSpace), e.error.message)
    case None =>
      Append(ErrorColon, e.error.message)
  }

  /** `Debug`: "Line n e" with a line number, just "e" without one. */
  function Debug(e: LineError): (r: Str)
    ensures |r| >= |e.error.message| && r[|r| - |e.error.message|..] == e.error.message
    ensures e.lineno.Some? ==> |r| > |LineWord| + |e.error.message| && r[..|LineWord|] == LineWord
  {
    match e.lineno
    case Some(n) =>
      Append(Append(Append(LineWord, DecimalText(n)), Space), e.error.message)
    case None =>
      e.error.message
  }

  /** `Error::source`: the source of the wrapped I/O error, not the I/O
      error itself. */
  function Source(e: LineError): (r: Option<ErrorSource>)
    ensures e.error.source.None? ==> r.None?
  {
    e.error.source
  }

  /** `Error::cause`: defers to `source`. */
  function Cause(e: LineError): (r: Option<ErrorSource>)
    ensures r == Source(e)
  {
    Source(e)
  }

  /** `error_line(lineno)`: a function that wraps any I/O error with the
      line number it was made with. */
  function ErrorLine(lineno: Option<nat>): (f: IoError -> LineError)
    ensures forall io :: f(io).lineno == lineno && f(io).error == io
  {
    io => LineError(lineno, io)
  }

  /** The number of leading decimal digits of `s`. */
  function DigitRun(s: seq<byte>): (k: nat)
    ensures k <= |s| && AllDigits(s[..k])
    ensures k < |s| ==> !IsDigit(s[k])
  {
    if s == [] || !IsDigit(s[0]) then 0
    else
      var k := 1 + DigitRun(s[1..]);
      assert forall i | 1 <= i < k :: s[..k][i] == s[1..][..k - 1][i - 1];
      k
  }

  /** Reads a rendering made by `Display` back into its line number and
      the message of its error; `None` for text `Display` cannot produce. */
  function ParseDisplay(s: seq<byte>): Option<(Option<nat>, seq<byte>)> {
    if |ErrorColon| <= |s| && s[..|ErrorColon|] == ErrorColon then
      Some((None, s[|ErrorColon|..]))
    else if |ErrorInLine| <= |s| && s[..|ErrorInLine|] == ErrorInLine then
      ParseNumbered(s[|ErrorInLine|..])
    else None
  }

  /** Reads "n: e" into the line number `n` and the message `e`. */
  function ParseNumbered(t: seq<byte>): Option<(Option<nat>, seq<byte>)> {
    var k := DigitRun(t);
    if 0 < k && k + |ColonSpace| <= |t| && t[k..k + |ColonSpace|] == ColonSpace then
      Some((Some(DigitsValue(t[..k])), t[k + |ColonSpace|..]))
    else None
  }

  lemma {:induction false} DigitRunPrefix(d: seq<byte>, rest: seq<byte>)
    requires AllDigits(d) && rest != [] && !IsDigit(rest[0])
    ensures DigitRun(d + rest) == |d|
  {
    if d == [] {
      assert d + rest == rest;
    } else {
      assert (d + rest)[1..] == d[1..] + rest;
      DigitRunPrefix(d[1..], rest);
    }
  }

  lemma ParseDisplayNone(msg: seq<byte>)
    ensures ParseDisplay(ErrorColon + msg) == Some((None, msg))
  {
    FixedParts();
    var s := ErrorColon + msg;
    assert s[..7] == ErrorColon;
    assert s[7..] == msg;
  }

  lemma ParseDisplayNumbered(t: seq<byte>)
    ensures ParseDisplay(ErrorInLine + t) == ParseNumbered(t)
  {
    FixedParts();
    var s := ErrorInLine + t;
    assert s[5] != ErrorColon[5];
    assert s[..14] == ErrorInLine;
    assert s[14..] == t;
  }

  lemma DigitRunColon(d: seq<byte>, msg: seq<byte>)
    requires AllDigits(d)
    ensures DigitRun(d + ColonSpace + msg) == |d|
  {
    FixedParts();
    assert d + ColonSpace + msg == d + (ColonSpace + msg);
    DigitRunPrefix(d, ColonSpace + msg);
  }

  lemma SplitThree(a: seq<byte>, b: seq<byte>, c: seq<byte>)
    ensures var t := a + b + c;
            t[..|a|] == a && t[|a|..|a| + |b|] == b && t[|a| + |b|..] == c
  {
  }

  lemma ParseNumberedDigits(d: seq<byte>, msg: seq<byte>)
    requires |d| > 0 && AllDigits(d)
    ensures ParseNumbered(d + ColonSpace + msg) == Some((Some(DigitsValue(d)), msg))
  {
    FixedParts();
    DigitRunColon(d, msg);
    SplitThree(d, ColonSpace, msg);
  }

  /** `Display` loses nothing but the kind and the source of the error:
      the line number and the message can be read back from it. */
  lemma DisplayRoundTrip(e: LineError)
    ensures ParseDisplay(Display(e)) == Some((e.lineno, e.error.message))
  {
    match e.lineno
    case None =>
      ParseDisplayNone(e.error.message);
    case Some(n) =>
      var msg := e.error.message;
      DisplaySome(n, e.error);
      ParseDisplayNumbered(Decimal(n) + ColonSpace + msg);
      ParseNumberedDigits(Decimal(n), msg);
      DecimalValue(n);
  }

  lemma DisplaySome(n: nat, io: IoError)
    ensures Display(LineError(Some(n), io)) == ErrorInLine + (Decimal(n) + ColonSpace + io.message)
  {
    AppendFour(ErrorInLine, DecimalText(n), ColonSpace, io.message);
  }

  /** `Debug` with `Some(n)` is "Line ", the digits of `n`, a space and the
      message. */
  lemma DebugSome(n: nat, io: IoError)
    ensures Debug(LineError(Some(n), io)) == LineWord + (Decimal(n) + Space + io.message)
  {
    AppendFour(LineWord, DecimalText(n), Space, io.message);
  }

  lemma AppendFour(a: Str, b: Str, c: Str, d: Str)
    ensures Append(Append(Append(a, b), c), d) == a + (b + c + d)
  {
    assert (a + b) + c == a + (b + c);
    assert (a + (b + c)) + d == a + ((b + c) + d);
  }

  /** So two errors that display alike have the same line number and the
      same message. */
  lemma DisplayInjective(a: LineError, b: LineError)
    requires Display(a) == Display(b)
    ensures a.lineno == b.lineno && a.error.message == b.error.message
  {
    DisplayRoundTrip(a);
    DisplayRoundTrip(b);
  }

  /** `Debug` ends with the message, and is the bare message exactly when
      there is no line number. */
  lemma DebugShape(e: LineError)
    ensures |e.error.message| <= |Debug(e)|
    ensures Debug(e)[|Debug(e)| - |e.error.message|..] == e.error.message
    ensures Debug(e) == e.error.message <==> e.lineno.None?
  {
    var msg := e.error.message;
    if e.lineno.Some? {
      FixedParts();
      var pre := LineWord + DecimalText(e.lineno.value) + Space;
      assert Debug(e) == pre + msg;
      assert (pre + msg)[|pre|..] == msg;
    }
  }

  /** Unlike `Display`, `Debug` can render two different errors alike: an
      error on line `n` and one without a line number whose message starts
      with "Line n ". */
  lemma DebugAmbiguous(n: nat, io: IoError)
    ensures var prefixed := Append(Append(Append(LineWord, DecimalText(n)), Space), io.message);
            Debug(LineError(Some(n), io)) == Debug(LineError(None, io.(message := prefixed)))
  {
  }

  /** `error_line(l)` keeps both the line number it was made with and the
      error it is handed, and the source of the result is that error's. */
  lemma ErrorLineKeeps(lineno: Option<nat>, io: IoError)
    ensures ErrorLine(lineno)(io).lineno == lineno && ErrorLine(lineno)(io).error == io
    ensures Source(ErrorLine(lineno)(io)) == io.source
  {
  }
}
