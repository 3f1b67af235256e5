/** The two command-line programs of the repository, crates/example's
    `main.rs` and `examples/01.rs`: find the file named after `-f` or
    `--file` (standard input without one), read it line by line, hand every
    line to a callback, and stop at the first line that cannot be read,
    reporting its 1-based number. */
module LineProcessing {
  import opened Bytes
  import opened Io
  import opened Lines
  import opened LineErrors
  import opened OsHandles
  import opened Streams
  import opened BufferedLines

  /** What `process_lines(f)(r)` does: the lines `f` was called with, in
      order, and the result it returns. */
  datatype Outcome<T> = Outcome(applied: seq<T>, result: Result<(), LineError>)

  /** The `map(..).collect::<Result<Vec<_>, _>>()` over the numbered line
      results, the first of them numbered `no`: each success is passed to
      `f`, and the first failure stops the collection, wrapped with its
      line number. */
  function Numbered<T>(lines: seq<IoResult<T>>, no: nat): (o: Outcome<T>)
    ensures |o.applied| <= |lines|
    ensures o.result.Ok? <==> |o.applied| == |lines|
    ensures o.result.Err? ==> o.result.error.lineno == Some(no + |o.applied|)
    decreases |lines|
  {
    if lines == [] then Outcome([], Ok(()))
    else match lines[0]
      case Err(e) => Outcome([], Err(ErrorLine(Some(no))(e)))
      case Ok(l) =>
        var later := Numbered(lines[1..], no + 1);
        Outcome([l] + later.applied, later.result)
  }

  /** `process_lines(f)` on a reader whose lines are `lines`; `enumerate`
      counts from 0 and the error gets `no + 1`. */
  function ProcessLines<T>(lines: seq<IoResult<T>>): (o: Outcome<T>)
    ensures o.result.Ok? <==> |o.applied| == |lines|
    ensures o.result.Err? ==> o.result.error.lineno == Some(|o.applied| + 1)
  {
    Numbered(lines, 1)
  }

  /** The index of the first failure among `rs`, or `|rs|` if none. */
  function FirstErr<T>(rs: seq<IoResult<T>>): (i: nat)
    ensures i <= |rs| && AllOk(rs[..i])
    ensures i < |rs| ==> rs[i].Err?
  {
    if rs == [] then 0
    else if rs[0].Err? then 0
    else
      var i := 1 + FirstErr(rs[1..]);
      assert forall k | 1 <= k < i :: rs[..i][k] == rs[1..][..i - 1][k - 1];
      i
  }

  lemma OkValuesFront<T>(r: IoResult<T>, rs: seq<IoResult<T>>, i: nat)
    requires r.Ok? && i <= |rs| && AllOk(rs[..i])
    ensures AllOk(([r] + rs)[..i + 1])
    ensures OkValues(([r] + rs)[..i + 1]) == [r.value] + OkValues(rs[..i])
  {
    var front := ([r] + rs)[..i + 1];
    assert front == [r] + rs[..i];
    assert front[1..] == rs[..i];
  }

  /** `f` is called on exactly the lines before the first failure, in
      order; the result is `Ok(())` when there is no failure and otherwise
      the first failure, numbered from `no`. */
  lemma {:induction false} NumberedSpec<T>(lines: seq<IoResult<T>>, no: nat)
    ensures var i := FirstErr(lines); var o := Numbered(lines, no);
            && o.applied == OkValues(lines[..i])
            && (i == |lines| ==> o.result == Ok(()))
            && (i < |lines| ==> o.result == Err(LineError(Some(no + i), lines[i].error)))
    decreases |lines|
  {
    if lines != [] && lines[0].Ok? {
      NumberedSpec(lines[1..], no + 1);
      OkValuesFront(lines[0], lines[1..], FirstErr(lines[1..]));
      assert [lines[0]] + lines[1..] == lines;
    } else if lines != [] {
      assert lines[..0] == [];
    }
  }

  /** For `process_lines`: the lines before the first failure are handed
      to `f` in order, a failure at index `i` is reported as line `i + 1`,
      and every line read well gives `Ok(())`. */
  lemma ProcessLinesSpec<T>(lines: seq<IoResult<T>>)
    ensures ProcessLines(lines).applied == OkValues(lines[..FirstErr(lines)])
    ensures ProcessLines(lines).result.Ok? <==> AllOk(lines)
    ensures FirstErr(lines) < |lines| ==>
              ProcessLines(lines).result == Err(LineError(Some(FirstErr(lines) + 1), lines[FirstErr(lines)].error))
  {
    var i := FirstErr(lines);
    NumberedSpec(lines, 1);
    if i == |lines| {
      assert lines[..i] == lines;
    } else {
      assert !AllOk(lines) by {
        assert !lines[i].Ok?;
      }
    }
  }

  /** Fail fast: `f` is never called for the failing line or any line after
      it, so it is called once per line read before the failure. */
  lemma ProcessStopsAtFailure<T>(lines: seq<IoResult<T>>, k: nat)
    requires k < |lines| && lines[k].Err?
    ensures |ProcessLines(lines).applied| <= k
    ensures ProcessLines(lines).result.Err?
  {
    ProcessLinesSpec(lines);
    var i := FirstErr(lines);
    assert i <= k;
  }

  /** The index of the first line that is not UTF-8, or `|ls|` if none. */
  function FirstInvalid(ls: seq<seq<byte>>): (i: nat)
    ensures i <= |ls|
    ensures forall k | 0 <= k < i :: ValidUtf8(ls[k])
    ensures i < |ls| ==> !ValidUtf8(ls[i])
  {
    if ls == [] then 0
    else if !ValidUtf8(ls[0]) then 0
    else
      var i := 1 + FirstInvalid(ls[1..]);
      assert forall k | 1 <= k < i :: ls[k] == ls[1..][k - 1];
      i
  }

  /** Reading lines as text on their own fails first at the first line
      that is not UTF-8. */
  lemma {:induction false} FirstErrDecoded(ls: seq<seq<byte>>)
    ensures FirstErr(DecodeEach(ls)) == FirstInvalid(ls)
    decreases |ls|
  {
    if ls != [] {
      var d := DecodeEach(ls);
      assert d[0] == DecodeText(ls[0]) && d[1..] == DecodeEach(ls[1..]);
      if ValidUtf8(ls[0]) {
        FirstErrDecoded(ls[1..]);
      }
    }
  }

  /** The lines read well before the first failure are the lines
      themselves. */
  lemma {:induction false} DecodedValues(ls: seq<seq<byte>>, i: nat)
    requires i <= |ls| && forall k | 0 <= k < i :: ValidUtf8(ls[k])
    ensures AllOk(DecodeEach(ls)[..i]) && OkValues(DecodeEach(ls)[..i]) == ls[..i]
    decreases i
  {
    DecodeEachIndex(ls);
    var d := DecodeEach(ls)[..i];
    assert AllOk(d);
    if i > 0 {
      DecodedValues(ls, i - 1);
      OkValuesLast(d);
      assert d[..i - 1] == DecodeEach(ls)[..i - 1];
      assert ls[..i] == ls[..i - 1] + [ls[i - 1]];
    }
  }

  lemma {:induction false} OkValuesLast<T>(rs: seq<IoResult<T>>)
    requires rs != [] && AllOk(rs)
    ensures AllOk(rs[..|rs| - 1])
    ensures OkValues(rs) == OkValues(rs[..|rs| - 1]) + [rs[|rs| - 1].value]
    decreases |rs|
  {
    if |rs| > 1 {
      OkValuesLast(rs[1..]);
      assert rs[1..][..|rs| - 2] == rs[..|rs| - 1][1..];
    }
  }

  /** Processing text made of `\n`-separated lines hands `f` every line up
      to the first that is not UTF-8, and reports that one by its 1-based
      number. */
  lemma ProcessJoinedLines(ls: seq<seq<byte>>)
    requires AllLines(ls)
    requires |ls| > 0 ==> |ls[|ls| - 1]| > 0
    ensures ProcessLines(ReadLines(JoinLines(ls))).applied == ls[..FirstInvalid(ls)]
    ensures ProcessLines(ReadLines(JoinLines(ls))).result.Ok? <==> FirstInvalid(ls) == |ls|
    ensures ProcessLines(ReadLines(JoinLines(ls))).result.Err? ==>
              ProcessLines(ReadLines(JoinLines(ls))).result.error == LineError(Some(FirstInvalid(ls) + 1), InvalidUtf8Error())
  {
    ReadJoinedLines(ls);
    var d := DecodeEach(ls);
    ProcessLinesSpec(d);
    FirstErrDecoded(ls);
    DecodedValues(ls, FirstInvalid(ls));
    DecodeEachIndex(ls);
    if FirstInvalid(ls) < |ls| {
      assert d[FirstInvalid(ls)] == DecodeText(ls[FirstInvalid(ls)]);
    }
  }

  /** The index of the first of `xs` that is one of `prefixes`
      (`Iterator::position`). */
  function Position(xs: seq<string>, prefixes: seq<string>): (r: Option<nat>)
    ensures r.Some? ==> r.value < |xs| && xs[r.value] in prefixes
    ensures r.Some? ==> forall j | 0 <= j < r.value :: xs[j] !in prefixes
    ensures r.None? ==> forall j | 0 <= j < |xs| :: xs[j] !in prefixes
  {
    if xs == [] then None
    else if xs[0] in prefixes then Some(0)
    else match Position(xs[1..], prefixes)
      case None =>
        assert forall j | 1 <= j < |xs| :: xs[j] == xs[1..][j - 1];
        None
      case Some(i) =>
        assert forall j | 1 <= j <= i + 1 :: xs[j] == xs[1..][j - 1];
        Some(i + 1)
  }

  /** `args_argument(prefixes)`: skip the program name, find the first
      argument that is one of `prefixes`, and give the argument after it,
      if there is one. */
  function ArgsArgument(args: seq<string>, prefixes: seq<string>): (r: Option<string>)
    ensures r.Some? ==> exists i | 2 <= i < |args| :: args[i] == r.value && args[i - 1] in prefixes
  {
    var xs := if args == [] then [] else args[1..];
    match Position(xs, prefixes)
    case None => None
    case Some(i) =>
      if i + 1 < |xs| then
        assert args[i + 2] == xs[i + 1] && args[i + 1] == xs[i];
        Some(xs[i + 1])
      else None
  }

  /** `args[i]` is the first argument after the program name that is one
      of `prefixes`. */
  predicate FirstFlag(args: seq<string>, prefixes: seq<string>, i: nat) {
    1 <= i < |args| && args[i] in prefixes && forall j | 1 <= j < i :: args[j] !in prefixes
  }

  /** The value is the argument right after the first flag; there is none
      when no argument after the program name is a flag, or when the first
      flag is the last argument. */
  lemma ArgsArgumentSpec(args: seq<string>, prefixes: seq<string>)
    ensures (forall j | 1 <= j < |args| :: args[j] !in prefixes) ==> ArgsArgument(args, prefixes) == None
    ensures forall i: nat | FirstFlag(args, prefixes, i) ::
              ArgsArgument(args, prefixes) == if i + 1 < |args| then Some(args[i + 1]) else None
  {
    if args != [] {
      var xs := args[1..];
      assert forall j | 1 <= j < |args| :: args[j] == xs[j - 1];
      forall i: nat | FirstFlag(args, prefixes, i)
        ensures ArgsArgument(args, prefixes) == if i + 1 < |args| then Some(args[i + 1]) else None
      {
        assert xs[i - 1] in prefixes;
      }
    }
  }

  /** The flags that name the input file. */
  const FilePrefixes: seq<string> := ["-f", "--file"]

  /** Some invocations of the programs. */
  lemma ArgsArgumentExamples()
    ensures ArgsArgument(["rw", "-f", "data.txt"], FilePrefixes) == Some("data.txt")
    ensures ArgsArgument(["rw", "--file", "a", "-f", "b"], FilePrefixes) == Some("a")
    ensures ArgsArgument(["rw", "-v", "--file"], FilePrefixes) == None
    ensures ArgsArgument(["-f", "x"], FilePrefixes) == None
    ensures ArgsArgument([], FilePrefixes) == None
  {
    ArgsArgumentSpec(["rw", "-f", "data.txt"], FilePrefixes);
    assert FirstFlag(["rw", "-f", "data.txt"], FilePrefixes, 1);
    ArgsArgumentSpec(["rw", "--file", "a", "-f", "b"], FilePrefixes);
    assert FirstFlag(["rw", "--file", "a", "-f", "b"], FilePrefixes, 1);
    ArgsArgumentSpec(["rw", "-v", "--file"], FilePrefixes);
    assert FirstFlag(["rw", "-v", "--file"], FilePrefixes, 2);
    ArgsArgumentSpec(["-f", "x"], FilePrefixes);
  }

  /** What the programs do, given the command line, the answers standard
      input will give, and what opening a path gives: the answers of the
      opened file, or the error. */
  function Run(args: seq<string>, stdin: Script, open: string -> IoResult<Script>): (o: Outcome<seq<byte>>)
    ensures o.result.Err? && o.result.error.lineno.None? <==>
              ArgsArgument(args, FilePrefixes).Some? && open(ArgsArgument(args, FilePrefixes).value).Err?
    ensures o.result.Err? && o.result.error.lineno.None? ==> o.applied == []
  {
    match ArgsArgument(args, FilePrefixes)
    case None => ProcessLines(StreamLines(stdin))
    case Some(path) =>
      match open(path)
      case Err(e) => Outcome([], Err(ErrorLine(None)(e)))
      case Ok(script) => ProcessLines(StreamLines(script))
  }

  /** `main` of crates/example: open the file after the flag, with an open
      error wrapped without a line number, or take standard input, and
      process its lines. */
  method ExampleMain(args: seq<string>, stdin: InputHandle, open: string -> IoResult<Script>)
    returns (o: Outcome<seq<byte>>)
    ensures o == Run(args, stdin.replies, open)
    ensures ArgsArgument(args, FilePrefixes).None? ==> ProcessedAs(o, StreamLines(stdin.replies))
    ensures ArgsArgument(args, FilePrefixes).Some? && open(ArgsArgument(args, FilePrefixes).value).Err? ==>
              o == Outcome([], Err(LineError(None, open(ArgsArgument(args, FilePrefixes).value).error)))
    ensures ArgsArgument(args, FilePrefixes).Some? && open(ArgsArgument(args, FilePrefixes).value).Ok? ==>
              ProcessedAs(o, StreamLines(open(ArgsArgument(args, FilePrefixes).value).value))
  {
    RunSpec(args, stdin.replies, open);
    match ArgsArgument(args, FilePrefixes)
    case Some(path) =>
      match open(path) {
        case Err(e) =>
          o := Outcome([], Err(ErrorLine(None)(e)));
        case Ok(script) =>
          o := ProcessLines(StreamLines(script));
      }
    case None =>
      o := ProcessLines(StreamLines(stdin.replies));
  }

  /** `parse_args` of examples/01.rs: a file reader for the path after the
      flag, the standard input reader without one, and an open error
      wrapped without a line number. */
  method ParseArgs(args: seq<string>, stdin: InputHandle, open: string -> IoResult<Script>)
    returns (r: Result<Reader, LineError>)
    ensures ArgsArgument(args, FilePrefixes).None? ==>
              r.Ok? && fresh(r.value) && r.value.source == Stdin(stdin)
    ensures ArgsArgument(args, FilePrefixes).Some? ==>
              var attempt := open(ArgsArgument(args, FilePrefixes).value);
              && (attempt.Err? ==> r == Err(LineError(None, attempt.error)))
              && (attempt.Ok? ==>
                    r.Ok? && fresh(r.value) && r.value.source.File?
                    && fresh(r.value.source.input) && r.value.source.input.replies == attempt.value)
  {
    match ArgsArgument(args, FilePrefixes)
    case Some(path) =>
      var outcome: IoResult<InputHandle>;
      match open(path) {
        case Err(e) =>
          outcome := Err(e);
        case Ok(script) =>
          var h := new InputHandle(script);
          outcome := Ok(h);
      }
      var reader := Reader.FromFile(outcome);
      r := if reader.Ok? then Ok(reader.value) else Err(ErrorLine(None)(reader.error));
    case None =>
      var reader := Reader.Default(stdin);
      r := Ok(reader);
  }

  /** `main` of examples/01.rs: `parse_args`, then `process_lines` on the
      reader. It does just what the other program does. */
  method Main01(args: seq<string>, stdin: InputHandle, open: string -> IoResult<Script>)
    returns (o: Outcome<seq<byte>>)
    ensures o == Run(args, stdin.replies, open)
  {
    var parsed := ParseArgs(args, stdin, open);
    match parsed
    case Err(e) =>
      o := Outcome([], Err(e));
    case Ok(reader) =>
      o := ProcessLines(ReaderLines(reader));
  }

  /** What processing the line results `lines` promises: the callback gets
      the lines before the first failure, in order; the result is `Ok(())`
      exactly when every line reads well, and otherwise the first failure,
      numbered from 1. */
  predicate ProcessedAs<T(==)>(o: Outcome<T>, lines: seq<IoResult<T>>) {
    && o.applied == OkValues(lines[..FirstErr(lines)])
    && (o.result.Ok? <==> AllOk(lines))
    && (FirstErr(lines) < |lines| ==>
          o.result == Err(LineError(Some(FirstErr(lines) + 1), lines[FirstErr(lines)].error)))
  }

  /** What the programs do: with no file flag they process standard input;
      a file that cannot be opened is reported as the open error without a
      line number, and no line is processed; otherwise the opened file's
      lines are. */
  lemma RunSpec(args: seq<string>, stdin: Script, open: string -> IoResult<Script>)
    ensures ArgsArgument(args, FilePrefixes).None? ==> ProcessedAs(Run(args, stdin, open), StreamLines(stdin))
    ensures ArgsArgument(args, FilePrefixes).Some? && open(ArgsArgument(args, FilePrefixes).value).Err? ==>
              Run(args, stdin, open) == Outcome([], Err(LineError(None, open(ArgsArgument(args, FilePrefixes).value).error)))
    ensures ArgsArgument(args, FilePrefixes).Some? && open(ArgsArgument(args, FilePrefixes).value).Ok? ==>
              ProcessedAs(Run(args, stdin, open), StreamLines(open(ArgsArgument(args, FilePrefixes).value).value))
  {
    match ArgsArgument(args, FilePrefixes)
    case None =>
      ProcessLinesSpec(StreamLines(stdin));
    case Some(path) =>
      match open(path) {
        case Err(e) =>
          ErrorLineKeeps(None, e);
        case Ok(script) =>
          ProcessLinesSpec(StreamLines(script));
      }
  }
}
