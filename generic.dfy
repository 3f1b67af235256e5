/** The generic `Reader<R>` and `Writer<W>` of crates/rw/src/generic.rs:
    thin wrappers that pass every `read`, `write` and `flush` on to the
    stream they wrap, which is standard input or output, a file, or an
    in-memory cursor. */
module GenericStreams {
  import opened Bytes
  import opened Io
  import opened Cursors
  import opened OsHandles
  import opened Streams
  import opened BufferedLines

  /** `Ok(d + m)` when `r` is `Ok(m)`; an error stays as it is. */
  function Prepend(d: seq<byte>, r: IoResult<seq<byte>>): (p: IoResult<seq<byte>>)
    ensures p.Ok? <==> r.Ok?
    ensures r.Ok? ==> p.value == d + r.value
    ensures r.Err? ==> p == r
  {
    match r
    case Ok(m) => Ok(d + m)
    case Err(e) => Err(e)
  }

  /** What `read_to_end` collects from a stream whose reads will answer
      `rs`: the bytes up to the first empty answer, or the first error
      that is not an interruption; an interrupted read is retried. */
  function ScriptContents(rs: Script): (r: IoResult<seq<byte>>)
    ensures r.Err? ==> r.error.kind != Interrupted && Err(r.error) in rs
    decreases |rs|
  {
    if rs == [] then Ok([])
    else match rs[0]
      case Err(e) => if e.kind == Interrupted then ScriptContents(rs[1..]) else Err(e)
      case Ok(d) => if d == [] then Ok([]) else Prepend(d, ScriptContents(rs[1..]))
  }

  lemma PrependTwice(a: seq<byte>, b: seq<byte>, r: IoResult<seq<byte>>)
    ensures Prepend(a, Prepend(b, r)) == Prepend(a + b, r)
  {
    if r.Ok? {
      assert a + (b + r.value) == (a + b) + r.value;
    }
  }

  /** One read of at most `room` bytes from a handle answering `rs`: what
      it delivers is the front of what reading to the end collects, and the
      answers left over are fewer. */
  lemma NextReadContents(rs: Script, room: nat)
    requires room > 0
    ensures var step := NextRead(rs, room);
            && (step.answer.Ok? && step.answer.value == [] ==> ScriptContents(rs) == Ok([]))
            && (step.answer.Ok? && step.answer.value != [] ==>
                  ScriptContents(rs) == Prepend(step.answer.value, ScriptContents(step.later))
                  && Size(step.later) < Size(rs))
            && (step.answer.Err? && step.answer.error.kind == Interrupted ==>
                  ScriptContents(rs) == ScriptContents(step.later) && Size(step.later) < Size(rs))
            && (step.answer.Err? && step.answer.error.kind != Interrupted ==>
                  ScriptContents(rs) == Err(step.answer.error))
  {
    if rs != [] && rs[0].Ok? && |rs[0].value| > room {
      var d := rs[0].value;
      var later: Script := [Ok(d[room..])] + rs[1..];
      assert later[1..] == rs[1..];
      assert ScriptContents(later) == Prepend(d[room..], ScriptContents(rs[1..]));
      PrependTwice(d[..room], d[room..], ScriptContents(rs[1..]));
      assert d[..room] + d[room..] == d;
    }
  }

  /** What reading `source` to the end collects from here on. */
  function RemainingOf(source: ReadEnd): IoResult<seq<byte>>
    reads source.Resource()
  {
    match source
    case Memory(c) => Ok(c.Unread())
    case Stdin(h) => ScriptContents(h.replies)
    case File(h) => ScriptContents(h.replies)
  }

  /** What is left to read from `source`, which every read that delivers
      something or fails makes smaller. */
  function PendingOf(source: ReadEnd): nat
    reads source.Resource()
  {
    match source
    case Memory(c) => |c.Unread()|
    case Stdin(h) => Size(h.replies)
    case File(h) => Size(h.replies)
  }

  /** The size of the probe reads `read_to_end` starts with. */
  const ProbeSize: nat := 32

  /** `Reader<R>`: a `Read` that reads from `inner`. */
  class GenericReader {
    const inner: ReadEnd

    constructor (inner: ReadEnd)
      ensures this.inner == inner
    {
      this.inner := inner;
    }

    /** `Reader::new()` and `Reader::default()`: standard input. */
    static method New(stdin: InputHandle) returns (r: GenericReader)
      ensures fresh(r) && r.inner == Stdin(stdin)
    {
      r := new GenericReader(Stdin(stdin));
    }

    /** `Reader::try_from_file(path)`: the outcome of opening the path for
        reading is given as `outcome`; an error is passed on unchanged. */
    static method TryFromFile(outcome: IoResult<InputHandle>) returns (r: IoResult<GenericReader>)
      ensures outcome.Err? ==> r == Err(outcome.error)
      ensures outcome.Ok? ==> r.Ok? && fresh(r.value) && r.value.inner == ReadEnd.File(outcome.value)
    {
      match outcome
      case Err(e) =>
        r := Err(e);
      case Ok(h) =>
        var reader := new GenericReader(ReadEnd.File(h));
        r := Ok(reader);
    }

    /** `Reader::from_string(s)`: a cursor over the bytes of `s`, at its
        start. */
    static method FromString(s: Str) returns (r: GenericReader)
      ensures fresh(r) && r.inner.Memory? && fresh(r.inner.cursor)
      ensures r.inner.cursor.data == s && r.inner.cursor.pos == 0
    {
      var c := new Cursor(s);
      r := new GenericReader(ReadEnd.Memory(c));
    }

    /** `Read::read`: whatever the inner stream does, with the same count
        or the same error. As `read_to_end` sees it: an empty read means
        there is nothing more to collect; bytes delivered are the front of
        what is collected; an interrupted read changes nothing that is
        collected; any other error is what reading to the end reports. */
    method Read(buf: array<byte>) returns (r: IoResult<nat>)
      modifies inner.Resource(), buf
      ensures ReadAnswered(inner, buf, r)
      ensures buf.Length > 0 && r.Ok? && r.value == 0 ==> old(RemainingOf(inner)) == Ok([])
      ensures buf.Length > 0 && r.Ok? && r.value > 0 ==>
                r.value <= buf.Length
                && old(RemainingOf(inner)) == Prepend(buf[..r.value], RemainingOf(inner))
                && PendingOf(inner) < old(PendingOf(inner))
      ensures buf.Length > 0 && r.Err? && r.error.kind == Interrupted ==>
                old(RemainingOf(inner)) == RemainingOf(inner) && PendingOf(inner) < old(PendingOf(inner))
      ensures buf.Length > 0 && r.Err? && r.error.kind != Interrupted ==> old(RemainingOf(inner)) == Err(r.error)
    {
      r := ReadFrom(inner, buf);
      if buf.Length > 0 {
        match inner
        case Memory(c) =>
          if r.value > 0 {
            assert old(c.Unread()) == buf[..r.value] + c.Unread();
          }
        case Stdin(h) =>
          NextReadContents(old(h.replies), buf.Length);
        case File(h) =>
          NextReadContents(old(h.replies), buf.Length);
      }
    }

    /** One probe read of `read_to_end`: a `read` into a fresh buffer of
        `ProbeSize` bytes, giving the bytes it delivered. */
    method Probe() returns (got: IoResult<seq<byte>>)
      modifies inner.Resource()
      ensures inner.Memory? ==> inner.cursor.data == old(inner.cursor.data)
      ensures got.Ok? && got.value == [] ==> old(RemainingOf(inner)) == Ok([])
      ensures inner.Memory? && got.Ok? && got.value == [] ==> inner.cursor.Unread() == []
      ensures got.Ok? && got.value != [] ==>
                old(RemainingOf(inner)) == Prepend(got.value, RemainingOf(inner))
                && PendingOf(inner) < old(PendingOf(inner))
      ensures got.Err? && got.error.kind == Interrupted ==>
                old(RemainingOf(inner)) == RemainingOf(inner) && PendingOf(inner) < old(PendingOf(inner))
      ensures got.Err? && got.error.kind != Interrupted ==> old(RemainingOf(inner)) == Err(got.error)
    {
      var buf := new byte[ProbeSize];
      var n := Read(buf);
      match n
      case Err(e) =>
        got := Err(e);
      case Ok(k) =>
        got := Ok(buf[..k]);
    }

    /** `std::io::read_to_string(reader)`: probe reads until one delivers
        nothing, retrying interrupted reads and stopping at any other
        error, then check the bytes as text. */
    method ReadToString() returns (r: IoResult<Str>)
      modifies inner.Resource()
      ensures old(RemainingOf(inner)).Err? ==> r == Err(old(RemainingOf(inner)).error)
      ensures old(RemainingOf(inner)).Ok? ==> r == DecodeText(old(RemainingOf(inner)).value)
      ensures inner.Memory? ==> inner.cursor.data == old(inner.cursor.data) && inner.cursor.Unread() == []
    {
      var acc: seq<byte> := [];
      ghost var total := RemainingOf(inner);
      assert Prepend(acc, total) == total by {
        if total.Ok? {
          assert acc + total.value == total.value;
        }
      }
      while true
        invariant Prepend(acc, RemainingOf(inner)) == total
        invariant inner.Memory? ==> inner.cursor.data == old(inner.cursor.data)
        decreases PendingOf(inner)
      {
        var got := Probe();
        if got.Err? {
          if got.error.kind != Interrupted {
            r := Err(got.error);
            return;
          }
        } else {
          if got.value == [] {
            assert total == Ok(acc) by {
              assert acc + [] == acc;
            }
            break;
          }
          PrependTwice(acc, got.value, RemainingOf(inner));
          acc := acc + got.value;
        }
      }
      r := DecodeText(acc);
    }
  }

  /** `Writer<W>`: a `Write` that writes to `inner`. */
  class GenericWriter {
    const inner: WriteEnd

    constructor (inner: WriteEnd)
      ensures this.inner == inner
    {
      this.inner := inner;
    }

    /** `Writer::new()` and `Writer::default()`: standard output. */
    static method New(stdout: OutputHandle) returns (w: GenericWriter)
      ensures fresh(w) && w.inner == Stdout(stdout)
    {
      w := new GenericWriter(Stdout(stdout));
    }

    /** `Writer::try_to_file(path)`: the outcome of opening (or creating)
        the path for writing is given as `outcome`. */
    static method TryToFile(outcome: IoResult<OutputHandle>) returns (r: IoResult<GenericWriter>)
      ensures outcome.Err? ==> r == Err(outcome.error)
      ensures outcome.Ok? ==> r.Ok? && fresh(r.value) && r.value.inner == WriteEnd.File(outcome.value)
    {
      match outcome
      case Err(e) =>
        r := Err(e);
      case Ok(h) =>
        var writer := new GenericWriter(WriteEnd.File(h));
        r := Ok(writer);
    }

    /** `Writer::to_string()`: an empty cursor at position 0. */
    static method ToString() returns (w: GenericWriter)
      ensures fresh(w) && w.inner.Memory? && fresh(w.inner.cursor)
      ensures w.inner.cursor.data == [] && w.inner.cursor.pos == 0
    {
      var c := new Cursor([]);
      w := new GenericWriter(WriteEnd.Memory(c));
    }

    /** `Write::write`: whatever the inner stream does. */
    method Write(b: seq<byte>) returns (r: IoResult<nat>)
      modifies inner.Resource()
      ensures WriteAnswered(inner, b, r)
    {
      r := WriteTo(inner, b);
    }

    /** `Write::flush`: whatever the inner stream does. */
    method Flush() returns (r: IoResult<()>)
      modifies inner.Resource()
      ensures FlushAnswered(inner, r)
    {
      r := FlushOf(inner);
    }
  }

  /** Reading a `from_string` reader to the end gives back the string. */
  method FromStringRoundTrip(s: Str) returns (r: IoResult<Str>)
    ensures r == Ok(s)
  {
    var reader := GenericReader.FromString(s);
    r := reader.ReadToString();
  }

  /** Writing "Hallo allemaal\n" to a `to_string` writer and flushing it
      both succeed, and the cursor holds the 15 bytes written. */
  method WriteToString() returns (written: IoResult<nat>, flushed: IoResult<()>, w: GenericWriter)
    ensures written == Ok(15) && flushed == Ok(())
    ensures w.inner.Memory? && w.inner.cursor.data == Text("Hallo allemaal\n")
  {
    var line := Text("Hallo allemaal\n");
    w := GenericWriter.ToString();
    written := w.Write(line);
    OverwriteAtEnd([], line);
    flushed := w.Flush();
  }
}
