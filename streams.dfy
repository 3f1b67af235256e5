/** The `Reader` and `Writer` enums: one stream type each for reading and for
    writing, backed by exactly one of standard input/output, a file, or an
    in-memory cursor. Both revisions of the enums in the repository are
    modelled here; they differ only in what `show_buffer` does for a writer
    that has no buffer, and that difference has a method of its own.

    The variant of a stream is a `const` field: no operation can change it,
    and every operation touches only the resource of the active variant. */
module Streams {
  import opened Bytes
  import opened Io
  import opened Cursors
  import opened OsHandles

  /** The resource a reader reads from. */
  datatype ReadEnd =
    | Stdin(input: InputHandle)
    | File(input: InputHandle)
    | Memory(cursor: Cursor)
  {
    /** The one object that the active variant owns. */
    function Resource(): object {
      match this
      case Stdin(h) => h
      case File(h) => h
      case Memory(c) => c
    }
  }

  /** The resource a writer writes to. */
  datatype WriteEnd =
    | Stdout(output: OutputHandle)
    | File(output: OutputHandle)
    | Memory(cursor: Cursor)
  {
    function Resource(): object {
      match this
      case Stdout(h) => h
      case File(h) => h
      case Memory(c) => c
    }
  }

  /** What a read into `buf` from `source` did, compared with the state
      before it: a cursor hands over as many unread bytes as fit and never
      fails; a handle gives its next scripted answer. */
  twostate predicate ReadAnswered(source: ReadEnd, buf: array<byte>, new r: IoResult<nat>)
    reads source.Resource(), buf
  {
    match source
    case Memory(c) =>
      && r == Ok(Min(buf.Length, |old(c.Unread())|))
      && buf[..r.value] == old(c.Unread())[..r.value]
      && buf[r.value..] == old(buf[r.value..])
      && c.data == old(c.data) && c.Unread() == old(c.Unread())[r.value..]
    case Stdin(h) => HandleAnswered(h, buf, r)
    case File(h) => HandleAnswered(h, buf, r)
  }

  twostate predicate HandleAnswered(h: InputHandle, buf: array<byte>, new r: IoResult<nat>)
    reads h, buf
  {
    var step := NextRead(old(h.replies), buf.Length);
    && h.replies == step.later
    && (step.answer.Err? ==> r == Err(step.answer.error) && buf[..] == old(buf[..]))
    && (step.answer.Ok? ==> r == Ok(|step.answer.value|) && buf[..r.value] == step.answer.value
                            && buf[r.value..] == old(buf[r.value..]))
  }

  /** `Read::read` on whichever resource `source` is. */
  method ReadFrom(source: ReadEnd, buf: array<byte>) returns (r: IoResult<nat>)
    modifies source.Resource(), buf
    ensures ReadAnswered(source, buf, r)
  {
    match source
    case Stdin(h) =>
      r := h.Read(buf);
    case File(h) =>
      r := h.Read(buf);
    case Memory(c) =>
      var n := c.Read(buf);
      r := Ok(n);
  }

  /** What a write of `b` to `sink` did: a cursor takes all of `b` at its
      position; a handle takes what its next scripted answer lets through. */
  twostate predicate WriteAnswered(sink: WriteEnd, b: seq<byte>, new r: IoResult<nat>)
    reads sink.Resource()
  {
    match sink
    case Memory(c) =>
      r == Ok(|b|) && c.data == Overwrite(old(c.data), old(c.pos), b) && c.pos == old(c.pos) + |b|
    case Stdout(h) => OutputAnswered(h, b, r)
    case File(h) => OutputAnswered(h, b, r)
  }

  /** A handle's next answer decides a write: an exhausted script takes all
      of `b`, `Ok(k)` takes the first `min(k, |b|)` bytes and reports that
      count, and `Err(e)` fails with `e` and takes nothing. */
  twostate predicate OutputAnswered(h: OutputHandle, b: seq<byte>, new r: IoResult<nat>)
    reads h
  {
    if old(h.replies) == [] then
      r == Ok(|b|) && h.accepted == old(h.accepted) + b && h.replies == []
    else
      && h.replies == old(h.replies)[1..]
      && match old(h.replies)[0]
         case Err(e) => r == Err(e) && h.accepted == old(h.accepted)
         case Ok(room) => r == Ok(Min(room, |b|)) && h.accepted == old(h.accepted) + b[..Min(room, |b|)]
  }

  /** `Write::write` on whichever resource `sink` is. */
  method WriteTo(sink: WriteEnd, b: seq<byte>) returns (r: IoResult<nat>)
    modifies sink.Resource()
    ensures WriteAnswered(sink, b, r)
  {
    match sink
    case Stdout(h) =>
      r := h.Write(b);
    case File(h) =>
      r := h.Write(b);
    case Memory(c) =>
      var n := c.Write(b);
      r := Ok(n);
  }

  /** What a flush of `sink` did: a cursor has nothing to flush; a handle
      gives its next scripted answer and takes no bytes. */
  twostate predicate FlushAnswered(sink: WriteEnd, new r: IoResult<()>)
    reads sink.Resource()
  {
    match sink
    case Memory(c) => r == Ok(()) && unchanged(c)
    case Stdout(h) => FlushHandled(h, r)
    case File(h) => FlushHandled(h, r)
  }

  /** A handle's next answer decides a flush: `Err(e)` fails with `e`, an
      `Ok` answer or an exhausted script succeeds; no bytes are taken. */
  twostate predicate FlushHandled(h: OutputHandle, new r: IoResult<()>)
    reads h
  {
    && h.accepted == old(h.accepted)
    && (old(h.replies) == [] ==> r == Ok(()) && h.replies == [])
    && (old(h.replies) != [] ==> h.replies == old(h.replies)[1..])
    && (old(h.replies) != [] && old(h.replies)[0].Err? ==> r == Err(old(h.replies)[0].error))
    && (old(h.replies) != [] && old(h.replies)[0].Ok? ==> r == Ok(()))
  }

  /** `Write::flush` on whichever resource `sink` is. */
  method FlushOf(sink: WriteEnd) returns (r: IoResult<()>)
    modifies sink.Resource()
    ensures FlushAnswered(sink, r)
  {
    match sink
    case Stdout(h) =>
      r := h.Flush();
    case File(h) =>
      r := h.Flush();
    case Memory(c) =>
      r := c.Flush();
  }

  class Reader {
    const source: ReadEnd

    constructor (source: ReadEnd)
      ensures this.source == source
    {
      this.source := source;
    }

    function Resource(): object {
      source.Resource()
    }

    /** `Reader::default()`: standard input. */
    static method Default(stdin: InputHandle) returns (r: Reader)
      ensures fresh(r) && r.source == Stdin(stdin)
    {
      r := new Reader(Stdin(stdin));
    }

    /** `Reader::from_file(p)`: the outcome of opening `p` for reading is
        given as `outcome`; an error is passed on unchanged. */
    static method FromFile(outcome: IoResult<InputHandle>) returns (r: IoResult<Reader>)
      ensures outcome.Err? ==> r == Err(outcome.error)
      ensures outcome.Ok? ==> r.Ok? && fresh(r.value) && r.value.source == ReadEnd.File(outcome.value)
    {
      match outcome
      case Err(e) =>
        r := Err(e);
      case Ok(h) =>
        var reader := new Reader(ReadEnd.File(h));
        r := Ok(reader);
    }

    /** `Reader::memory(init)`: never fails; the buffer holds the bytes of
        `init`, or nothing, and reading starts at its beginning. */
    static method Memory(init: Option<Str>) returns (r: IoResult<Reader>)
      ensures r.Ok? && fresh(r.value) && r.value.source.Memory? && fresh(r.value.source.cursor)
      ensures r.value.source.cursor.data == (if init.Some? then init.value else [])
      ensures r.value.source.cursor.pos == 0
    {
      var cursor := new Cursor(if init.Some? then init.value else []);
      var reader := new Reader(ReadEnd.Memory(cursor));
      r := Ok(reader);
    }

    /** `Read::read`, dispatched to the active variant. */
    method Read(buf: array<byte>) returns (r: IoResult<nat>)
      modifies Resource(), buf
      ensures ReadAnswered(source, buf, r)
    {
      r := ReadFrom(source, buf);
    }
  }

  /** The error the second revision's `show_buffer` reports for a writer
      without a buffer. */
  function NoBufferError(): IoError {
    IoError(NotFound, Text("no buffer"), None)
  }

  class Writer {
    const sink: WriteEnd

    constructor (sink: WriteEnd)
      ensures this.sink == sink
    {
      this.sink := sink;
    }

    function Resource(): object {
      sink.Resource()
    }

    /** `Writer::default()`: standard output. */
    static method Default(stdout: OutputHandle) returns (w: Writer)
      ensures fresh(w) && w.sink == Stdout(stdout)
    {
      w := new Writer(Stdout(stdout));
    }

    /** `Writer::from_file(p)`: the outcome of opening `p` for writing is
        given as `outcome`; an error is passed on unchanged. */
    static method FromFile(outcome: IoResult<OutputHandle>) returns (r: IoResult<Writer>)
      ensures outcome.Err? ==> r == Err(outcome.error)
      ensures outcome.Ok? ==> r.Ok? && fresh(r.value) && r.value.sink == WriteEnd.File(outcome.value)
    {
      match outcome
      case Err(e) =>
        r := Err(e);
      case Ok(h) =>
        var writer := new Writer(WriteEnd.File(h));
        r := Ok(writer);
    }

    /** `Writer::memory()`: never fails, and the buffer starts empty. */
    static method Memory() returns (r: IoResult<Writer>)
      ensures r.Ok? && fresh(r.value) && r.value.sink.Memory? && fresh(r.value.sink.cursor)
      ensures r.value.sink.cursor.data == [] && r.value.sink.cursor.pos == 0
    {
      var cursor := new Cursor([]);
      var writer := new Writer(WriteEnd.Memory(cursor));
      r := Ok(writer);
    }

    /** `Write::write`, dispatched to the active variant. */
    method Write(b: seq<byte>) returns (r: IoResult<nat>)
      modifies Resource()
      ensures WriteAnswered(sink, b, r)
    {
      r := WriteTo(sink, b);
    }

    /** `Write::flush`, dispatched to the active variant. */
    method Flush() returns (r: IoResult<()>)
      modifies Resource()
      ensures FlushAnswered(sink, r)
    {
      r := FlushOf(sink);
    }

    /** `show_buffer` of src/lib.rs: for the memory variant, rewind to the
        start and read the whole buffer as text, whatever the position was;
        any other writer has an empty text. */
    method ShowBuffer() returns (r: IoResult<Str>)
      modifies if sink.Memory? then {sink.cursor} else {}
      ensures sink.Memory? ==> r == DecodeText(old(sink.cursor.data)) && sink.cursor.data == old(sink.cursor.data)
      ensures !sink.Memory? ==> r == Ok([])
    {
      match sink
      case Memory(c) =>
        c.SetPosition(0);
        r := c.ReadToString();
      case _ =>
        r := Ok([]);
    }

    /** `show_buffer` of crates/rw/src/enum.rs: as above for the memory
        variant; any other writer fails with `NotFound` "no buffer". */
    method ShowBufferOrNotFound() returns (r: IoResult<Str>)
      modifies if sink.Memory? then {sink.cursor} else {}
      ensures sink.Memory? ==> r == DecodeText(old(sink.cursor.data)) && sink.cursor.data == old(sink.cursor.data)
      ensures !sink.Memory? ==> r == Err(NoBufferError())
    {
      match sink
      case Memory(c) =>
        c.SetPosition(0);
        r := c.ReadToString();
      case _ =>
        r := Err(NoBufferError());
    }
  }

  /** Writes every part in turn to a new memory writer, flushes it and shows
      its buffer, with the `show_buffer` of crates/rw/src/enum.rs when
      `orNotFound` holds and that of src/lib.rs otherwise: the text shown is
      the concatenation of the parts. */
  method WriteThenShow(parts: seq<Str>, orNotFound: bool) returns (r: IoResult<Str>)
    ensures r == Ok(Concat(parts))
  {
    var created := Writer.Memory();
    var w := created.value;
    var c := w.sink.cursor;
    for i := 0 to |parts|
      invariant c.data == Concat(parts[..i]) && c.pos == |c.data|
    {
      OverwriteAtEnd(c.data, parts[i]);
      assert parts[..i + 1][..i] == parts[..i];
      var n := w.Write(parts[i]);
    }
    assert parts[..|parts|] == parts;
    var flushed := w.Flush();
    if orNotFound {
      r := w.ShowBufferOrNotFound();
    } else {
      r := w.ShowBuffer();
    }
  }
}
