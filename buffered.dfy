/** `BufReader::new(r).lines()` over a stream that answers one read at a
    time: a line is gathered across as many reads as it takes, a read that
    fails ends the line in progress with its error, and a read that
    delivers nothing is the end of the stream. For a stream that never
    fails this is `Lines.ReadLines` of everything the stream delivers. */
module BufferedLines {
  import opened Bytes
  import opened Io
  import opened Lines
  import opened Cursors
  import opened OsHandles
  import opened Streams

  /** The answers a stream gives to successive reads. */
  type Script = seq<IoResult<seq<byte>>>

  /** Bytes still to be delivered plus one for every answer; it shrinks
      with every step of reading a line. */
  function Size(rs: Script): nat {
    if rs == [] then 0
    else (if rs[0].Ok? then |rs[0].value| else 0) + 1 + Size(rs[1..])
  }

  lemma SizeFront(a: Script, b: Script)
    requires |a| <= 1
    ensures Size(a + b) == Size(a) + Size(b)
  {
    if a == [] {
      assert a + b == b;
    } else {
      assert (a + b)[0] == a[0] && (a + b)[1..] == b && a[1..] == [];
    }
  }

  /** What one `read_until(b'\n')` gives, and the answers still to come. */
  datatype LineRead = LineRead(got: IoResult<seq<byte>>, rest: Script)

  /** `read_until(b'\n')` through the buffer: bytes are taken up to and
      including the first `\n`, and the rest of that answer stays pending;
      an empty answer ends the stream and with it the chunk; a read
      interrupted by a signal is retried; any other error is reported and
      the bytes gathered so far are lost. */
  function ReadUntil(rs: Script): (r: LineRead)
    ensures Size(r.rest) <= Size(rs)
    ensures r.got.Ok? ==> Size(r.rest) + |r.got.value| <= Size(rs)
    ensures r.got.Err? ==> Size(r.rest) < Size(rs)
    ensures r.got.Ok? && r.got.value == [] && rs != [] ==> Size(r.rest) < Size(rs)
  {
    if rs == [] then LineRead(Ok([]), [])
    else match rs[0]
      case Err(e) =>
        if e.kind == Interrupted then ReadUntil(rs[1..]) else LineRead(Err(e), rs[1..])
      case Ok(d) =>
        if d == [] then LineRead(Ok([]), rs[1..])
        else
          var i := IndexOf(d, LF);
          if i < |d| then
            var pending: Script := if i + 1 < |d| then [Ok(d[i + 1..])] else [];
            SizeFront(pending, rs[1..]);
            LineRead(Ok(d[..i + 1]), pending + rs[1..])
          else
            var more := ReadUntil(rs[1..]);
            match more.got
            case Err(e) => LineRead(Err(e), more.rest)
            case Ok(m) => LineRead(Ok(d + m), more.rest)
  }

  /** The results `lines` yields from a stream with the answers `rs`: one
      per chunk, the error of a failed read in place of the line it
      interrupted, and nothing more once a read finds the stream at its
      end. */
  function StreamLines(rs: Script): (r: seq<IoResult<seq<byte>>>)
    ensures |r| <= Size(rs)
    decreases Size(rs)
  {
    var r := ReadUntil(rs);
    match r.got
    case Err(e) => [Err(e)] + StreamLines(r.rest)
    case Ok(b) => if b == [] then [] else [ChunkResult(b)] + StreamLines(r.rest)
  }

  /** Answers that all deliver bytes. */
  predicate Plain(rs: Script) {
    forall k | 0 <= k < |rs| :: rs[k].Ok? && rs[k].value != []
  }

  /** Everything the answers deliver, in order. */
  function Flatten(rs: Script): seq<byte>
    requires Plain(rs)
  {
    if rs == [] then [] else rs[0].value + Flatten(rs[1..])
  }

  /** The chunk `read_line` takes from the front of `s`. */
  function FirstChunk(s: seq<byte>): (c: seq<byte>)
    ensures |c| <= |s|
  {
    var i := IndexOf(s, LF);
    if i < |s| then s[..i + 1] else s
  }

  lemma {:induction false} IndexOfAfter(a: seq<byte>, b: seq<byte>)
    requires IndexOf(a, LF) == |a|
    ensures IndexOf(a + b, LF) == |a| + IndexOf(b, LF)
    decreases |a|
  {
    if a != [] {
      assert (a + b)[1..] == a[1..] + b;
      IndexOfAfter(a[1..], b);
    } else {
      assert a + b == b;
    }
  }

  lemma IndexOfWithin(a: seq<byte>, b: seq<byte>)
    requires IndexOf(a, LF) < |a|
    ensures IndexOf(a + b, LF) == IndexOf(a, LF)
  {
    var i := IndexOf(a, LF);
    assert (a + b)[i] == LF;
  }

  lemma PlainTail(rs: Script)
    requires Plain(rs) && rs != []
    ensures Plain(rs[1..]) && Flatten(rs) == rs[0].value + Flatten(rs[1..])
  {
  }

  /** The chunk when the first answer holds a `\n`. */
  lemma FirstChunkWithin(rs: Script)
    requires Plain(rs) && rs != [] && IndexOf(rs[0].value, LF) < |rs[0].value|
    ensures var d := rs[0].value; var i := IndexOf(d, LF);
            FirstChunk(Flatten(rs)) == d[..i + 1] && Flatten(rs)[i + 1..] == d[i + 1..] + Flatten(rs[1..])
  {
    var d := rs[0].value;
    PlainTail(rs);
    IndexOfWithin(d, Flatten(rs[1..]));
  }

  /** The chunk of `d + s` when `d` holds no `\n`: all of `d` and then the
      chunk of `s`, with the same bytes left after it. */
  lemma ChunkAcross(d: seq<byte>, s: seq<byte>)
    requires IndexOf(d, LF) == |d|
    ensures FirstChunk(d + s) == d + FirstChunk(s)
    ensures (d + s)[|FirstChunk(d + s)|..] == s[|FirstChunk(s)|..]
  {
    IndexOfAfter(d, s);
    var i := IndexOf(s, LF);
    if i < |s| {
      TakeAfter(d, s, i + 1);
    } else {
      assert FirstChunk(d + s) == d + s;
    }
  }

  lemma TakeAfter(d: seq<byte>, s: seq<byte>, n: nat)
    requires n <= |s|
    ensures (d + s)[..|d| + n] == d + s[..n]
    ensures (d + s)[|d| + n..] == s[n..]
  {
  }

  /** On answers that all deliver bytes, `read_until` takes the first chunk
      of everything they deliver and leaves answers that deliver the rest. */
  lemma {:induction false} ReadUntilPlain(rs: Script)
    requires Plain(rs)
    ensures var r := ReadUntil(rs);
            && r.got == Ok(FirstChunk(Flatten(rs)))
            && Plain(r.rest)
            && Flatten(r.rest) == Flatten(rs)[|FirstChunk(Flatten(rs))|..]
    decreases |rs|
  {
    if rs != [] {
      var d := rs[0].value;
      var i := IndexOf(d, LF);
      PlainTail(rs);
      if i < |d| {
        FirstChunkWithin(rs);
        var pending: Script := if i + 1 < |d| then [Ok(d[i + 1..])] else [];
        assert ReadUntil(rs).rest == pending + rs[1..];
        PlainJoin(pending, rs[1..]);
      } else {
        ReadUntilPlain(rs[1..]);
        ChunkAcross(d, Flatten(rs[1..]));
      }
    }
  }

  lemma PlainJoin(a: Script, b: Script)
    requires Plain(a) && Plain(b) && |a| <= 1
    ensures Plain(a + b) && Flatten(a + b) == Flatten(a) + Flatten(b)
  {
    if a == [] {
      assert a + b == b;
    } else {
      assert forall k | 1 <= k < |a + b| :: (a + b)[k] == b[k - 1];
      assert (a + b)[1..] == b && a[1..] == [];
      assert Flatten(a) == a[0].value + [];
    }
  }

  /** Reading lines from a stream that never fails and never ends early
      gives the lines of everything it delivers. */
  lemma {:induction false} StreamLinesPlain(rs: Script)
    requires Plain(rs)
    ensures StreamLines(rs) == ReadLines(Flatten(rs))
    decreases Size(rs)
  {
    var s := Flatten(rs);
    ReadUntilPlain(rs);
    var r := ReadUntil(rs);
    if rs != [] {
      assert s != [] by { PlainTail(rs); }
      var c := FirstChunk(s);
      StreamLinesPlain(r.rest);
      assert ReadLines(s) == [ChunkResult(c)] + ReadLines(s[|c|..]);
    }
  }

  /** A read that fails in the middle of a line: the bytes of that line
      read so far are lost, the error takes the line's place, and reading
      goes on with the answers after the failed one. */
  lemma {:induction false} ReadUntilLost(rs: Script, e: IoError, more: Script)
    requires Plain(rs) && IndexOf(Flatten(rs), LF) == |Flatten(rs)|
    requires e.kind != Interrupted
    ensures ReadUntil(rs + [Err(e)] + more) == LineRead(Err(e), more)
    decreases |rs|
  {
    var t := rs + [Err(e)] + more;
    if rs == [] {
      assert t == [Err(e)] + more;
    } else {
      PlainTail(rs);
      var d := rs[0].value;
      assert IndexOf(d, LF) == |d| by {
        if IndexOf(d, LF) < |d| {
          IndexOfWithin(d, Flatten(rs[1..]));
        }
      }
      IndexOfAfter(d, Flatten(rs[1..]));
      assert t[0] == Ok(d) && t[1..] == rs[1..] + [Err(e)] + more;
      ReadUntilLost(rs[1..], e, more);
    }
  }

  /** So the lines of such a stream go on after the error as the lines of
      the answers that follow it. */
  lemma StreamLinesLost(rs: Script, e: IoError, more: Script)
    requires Plain(rs) && IndexOf(Flatten(rs), LF) == |Flatten(rs)|
    requires e.kind != Interrupted
    ensures StreamLines(rs + [Err(e)] + more) == [Err(e)] + StreamLines(more)
  {
    ReadUntilLost(rs, e, more);
  }

  /** The lines `BufReader::new(r).lines()` yields for a reader `r`: those
      of its unread bytes for a memory reader, those of the answers its
      handle will give otherwise. */
  function ReaderLines(r: Reader): (lines: seq<IoResult<seq<byte>>>)
    reads r.Resource()
    ensures r.source.Memory? ==> |lines| <= |r.source.cursor.Unread()|
    ensures !r.source.Memory? ==> |lines| <= Size(r.source.input.replies)
  {
    match r.source
    case Memory(c) => ReadLines(c.Unread())
    case Stdin(h) => StreamLines(h.replies)
    case File(h) => StreamLines(h.replies)
  }

  /** `BufReader`'s default capacity, 8 KiB: the room of every read it
      makes. */
  const DefaultCapacity: nat := 8192

  lemma {:induction false} FlattenSnoc(rs: Script, d: seq<byte>)
    requires Plain(rs) && d != []
    ensures Plain(rs + [Ok(d)]) && Flatten(rs + [Ok(d)]) == Flatten(rs) + d
    decreases |rs|
  {
    var t := rs + [Ok(d)];
    assert forall k | 0 <= k < |t| :: t[k] == if k < |rs| then rs[k] else Ok(d);
    if rs == [] {
      assert t == [Ok(d)] && t[1..] == [];
    } else {
      assert t[1..] == rs[1..] + [Ok(d)];
      FlattenSnoc(rs[1..], d);
    }
  }

  /** The reads `BufReader` makes of a memory reader, through `Read::read`
      into a buffer of `room` bytes, until one delivers nothing: the
      answers deliver all the unread bytes, in order, and leave none. */
  method DrainMemory(r: Reader, room: nat) returns (answers: Script)
    requires r.source.Memory? && room > 0
    modifies r.Resource()
    ensures Plain(answers) && Flatten(answers) == old(r.source.cursor.Unread())
    ensures r.source.cursor.Unread() == []
  {
    var c := r.source.cursor;
    var buf := new byte[room];
    answers := [];
    var got := r.Read(buf);
    while got != Ok(0)
      invariant Plain(answers)
      invariant got.Ok? && 0 <= got.value <= buf.Length
                && Flatten(answers) + buf[..got.value] + c.Unread() == old(c.Unread())
      invariant got.value == 0 ==> c.Unread() == []
      decreases |c.Unread()| + got.value
    {
      FlattenSnoc(answers, buf[..got.value]);
      answers := answers + [Ok(buf[..got.value])];
      got := r.Read(buf);
    }
  }

  /** `BufReader::with_capacity(room, r).lines()` on a memory reader: the
      lines read through those reads are the lines of its unread bytes. */
  method ReadMemoryLines(r: Reader, room: nat) returns (lines: seq<IoResult<seq<byte>>>)
    requires r.source.Memory? && room > 0
    modifies r.Resource()
    ensures lines == old(ReadLines(r.source.cursor.Unread()))
    ensures lines == old(ReaderLines(r))
  {
    var answers := DrainMemory(r, room);
    lines := StreamLines(answers);
    StreamLinesPlain(answers);
  }
}
