/** Standard input, standard output and open files. What the operating system
    answers is outside the model: a handle carries the script of answers it
    will give, one per call, and otherwise only counts what it was handed. */
module OsHandles {
  import opened Bytes
  import opened Io

  /** The next answer of an input handle to a read into a buffer of `room`
      bytes: the bytes delivered (at most `room`, the rest of a longer answer
      stays pending) or the error, and the answers left afterwards. An
      exhausted script reads as the end of the stream. */
  datatype ReadStep = ReadStep(answer: IoResult<seq<byte>>, later: seq<IoResult<seq<byte>>>)

  function NextRead(replies: seq<IoResult<seq<byte>>>, room: nat): (s: ReadStep)
    ensures s.answer.Ok? ==> |s.answer.value| <= room
    ensures replies == [] ==> s == ReadStep(Ok([]), [])
    ensures replies != [] && replies[0].Err? ==> s == ReadStep(replies[0], replies[1..])
  {
    if replies == [] then ReadStep(Ok([]), [])
    else match replies[0]
      case Err(e) => ReadStep(Err(e), replies[1..])
      case Ok(d) =>
        if |d| <= room then ReadStep(Ok(d), replies[1..])
        else ReadStep(Ok(d[..room]), [Ok(d[room..])] + replies[1..])
  }

  /** A handle to standard input or to a file opened for reading. */
  class InputHandle {
    var replies: seq<IoResult<seq<byte>>>

    constructor (replies: seq<IoResult<seq<byte>>>)
      ensures this.replies == replies
    {
      this.replies := replies;
    }

    method Read(buf: array<byte>) returns (r: IoResult<nat>)
      modifies this, buf
      ensures var step := NextRead(old(replies), buf.Length);
        && replies == step.later
        && (step.answer.Err? ==> r == Err(step.answer.error) && buf[..] == old(buf[..]))
        && (step.answer.Ok? ==> r == Ok(|step.answer.value|)
                                && buf[..r.value] == step.answer.value
                                && buf[r.value..] == old(buf[r.value..]))
    {
      var step := NextRead(replies, buf.Length);
      replies := step.later;
      match step.answer
      case Err(e) =>
        r := Err(e);
      case Ok(d) =>
        forall i | 0 <= i < |d| {
          buf[i] := d[i];
        }
        r := Ok(|d|);
    }
  }

  /** A handle to standard output or to a file opened for writing. Each
      write or flush takes the next scripted answer: `Ok(k)` lets a write
      through for at most `k` bytes, `Err(e)` fails the call. Once the script
      is exhausted every call succeeds in full. */
  class OutputHandle {
    var replies: seq<IoResult<nat>>
    var accepted: seq<byte>

    constructor (replies: seq<IoResult<nat>>)
      ensures this.replies == replies && accepted == []
    {
      this.replies := replies;
      accepted := [];
    }

    method Write(b: seq<byte>) returns (r: IoResult<nat>)
      modifies this
      ensures old(replies) == [] ==> r == Ok(|b|) && accepted == old(accepted) + b && replies == []
      ensures old(replies) != [] ==> replies == old(replies)[1..]
      ensures old(replies) != [] && old(replies)[0].Err? ==>
                r == old(replies)[0] && accepted == old(accepted)
      ensures old(replies) != [] && old(replies)[0].Ok? ==>
                var k := if old(replies)[0].value < |b| then old(replies)[0].value else |b|;
                r == Ok(k) && accepted == old(accepted) + b[..k]
    {
      if replies == [] {
        accepted := accepted + b;
        r := Ok(|b|);
      } else {
        var answer := replies[0];
        replies := replies[1..];
        match answer
        case Err(e) =>
          r := Err(e);
        case Ok(room) =>
          var k := if room < |b| then room else |b|;
          accepted := accepted + b[..k];
          r := Ok(k);
      }
    }

    method Flush() returns (r: IoResult<()>)
      modifies this`replies
      ensures old(replies) == [] ==> r == Ok(()) && replies == []
      ensures old(replies) != [] ==> replies == old(replies)[1..]
      ensures old(replies) != [] ==> r == if old(replies)[0].Err? then Err(old(replies)[0].error) else Ok(())
    {
      if replies == [] {
        r := Ok(());
      } else {
        var answer := replies[0];
        replies := replies[1..];
        r := if answer.Err? then Err(answer.error) else Ok(());
      }
    }
  }
}
