/** `BufRead::lines` over a stream, taken as the whole sequence of bytes the
    stream delivers. Each line is read up to and including its `\n` (or to
    the end of the stream for a last line without one) and checked for UTF-8
    on its own; its text leaves out the `\n` and a `\r` right before it. */
module Lines {
  import opened Bytes
  import opened Io

  /** The index of the first `x` in `s`, or `|s|` when there is none. */
  function IndexOf(s: seq<byte>, x: byte): (i: nat)
    ensures i <= |s|
    ensures i < |s| ==> s[i] == x
    ensures forall j | 0 <= j < i :: s[j] != x
  {
    if s == [] then 0
    else if s[0] == x then 0
    else 1 + IndexOf(s[1..], x)
  }

  /** The text `lines` gives for one chunk read by `read_line`. */
  function LineText(chunk: seq<byte>): (t: seq<byte>)
    ensures |t| <= |chunk| && t == chunk[..|t|] && |chunk| <= |t| + 2
    ensures |chunk| > 0 && chunk[|chunk| - 1] == LF ==> |t| < |chunk|
    ensures |chunk| == 0 || chunk[|chunk| - 1] != LF ==> t == chunk
  {
    if |chunk| > 0 && chunk[|chunk| - 1] == LF then
      var body := chunk[..|chunk| - 1];
      if |body| > 0 && body[|body| - 1] == CR then body[..|body| - 1] else body
    else chunk
  }

  /** The results `lines` yields, in order, for a stream that delivers `s`:
      one per chunk, the last chunk yielded even without a `\n`. */
  function ReadLines(s: seq<byte>): (r: seq<IoResult<seq<byte>>>)
    ensures |r| <= |s|
    ensures s != [] ==> |r| > 0
    decreases |s|
  {
    if s == [] then []
    else
      var i := IndexOf(s, LF);
      var chunk := if i < |s| then s[..i + 1] else s;
      [ChunkResult(chunk)] + ReadLines(s[|chunk|..])
  }

  /** What `lines` yields for one chunk: its text when the chunk is UTF-8,
      the error `read_line` reports otherwise. */
  function ChunkResult(chunk: seq<byte>): IoResult<seq<byte>> {
    if ValidUtf8(chunk) then Ok(LineText(chunk)) else Err(InvalidUtf8Error())
  }

  /** A line as `lines` can yield it: no `\n` inside and no `\r` at its end. */
  predicate IsLine(l: seq<byte>) {
    (forall j | 0 <= j < |l| :: l[j] != LF) && (|l| > 0 ==> l[|l| - 1] != CR)
  }

  /** Every one of `ls` is a line. */
  predicate AllLines(ls: seq<seq<byte>>) {
    ls == [] || (IsLine(ls[0]) && AllLines(ls[1..]))
  }

  lemma {:induction false} AllLinesEach(ls: seq<seq<byte>>)
    ensures AllLines(ls) <==> forall k | 0 <= k < |ls| :: IsLine(ls[k])
  {
    if ls != [] {
      AllLinesEach(ls[1..]);
      assert forall k | 1 <= k < |ls| :: ls[1..][k - 1] == ls[k];
    }
  }

  /** Lines put together with a `\n` between each two. */
  function JoinLines(ls: seq<seq<byte>>): seq<byte> {
    if |ls| == 0 then []
    else if |ls| == 1 then ls[0]
    else ls[0] + [LF] + JoinLines(ls[1..])
  }

  /** The bytes of a line followed by `\n` are UTF-8 exactly when the line is. */
  lemma TerminatedValid(l: seq<byte>)
    requires forall j | 0 <= j < |l| :: l[j] != LF
    ensures ValidUtf8(l + [LF]) <==> ValidUtf8(l)
  {
    var t := l + [LF];
    if ValidUtf8(t) {
      ValidBeforeAscii(t, |l|);
      assert t[..|l|] == l;
    }
    if ValidUtf8(l) {
      AsciiValid([LF]);
      ValidConcat(l, [LF]);
    }
  }

  /** Reading a line, its `\n` and then more: the line's own result comes
      first. */
  lemma ReadLineThen(l: seq<byte>, rest: seq<byte>)
    requires IsLine(l)
    ensures ReadLines(l + [LF] + rest) == [DecodeText(l)] + ReadLines(rest)
  {
    var s := l + [LF] + rest;
    assert IndexOf(s, LF) == |l| && s[..|l| + 1] == l + [LF] && s[|l| + 1..] == rest by {
      assert forall j | 0 <= j < |l| :: s[j] == l[j];
      assert s[|l|] == LF;
    }
    ReadLinesStep(s, |l|);
    ChunkOfLine(l);
  }

  /** The chunk `read_line` gives for a line and its `\n`. */
  lemma ChunkOfLine(l: seq<byte>)
    requires IsLine(l)
    ensures ChunkResult(l + [LF]) == DecodeText(l)
  {
    TerminatedValid(l);
    if ValidUtf8(l) {
      assert (l + [LF])[..|l|] == l;
    }
  }

  /** Reading a last line that has no `\n`. */
  lemma ReadLastLine(l: seq<byte>)
    requires IsLine(l) && l != []
    ensures ReadLines(l) == [DecodeText(l)]
  {
    assert IndexOf(l, LF) == |l|;
    assert l[|l|..] == [];
  }

  /** Leaving out a final `\n` and a `\r` before it keeps text well-formed. */
  lemma LineTextValid(chunk: seq<byte>)
    requires ValidUtf8(chunk)
    ensures ValidUtf8(LineText(chunk))
  {
    if |chunk| > 0 && chunk[|chunk| - 1] == LF {
      var body := chunk[..|chunk| - 1];
      ValidBeforeAscii(chunk, |chunk| - 1);
      if |body| > 0 && body[|body| - 1] == CR {
        ValidBeforeAscii(body, |body| - 1);
      }
    }
  }

  /** Every success among `rs` holds well-formed text. */
  predicate AllText(rs: seq<IoResult<seq<byte>>>) {
    forall k | 0 <= k < |rs| && rs[k].Ok? :: ValidUtf8(rs[k].value)
  }

  lemma ChunkResultText(chunk: seq<byte>)
    ensures AllText([ChunkResult(chunk)])
  {
    if ValidUtf8(chunk) {
      LineTextValid(chunk);
    }
  }

  lemma AllTextCons(r: seq<IoResult<seq<byte>>>, rs: seq<IoResult<seq<byte>>>)
    requires AllText(r) && AllText(rs)
    ensures AllText(r + rs)
  {
    assert forall k | |r| <= k < |r + rs| :: (r + rs)[k] == rs[k - |r|];
  }

  /** Every line `lines` yields is a `String`: well-formed UTF-8. */
  lemma {:induction false} ReadLinesText(s: seq<byte>)
    ensures AllText(ReadLines(s))
    decreases |s|
  {
    if s != [] {
      var i := IndexOf(s, LF);
      if i < |s| {
        ReadLinesStep(s, i);
        ReadLinesText(s[i + 1..]);
        ChunkResultText(s[..i + 1]);
        AllTextCons([ChunkResult(s[..i + 1])], ReadLines(s[i + 1..]));
      } else {
        ReadLinesLast(s);
        ChunkResultText(s);
      }
    }
  }

  /** What reading each line on its own as text gives, in order. */
  function DecodeEach(ls: seq<seq<byte>>): (rs: seq<IoResult<seq<byte>>>)
    ensures |rs| == |ls|
  {
    if ls == [] then [] else [DecodeText(ls[0])] + DecodeEach(ls[1..])
  }

  /** The `k`-th result is the `k`-th line read as text. */
  lemma {:induction false} DecodeEachIndex(ls: seq<seq<byte>>)
    ensures |DecodeEach(ls)| == |ls|
    ensures forall k | 0 <= k < |ls| :: DecodeEach(ls)[k] == DecodeText(ls[k])
  {
    if ls != [] {
      DecodeEachIndex(ls[1..]);
    }
  }

  lemma ReadOneJoined(ls: seq<seq<byte>>)
    requires |ls| == 1 && IsLine(ls[0]) && ls[0] != []
    ensures ReadLines(JoinLines(ls)) == DecodeEach(ls)
  {
    ReadLastLine(ls[0]);
    assert DecodeEach(ls[1..]) == [];
  }

  lemma ReadFirstJoined(ls: seq<seq<byte>>)
    requires |ls| > 1 && IsLine(ls[0])
    requires ReadLines(JoinLines(ls[1..])) == DecodeEach(ls[1..])
    ensures ReadLines(JoinLines(ls)) == DecodeEach(ls)
  {
    assert JoinLines(ls) == ls[0] + [LF] + JoinLines(ls[1..]);
    ReadLineThen(ls[0], JoinLines(ls[1..]));
  }

  /** Reading lines put together with `\n` yields each of them in order,
      the last one too though it has no `\n`; a line that is not UTF-8
      yields an error in its own place and does not disturb the others. */
  lemma {:induction false} ReadJoinedLines(ls: seq<seq<byte>>)
    requires AllLines(ls)
    requires |ls| > 0 ==> |ls[|ls| - 1]| > 0
    ensures ReadLines(JoinLines(ls)) == DecodeEach(ls)
  {
    if |ls| == 1 {
      ReadOneJoined(ls);
    } else if |ls| > 1 {
      ReadJoinedLines(ls[1..]);
      ReadFirstJoined(ls);
    }
  }

  /** One step of `lines` on a stream whose first `\n` is at `i`. */
  lemma ReadLinesStep(s: seq<byte>, i: nat)
    requires i == IndexOf(s, LF) && i < |s|
    ensures ReadLines(s) == [ChunkResult(s[..i + 1])] + ReadLines(s[i + 1..])
  {
  }

  /** The last step of `lines`: a non-empty stream without `\n`. */
  lemma ReadLinesLast(s: seq<byte>)
    requires s != [] && IndexOf(s, LF) == |s|
    ensures ReadLines(s) == [ChunkResult(s)]
  {
    assert s[|s|..] == [];
    assert ReadLines(s) == [ChunkResult(s)] + ReadLines([]);
  }

  lemma SplitAround(s: seq<byte>, i: nat)
    requires i < |s| && s[i] == LF
    ensures s == s[..i] + [LF] + s[i + 1..]
  {
  }

  lemma JoinLinesCons(l: seq<byte>, tail: seq<seq<byte>>)
    requires tail != []
    ensures JoinLines([l] + tail) == l + [LF] + JoinLines(tail)
  {
    assert ([l] + tail)[1..] == tail;
  }

  lemma OkValuesCons(l: seq<byte>, tail: seq<IoResult<seq<byte>>>)
    requires AllOk(tail)
    ensures AllOk([Ok(l)] + tail)
    ensures OkValues([Ok(l)] + tail) == [l] + OkValues(tail)
  {
    assert ([Ok(l)] + tail)[1..] == tail;
  }

  /** What follows the text of the lines when they are put back together. */
  function FinalNewline(s: seq<byte>): seq<byte> {
    if |s| > 0 && s[|s| - 1] == LF then [LF] else []
  }

  /** Putting a first line back in front of lines that rejoin to `rest`. */
  lemma RejoinStep(s: seq<byte>, line: seq<byte>, rest: seq<byte>, all: seq<IoResult<seq<byte>>>, tail: seq<IoResult<seq<byte>>>)
    requires s == line + [LF] + rest && all == [Ok(line)] + tail
    requires AllOk(tail)
    requires rest == [] <==> tail == []
    requires JoinLines(OkValues(tail)) + FinalNewline(rest) == rest
    ensures AllOk(all)
    ensures JoinLines(OkValues(all)) + FinalNewline(s) == s
  {
    OkValuesCons(line, tail);
    if rest == [] {
      assert OkValues(all) == [line];
    } else {
      JoinLinesCons(line, OkValues(tail));
      assert s[|s| - 1] == rest[|rest| - 1];
    }
  }

  /** Rejoining when the text is one last line without `\n`. */
  lemma RejoinLast(s: seq<byte>)
    requires ValidUtf8(s) && s != [] && IndexOf(s, LF) == |s|
    ensures AllOk(ReadLines(s))
    ensures JoinLines(OkValues(ReadLines(s))) + FinalNewline(s) == s
  {
    ReadLinesLast(s);
    assert OkValues(ReadLines(s)) == [s];
  }

  /** Reading text whose first `\n` is at `i`, with no `\r` before it: the bytes
      before it are the first line, and reading goes on after it. */
  lemma ReadFirstLine(s: seq<byte>, i: nat)
    requires ValidUtf8(s) && i == IndexOf(s, LF) && i < |s|
    requires i == 0 || s[i - 1] != CR
    ensures s == s[..i] + [LF] + s[i + 1..]
    ensures ReadLines(s) == [Ok(s[..i])] + ReadLines(s[i + 1..])
  {
    var line := s[..i];
    SplitAround(s, i);
    ValidBeforeAscii(s, i);
    assert IsLine(line);
    ReadLineThen(line, s[i + 1..]);
  }

  /** Rejoining a first line with the lines of the rest. */
  lemma RejoinFirst(s: seq<byte>, i: nat)
    requires ValidUtf8(s) && i == IndexOf(s, LF) && i < |s|
    requires i == 0 || s[i - 1] != CR
    requires AllOk(ReadLines(s[i + 1..]))
    requires JoinLines(OkValues(ReadLines(s[i + 1..]))) + FinalNewline(s[i + 1..]) == s[i + 1..]
    ensures AllOk(ReadLines(s))
    ensures JoinLines(OkValues(ReadLines(s))) + FinalNewline(s) == s
  {
    ReadFirstLine(s, i);
    RejoinStep(s, s[..i], s[i + 1..], ReadLines(s), ReadLines(s[i + 1..]));
  }

  /** No `\r` stands right before a `\n`: the only place `lines` strips one. */
  predicate NoCrLf(s: seq<byte>) {
    forall j | 0 <= j < |s| - 1 :: s[j] == CR ==> s[j + 1] != LF
  }

  /** For text with no `\r` right before a `\n`, every line reads
      successfully, and the lines put back together with `\n` (plus the
      final `\n`, if the text ends with one) give back the text. */
  lemma {:induction false} ReadLinesRejoin(s: seq<byte>)
    requires ValidUtf8(s)
    requires NoCrLf(s)
    ensures AllOk(ReadLines(s))
    ensures JoinLines(OkValues(ReadLines(s))) + FinalNewline(s) == s
    decreases |s|
  {
    if s != [] {
      var i := IndexOf(s, LF);
      if i == |s| {
        RejoinLast(s);
      } else {
        ValidAfterAscii(s, i);
        assert i == 0 || s[i - 1] != CR;
        var t := s[i + 1..];
        assert NoCrLf(t) by {
          forall j | 0 <= j < |t| - 1 && t[j] == CR
            ensures t[j + 1] != LF
          {
            assert t[j] == s[i + 1 + j] && t[j + 1] == s[i + 1 + j + 1];
          }
        }
        ReadLinesRejoin(t);
        RejoinFirst(s, i);
      }
    }
  }
}
