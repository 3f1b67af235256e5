/** The repository's own tests of the memory reader and the memory writer
    of src/lib.rs (repeated for the enum in crates/rw/src/enum.rs), as
    facts about the model: the four lines of the test text are read back
    one by one, and writing them one after the other shows that text. */
module Scenarios {
  import opened Bytes
  import opened Io
  import opened Lines
  import opened Streams
  import opened BufferedLines

  // "Hallo "
  const Hallo: seq<byte> := [0x48, 0x61, 0x6C, 0x6C, 0x6F, 0x20]
  // "allemaal"
  const Allemaal: seq<byte> := [0x61, 0x6C, 0x6C, 0x65, 0x6D, 0x61, 0x61, 0x6C]
  // "Paul"
  const Paul: seq<byte> := [0x50, 0x61, 0x75, 0x6C]
  // "Wat fijn dat "
  const WatFijnDat: seq<byte> := [0x57, 0x61, 0x74, 0x20, 0x66, 0x69, 0x6A, 0x6E, 0x20, 0x64, 0x61, 0x74, 0x20]
  // "u er bent"
  const UErBent: seq<byte> := [0x75, 0x20, 0x65, 0x72, 0x20, 0x62, 0x65, 0x6E, 0x74]
  // "jij er bent"
  const JijErBent: seq<byte> := [0x6A, 0x69, 0x6A, 0x20, 0x65, 0x72, 0x20, 0x62, 0x65, 0x6E, 0x74]

  const HalloAllemaal: seq<byte> := Hallo + Allemaal
  const WatFijnU: seq<byte> := WatFijnDat + UErBent
  const HalloPaul: seq<byte> := Hallo + Paul
  const WatFijnJij: seq<byte> := WatFijnDat + JijErBent

  /** The lines of the test text, in order. */
  const TestLines: seq<seq<byte>> := [HalloAllemaal, WatFijnU, HalloPaul, WatFijnJij]

  /** ASCII with neither `\n` nor `\r` from index `i` on, checked byte by
      byte. */
  predicate PlainFrom(s: seq<byte>, i: nat)
    decreases |s| - i
  {
    i >= |s| || (s[i] < 0x80 && s[i] != LF && s[i] != CR && PlainFrom(s, i + 1))
  }

  lemma {:induction false} PlainFromEach(s: seq<byte>, i: nat)
    requires PlainFrom(s, i)
    ensures forall j | i <= j < |s| :: s[j] < 0x80 && s[j] != LF && s[j] != CR
    decreases |s| - i
  {
    if i < |s| {
      PlainFromEach(s, i + 1);
    }
  }

  /** Two runs of such bytes make a line, and an ASCII one, also with a
      `\n` after. */
  lemma PlainLine(a: seq<byte>, b: seq<byte>)
    requires PlainFrom(a, 0) && PlainFrom(b, 0)
    ensures IsLine(a + b) && IsAscii(a + b) && IsAscii(a + b + [LF])
  {
    PlainFromEach(a, 0);
    PlainFromEach(b, 0);
  }

  lemma HalloPlain() ensures PlainFrom(Hallo, 0) {}
  lemma AllemaalPlain() ensures PlainFrom(Allemaal, 0) {}
  lemma PaulPlain() ensures PlainFrom(Paul, 0) {}
  lemma WatFijnDatPlain() ensures PlainFrom(WatFijnDat, 0) {}
  lemma UErBentPlain() ensures PlainFrom(UErBent, 0) {}
  lemma JijErBentPlain() ensures PlainFrom(JijErBent, 0) {}

  /** Each test line is an ASCII line, also with a `\n` after it. */
  lemma TestLinesPlain()
    ensures IsLine(HalloAllemaal) && IsAscii(HalloAllemaal) && IsAscii(HalloAllemaal + [LF])
    ensures IsLine(WatFijnU) && IsAscii(WatFijnU) && IsAscii(WatFijnU + [LF])
    ensures IsLine(HalloPaul) && IsAscii(HalloPaul) && IsAscii(HalloPaul + [LF])
    ensures IsLine(WatFijnJij) && IsAscii(WatFijnJij)
  {
    HalloPlain();
    AllemaalPlain();
    PaulPlain();
    WatFijnDatPlain();
    UErBentPlain();
    JijErBentPlain();
    PlainLine(Hallo, Allemaal);
    PlainLine(WatFijnDat, UErBent);
    PlainLine(Hallo, Paul);
    PlainLine(WatFijnDat, JijErBent);
  }

  lemma {:induction false} JoinAscii(ls: seq<seq<byte>>)
    requires forall k | 0 <= k < |ls| :: IsAscii(ls[k])
    ensures IsAscii(JoinLines(ls))
  {
    if |ls| > 1 {
      JoinAscii(ls[1..]);
      assert JoinLines(ls) == ls[0] + [LF] + JoinLines(ls[1..]);
    }
  }

  /** The four test lines are lines, and joining them gives ASCII text. */
  lemma TestLinesFacts()
    ensures AllLines(TestLines)
    ensures forall k | 0 <= k < |TestLines| :: IsAscii(TestLines[k])
    ensures IsAscii(JoinLines(TestLines))
  {
    TestLinesPlain();
    AllLinesEach(TestLines);
    JoinAscii(TestLines);
  }

  /** `TEST_STRING`: the four lines, with a `\n` between each two and none
      at the end. */
  function TestString(): Str {
    TestLinesFacts();
    AsciiText(JoinLines(TestLines))
  }

  /** An ASCII line, its `\n` and more text read as the line and then
      the lines of the rest. */
  lemma ReadAsciiLineThen(l: seq<byte>, rest: seq<byte>, later: seq<IoResult<seq<byte>>>)
    requires IsLine(l) && IsAscii(l) && ReadLines(rest) == later
    ensures ReadLines(l + [LF] + rest) == [Ok(l)] + later
  {
    AsciiValid(l);
    ReadLineThen(l, rest);
  }

  /** Four ASCII lines joined with `\n`, the last not empty, read back as
      the four lines, each as text. */
  lemma ReadFourLines(w: seq<byte>, x: seq<byte>, y: seq<byte>, z: seq<byte>)
    requires IsLine(w) && IsLine(x) && IsLine(y) && IsLine(z) && z != []
    requires IsAscii(w) && IsAscii(x) && IsAscii(y) && IsAscii(z)
    ensures ReadLines(JoinLines([w, x, y, z])) == [Ok(w), Ok(x), Ok(y), Ok(z)]
  {
    JoinFour(w, x, y, z);
    AsciiValid(z);
    ReadLastLine(z);
    var last: seq<IoResult<seq<byte>>> := [Ok(z)];
    ReadAsciiLineThen(y, z, last);
    ReadAsciiLineThen(x, y + [LF] + z, [Ok(y)] + last);
    ReadAsciiLineThen(w, x + [LF] + (y + [LF] + z), [Ok(x)] + ([Ok(y)] + last));
    ConsFour<IoResult<seq<byte>>>(Ok(w), Ok(x), Ok(y), Ok(z));
  }

  lemma ConsFour<T>(a: T, b: T, c: T, d: T)
    ensures [a] + ([b] + ([c] + [d])) == [a, b, c, d]
  {
  }

  /** Reading the test text line by line gives the four lines, each as
      text. */
  lemma ReadTestString()
    ensures ReadLines(TestString()) == [Ok(HalloAllemaal), Ok(WatFijnU), Ok(HalloPaul), Ok(WatFijnJij)]
  {
    TestLinesFacts();
    ReadFourLines(HalloAllemaal, WatFijnU, HalloPaul, WatFijnJij);
  }

  /** `memory_reader`: the lines of `BufReader::new(Reader::memory(Some(
      TEST_STRING)))`, read through the reader's `read`, are its four lines,
      and each is `Ok`. */
  method MemoryReader() returns (lines: seq<IoResult<seq<byte>>>)
    ensures lines == [Ok(HalloAllemaal), Ok(WatFijnU), Ok(HalloPaul), Ok(WatFijnJij)]
  {
    var created := Reader.Memory(Some(TestString()));
    var r := created.value;
    assert r.source.cursor.Unread() == TestString();
    lines := ReadMemoryLines(r, DefaultCapacity);
    ReadTestString();
  }

  lemma ConcatFour(a: Str, b: Str, c: Str, d: Str)
    ensures Concat([a, b, c, d]) == a + b + c + d
  {
    assert [a][..0] == [] && Concat([a]) == a;
    assert [a, b][..1] == [a] && Concat([a, b]) == a + b;
    assert [a, b, c][..2] == [a, b] && Concat([a, b, c]) == a + b + c;
    assert [a, b, c, d][..3] == [a, b, c];
  }

  lemma JoinFour(w: seq<byte>, x: seq<byte>, y: seq<byte>, z: seq<byte>)
    ensures JoinLines([w, x, y, z]) == w + [LF] + (x + [LF] + (y + [LF] + z))
  {
    assert JoinLines([z]) == z;
    assert [y, z][1..] == [z] && JoinLines([y, z]) == y + [LF] + z;
    assert [x, y, z][1..] == [y, z] && JoinLines([x, y, z]) == x + [LF] + (y + [LF] + z);
    assert [w, x, y, z][1..] == [x, y, z];
  }

  lemma Regroup(w: seq<byte>, x: seq<byte>, y: seq<byte>, z: seq<byte>)
    ensures (w + [LF]) + (x + [LF]) + (y + [LF]) + z == w + [LF] + (x + [LF] + (y + [LF] + z))
  {
  }

  /** `write_to_buffer`: writing the four lines, each but the last with its
      `\n`, to `Writer::memory()`, then flushing it, shows `TEST_STRING`,
      with either revision of `show_buffer`. */
  method WriteToBuffer(orNotFound: bool) returns (shown: IoResult<Str>)
    ensures shown == Ok(TestString())
  {
    TestLinesPlain();
    var parts := [AsciiText(HalloAllemaal + [LF]), AsciiText(WatFijnU + [LF]),
                  AsciiText(HalloPaul + [LF]), AsciiText(WatFijnJij)];
    shown := WriteThenShow(parts, orNotFound);
    ConcatFour(parts[0], parts[1], parts[2], parts[3]);
    JoinFour(HalloAllemaal, WatFijnU, HalloPaul, WatFijnJij);
    Regroup(HalloAllemaal, WatFijnU, HalloPaul, WatFijnJij);
  }
}
