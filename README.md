# rw: readers, writers and line errors, modelled in Dafny

The `rw` repository wraps the standard streams of a Rust program. A
`Reader` reads from standard input, a file or an in-memory buffer. A `Writer`
writes to standard output, a file or an in-memory buffer. Both come as
enums (`src/lib.rs`, `crates/rw/src/enum.rs`) and as generic wrappers
(`crates/rw/src/generic.rs`). A `LineError` pairs an I/O error with the
number of the line it happened on, and it renders in two ways. Two small
programs (`crates/example/src/main.rs`, `examples/01.rs`) read the file
named after `-f`/`--file`, or standard input. They hand every line to a
callback and stop at the first line that cannot be read.

This project models that core:

- **Text and bytes**, in `bytes.dfy`. A Rust `String` is its UTF-8 bytes:
  `Str` is a byte sequence that is well-formed UTF-8 in the sense of
  RFC 3629.
- **I/O results**, in `io.dfy`. An `io::Error` is its kind, the message it
  displays and an opaque source. `read_to_string`'s check of the bytes as
  text is `DecodeText`.
- **`std::io::Cursor<Vec<u8>>`**, in `cursor.dfy`. It is a class with a
  buffer and a position, and every in-memory stream uses it. A read copies
  from the position and moves past what it copied. A write overwrites at
  the position, pads a gap with zeros and grows the buffer.
- **Operating-system handles**, in `os_handles.dfy`. Standard input,
  standard output and files are handles that answer from a script, one
  answer per call.
- **The `Reader`/`Writer` enums**, in `streams.dfy`. The variant is a
  `const` field, so no operation can change it. Every operation is
  dispatched to the active variant and may modify only that variant's
  resource. `show_buffer` has two versions: `src/lib.rs` answers `Ok("")`
  for a writer without a buffer, and `crates/rw/src/enum.rs` answers a
  `NotFound` "no buffer" error.
- **`BufRead::lines`**, in `lines.dfy` and `buffered.dfy`:
  - over all the bytes of a stream, as `ReadLines`;
  - over a stream that answers one read at a time, as `StreamLines`. A
    line can span reads, and a failed read yields its error in place of the
    line it interrupted. An empty read ends the stream, and an interrupted
    read is retried.
- **`LineError`**, in `line_error.dfy`: `Display`, `Debug`, `source`,
  `cause` and `error_line`. A parser reads a `Display` rendering back.
- **`process_lines`, `args_argument`, `parse_args` and both `main`s**, in
  `process.dfy`. The callback's effect is recorded as the sequence of lines
  it was called with.
- **The generic `Reader<R>`/`Writer<W>`**, in `generic.rs`, modelled in
  `generic.dfy`. It includes `read_to_string` as the probe-and-loop that
  `std` runs over `read`.
- **The repository's tests of the memory streams**, in `scenarios.dfy`.

Three points where the code's behaviour is easy to misread:

- `LineError::source` returns the source of the wrapped I/O error
  (`self.error.source()`), not the wrapped error itself.
- `lines` removes a final `\n` and also a `\r` just before it, as `std` does.
- The two revisions of `show_buffer` disagree about writers without a
  buffer. Both are modelled.

## Model

| member | source | states |
|---|---|---|
| `Io.DecodeText` | src/lib.rs:66 | reading bytes as a `String` succeeds exactly when they are well-formed UTF-8, and then gives those same bytes; otherwise it fails with the `InvalidData` error "stream did not contain valid UTF-8" |
| `Cursors.Overwrite` | src/lib.rs:78 | a cursor write at `p` leaves the buffer `max(len, p + |b|)` long, with `b` at `p..p+|b|`, the old bytes elsewhere and zeros in any gap past the old end |
| `Cursors.OverwriteAtEnd` | src/lib.rs:78 | writing at the end of the buffer appends |
| `Cursors.Cursor.constructor` | src/lib.rs:27 | `Cursor::new(init)` holds `init` at position 0 |
| `Cursors.Cursor.Unread` | src/lib.rs:36 | the abstraction function of a cursor, as `remaining_slice` computes it: the bytes from the position on, or none when the position is at or past the end; `Cursor.Read`, `DrainMemory` and `ReadMemoryLines` state their promises through it |
| `Cursors.Cursor.Read` | src/lib.rs:36 | copies `min(buf.len(), unread)` bytes into the front of `buf`, leaves the rest of `buf` alone, advances the position by that count and never fails |
| `Cursors.Cursor.Write` | src/lib.rs:78 | the buffer becomes `Overwrite(old buffer, old position, b)`, the position moves past `b`, and the whole of `b` is reported written |
| `Cursors.Cursor.Flush` | src/lib.rs:86 | flushing a cursor always succeeds |
| `Cursors.Cursor.SetPosition` | src/lib.rs:65 | sets the position and nothing else |
| `Cursors.Cursor.ReadToString` | src/lib.rs:66 | the unread bytes read as text; the position moves past them only on success |
| `OsHandles.NextRead` | src/lib.rs:35 | a read into `room` bytes takes the next scripted answer: at most `room` bytes (the rest stays pending) or its error; an exhausted script reads as end of stream |
| `OsHandles.InputHandle.Read` | src/lib.rs:34-35 | the handle gives its next answer: the bytes land at the front of `buf` and their count is returned, or the error is returned and `buf` is untouched |
| `OsHandles.OutputHandle.Write` | src/lib.rs:76-77 | the handle takes as many bytes as its next answer allows, in order, or fails with that answer's error and takes none |
| `OsHandles.OutputHandle.Flush` | src/lib.rs:84-85 | the flush takes the next answer and never takes bytes |
| `Streams.ReadFrom` | src/lib.rs:32-38 | a read goes to the active variant's resource only: a cursor read for `Memory`, the handle's next answer for `Stdin`/`File` |
| `Streams.WriteTo` | src/lib.rs:74-80 | a write goes to the active variant's resource only: a cursor write for `Memory`; for `Stdout`/`File` the handle's next answer decides it, and its count or error is returned unchanged (`Ok(k)` takes and reports `min(k, len)` bytes, an error takes none, an exhausted script takes all) |
| `Streams.FlushOf` | src/lib.rs:82-88 | a flush goes to the active variant's resource only; a cursor is left unchanged and succeeds; a handle's next answer is returned unchanged (`Ok(())` for an `Ok` answer or an exhausted script, the error otherwise) and no bytes are taken |
| `Streams.Reader.Default` | src/lib.rs:15-19 | the default reader is the standard-input variant |
| `Streams.Reader.FromFile` | src/lib.rs:22-24 | an open error is returned unchanged; otherwise a new reader of the `File` variant over the opened handle |
| `Streams.Reader.Memory` | src/lib.rs:26-28 | never fails; a new `Memory` reader whose buffer holds the bytes of `init` (empty for `None`) at position 0; also crates/rw/src/enum.rs:27-31 |
| `Streams.Reader.Read` | src/lib.rs:31-39 | dispatch of `read` to the variant, which the reader keeps (a `const`); also crates/rw/src/enum.rs:34-42 |
| `Streams.Writer.Default` | src/lib.rs:47-51 | the default writer is the standard-output variant |
| `Streams.Writer.FromFile` | src/lib.rs:54-56 | an open error is returned unchanged; otherwise a new writer of the `File` variant |
| `Streams.Writer.Memory` | src/lib.rs:58-60 | never fails; a new `Memory` writer with an empty buffer at position 0; also crates/rw/src/enum.rs:61-63 |
| `Streams.Writer.Write` | src/lib.rs:73-80 | dispatch of `write` to the variant's resource only, with the count or error that resource answers, as in `WriteTo`; also crates/rw/src/enum.rs:77-83 |
| `Streams.Writer.Flush` | src/lib.rs:82-88 | dispatch of `flush` to the variant's resource only, with the result that resource answers, as in `FlushOf`; also crates/rw/src/enum.rs:85-91 |
| `Streams.Writer.ShowBuffer` | src/lib.rs:62-70 | a memory writer rewinds and shows its whole buffer as text, whatever the position was, and fails when that is not UTF-8; any other writer shows `Ok("")` |
| `Streams.Writer.ShowBufferOrNotFound` | crates/rw/src/enum.rs:65-73 | as above for a memory writer; any other writer fails with `NotFound` "no buffer" |
| `Streams.WriteThenShow` | src/lib.rs:149-160 | writing any texts in turn to a fresh memory writer, flushing and showing it gives their concatenation, with either revision of `show_buffer` (crates/rw/src/enum.rs:119-130 for the other) |
| `Lines.LineText` | crates/example/src/main.rs:15-16 | the text of a chunk is a prefix of it, at most two bytes shorter: shorter exactly when the chunk ends with `\n` (a final `\n`, and a `\r` before it, are removed), and the whole chunk otherwise |
| `Lines.ReadLines` | crates/example/src/main.rs:15-16 | `lines` over all the bytes of a stream: one result per chunk up to and including each `\n`, the last chunk yielded even without one; never more results than bytes, and at least one for a nonempty stream |
| `Lines.ReadLineThen` | crates/example/src/main.rs:15-16 | a line, its `\n` and more text: `lines` yields the line (without the `\n`), read as text, and then the lines of the rest |
| `Lines.ChunkOfLine` | crates/example/src/main.rs:15-16 | the chunk `read_line` takes for a line and its `\n` yields the line without the terminator, or the UTF-8 error |
| `Lines.ReadLastLine` | crates/example/src/main.rs:15-16 | a last line without `\n` is still yielded |
| `Lines.ReadLinesText` | crates/example/src/main.rs:15-16 | every line yielded is well-formed text |
| `Lines.ReadJoinedLines` | crates/example/src/main.rs:15-16 | lines joined with `\n` are yielded each in its own place, in order, each read as text, so a bad line yields its error without disturbing the others |
| `Lines.ReadLinesRejoin` | crates/example/src/main.rs:15-16 | for well-formed text with no `\r` right before a `\n`, every line reads well, and the lines joined with `\n` (plus a final `\n` if there was one) give back the text |
| `BufferedLines.ReadUntil` | crates/example/src/main.rs:15-16 | `read_until(b'\n')` over successive reads: what it returns plus what it leaves is no more than what was there, and an error or an empty chunk always consumes something, so reading lines ends; the bytes lost on a mid-line error are `ReadUntilLost` |
| `BufferedLines.StreamLines` | crates/example/src/main.rs:15-16 | `lines` over a stream that answers one read at a time, with a failed read's error in place of its line; never more results than bytes plus answers |
| `BufferedLines.ReaderLines` | crates/example/src/main.rs:15-16 | the lines of a `Reader`: those of a memory reader's unread bytes (no more than there are bytes), or those of its handle's answers |
| `BufferedLines.ReadUntilPlain` | crates/example/src/main.rs:15-16 | over reads that all deliver bytes, `read_until(b'\n')` takes the first chunk of everything they deliver and leaves reads that deliver the rest |
| `BufferedLines.StreamLinesPlain` | crates/example/src/main.rs:15-16 | over reads that all deliver bytes, the lines do not depend on how the bytes were split between reads: they are the lines of everything delivered |
| `BufferedLines.ReadUntilLost` | crates/example/src/main.rs:15-16 | a read that fails in the middle of a line loses the bytes of that line read so far, reports its error, and leaves the reads after it |
| `BufferedLines.DrainMemory` | src/lib.rs:36 | the reads of a memory reader through `Reader::read` into a buffer of any nonzero size, up to the first empty one, are answers that all deliver bytes and together deliver exactly its unread bytes, leaving none |
| `BufferedLines.ReadMemoryLines` | src/lib.rs:139-147 | the lines `BufReader` yields over those reads of a memory reader are the lines of its unread bytes |
| `BufferedLines.StreamLinesLost` | crates/example/src/main.rs:15-16 | so that error takes the place of the interrupted line, and the lines go on with the reads after it |
| `LineErrors.Decimal` | src/lib.rs:108 | `{}` of a line number: at least one digit, digits only, no leading zero unless the number is 0 |
| `LineErrors.DecimalValue` | src/lib.rs:108 | the digits read back as the number |
| `LineErrors.DisplaySome` | src/lib.rs:108 | `Display` with `Some(n)` is "Error in line ", the digits of `n`, ": " and the error's message |
| `LineErrors.Display` | src/lib.rs:105-112 | `Display` of a line error: it starts with "Error in line " when there is a line number, is "Error: " and the message when there is none, and always ends with the message |
| `LineErrors.Debug` | src/lib.rs:96-103 | `Debug` of a line error: it ends with the message, and starts with "Line " and is longer when there is a line number |
| `LineErrors.DebugSome` | src/lib.rs:99 | `Debug` with `Some(n)` is "Line ", the digits of `n`, a space and the message |
| `LineErrors.ErrorLine` | src/lib.rs:124-129 | `error_line(l)` gives a wrapper that makes, from any I/O error, a line error with line number `l` and that I/O error |
| `LineErrors.DisplayRoundTrip` | src/lib.rs:105-112 | the line number and the message can be read back from `Display`: "Error: e" for `None`, "Error in line n: e" for `Some(n)` |
| `LineErrors.DisplayInjective` | crates/rw/src/line_erro.rs:21-28 | two errors that display alike have the same line number and message |
| `LineErrors.DebugShape` | src/lib.rs:96-103 | `Debug` ends with the message, and is just the message exactly when there is no line number |
| `LineErrors.DebugAmbiguous` | crates/rw/src/line_erro.rs:12-19 | `Debug` of an error on line `n` equals `Debug` of an error without a line number whose message starts with "Line n " |
| `LineErrors.Source` | crates/rw/src/line_erro.rs:31-33 | `source` is the wrapped error's own source, so there is none when the wrapped error has none |
| `LineErrors.Cause` | crates/rw/src/line_erro.rs:35-37 | `cause` is the same as `source` |
| `LineErrors.ErrorLineKeeps` | src/lib.rs:124-129 | `error_line(l)(e)` has line number `l` and error `e`, unchanged, and its source is `e`'s |
| `LineProcessing.Numbered` | crates/example/src/main.rs:17-20 | collecting the numbered line results from `no`: the callback gets at most all the lines, all of them exactly when the result is `Ok(())`, and a failure carries the number `no` plus the count of lines handed over before it |
| `LineProcessing.ProcessLines` | crates/example/src/main.rs:9-22 | `process_lines(f)(r)`: `Ok(())` exactly when every line reached `f`, and otherwise a failure numbered one past the count of lines `f` got |
| `LineProcessing.NumberedSpec` | crates/example/src/main.rs:17-19 | counting from `no`: `f` gets exactly the lines before the first failure, in order; the result is `Ok(())` without a failure, else that failure with number `no + index` |
| `LineProcessing.ProcessLinesSpec` | crates/example/src/main.rs:14-21 | `f` gets the lines before the first failure, in order; the result is `Ok(())` exactly when every line reads well; the first failure, at index `i`, is reported as line `i + 1` with its own error |
| `LineProcessing.ProcessStopsAtFailure` | examples/01.rs:17-19 | fail fast: with a failure at index `k`, `f` is called at most `k` times and the result is an error |
| `LineProcessing.ProcessJoinedLines` | examples/01.rs:13-20 | on text made of lines, `f` gets every line before the first one that is not UTF-8; the result is `Ok(())` exactly when there is none, and otherwise is that line's 1-based number with the UTF-8 error |
| `LineProcessing.Position` | crates/example/src/main.rs:26-27 | `position`: the first index whose argument is one of the prefixes, or `None` when no argument is |
| `LineProcessing.ArgsArgument` | crates/example/src/main.rs:24-29 | `args_argument(prefixes)`: any value it finds is an argument after the program name, directly after one of the flags |
| `LineProcessing.ArgsArgumentSpec` | crates/example/src/main.rs:24-29 | skipping the program name, the value is the argument right after the first flag; `None` when there is no flag or the flag comes last |
| `LineProcessing.ArgsArgumentExamples` | examples/01.rs:23-28 | `-f x` gives `x`; the first of two flags wins; a flag at the end, a flag only as the program name, and no arguments at all give `None` |
| `LineProcessing.Run` | crates/example/src/main.rs:35-42 | what both programs do: an error without a line number comes exactly from a named file that cannot be opened, and then no line was processed |
| `LineProcessing.ExampleMain` | crates/example/src/main.rs:35-42 | `main` of the example crate: without a flag, the callback gets standard input's lines before its first failure and the result is `Ok(())` exactly when every line reads well, else that failure numbered from 1; with a flag whose file cannot be opened, no line is processed and the result is the open error wrapped without a line number; otherwise the same as for standard input over the opened file's lines |
| `LineProcessing.ParseArgs` | examples/01.rs:30-35 | no flag gives the standard-input reader; a flag gives a `File` reader over the opened file, or the open error wrapped without a line number |
| `LineProcessing.Main01` | examples/01.rs:37-39 | `main` of examples/01.rs, through `parse_args` and the `Reader` enum, does the same as the example crate's `main` |
| `LineProcessing.RunSpec` | crates/example/src/main.rs:36-40 | the same three cases for `Run`, the behaviour both programs share: standard input's lines processed as `process_lines` promises, the open error itself wrapped without a line number with no line processed, or the opened file's lines processed |
| `GenericStreams.GenericReader.New` | crates/rw/src/generic.rs:11-13 | `Reader::new()` reads standard input |
| `GenericStreams.GenericReader.TryFromFile` | crates/rw/src/generic.rs:15-20 | an open error is returned unchanged; otherwise a reader over the file |
| `GenericStreams.GenericReader.FromString` | crates/rw/src/generic.rs:22-26 | a fresh cursor holding the bytes of `s` at position 0 |
| `GenericStreams.GenericReader.Read` | crates/rw/src/generic.rs:35-39 | forwards to the inner stream, with the same count or error; bytes delivered are the front of what reading to the end collects, and an empty read means nothing is left |
| `GenericStreams.GenericReader.Probe` | crates/rw/src/generic.rs:50 | one probe `read` of `read_to_string`, as seen by the loop: end of stream, the front of what is left, a retry, or the final error |
| `GenericStreams.ScriptContents` | crates/rw/src/generic.rs:50 | what `read_to_end` collects from a stream's answers: the bytes up to the first empty answer, or an error, which is then one of the answers and never an interruption, since those are retried |
| `GenericStreams.GenericReader.ReadToString` | crates/rw/src/generic.rs:50 | `read_to_string` gives everything the stream delivers up to its end, as text, or the first error other than an interruption; a cursor is left at its end with its buffer unchanged |
| `GenericStreams.FromStringRoundTrip` | crates/rw/src/generic.rs:47-52 | reading a `from_string(s)` reader to the end gives `s` back |
| `GenericStreams.GenericWriter.New` | crates/rw/src/generic.rs:74-76 | `Writer::new()` writes to standard output |
| `GenericStreams.GenericWriter.TryToFile` | crates/rw/src/generic.rs:78-84 | an open error is returned unchanged; otherwise a writer to the file |
| `GenericStreams.GenericWriter.ToString` | crates/rw/src/generic.rs:86-90 | a fresh empty cursor at position 0 |
| `GenericStreams.GenericWriter.Write` | crates/rw/src/generic.rs:100-102 | forwards to the inner stream's resource only, with the count or error it answers, as in `WriteTo` |
| `GenericStreams.GenericWriter.Flush` | crates/rw/src/generic.rs:104-106 | forwards to the inner stream's resource only, with the result it answers, as in `FlushOf` |
| `GenericStreams.WriteToString` | crates/rw/src/generic.rs:115-120 | writing "Hallo allemaal\n" to a `to_string` writer reports 15 bytes, flushing succeeds, and the cursor holds those bytes |
| `Scenarios.ReadTestString` | crates/rw/src/enum.rs:103-117 | the lines of `TEST_STRING` are its four lines, in order, each `Ok`, the unterminated last one included |
| `Scenarios.MemoryReader` | src/lib.rs:139-147 | `BufReader::new(Reader::memory(Some(TEST_STRING))).lines()`, read through the reader's `read` with `BufReader`'s 8 KiB buffer, yields the four lines, in order, each `Ok` |
| `Scenarios.WriteToBuffer` | src/lib.rs:149-160 | four writes to `Writer::memory()` and a flush, then `show_buffer`, give exactly `TEST_STRING`, with either revision of `show_buffer`; also crates/rw/src/enum.rs:119-130 |

## Left out

- Standard input, standard output and files are handles whose answers are
  a script given in advance. What the operating system does is outside the
  model.
- Opening a file (`OpenOptions`) is modelled only by its outcome, which is
  given as a parameter or as the `open` function of the programs. The
  difference between creating a missing file (`try_to_file`) and requiring
  it to exist (`from_file`) is therefore not modelled.
- The `to_file` and `try_from_file` tests of crates/rw/src/generic.rs need
  a file system, so they are not modelled.
- `std::env::args()` is a sequence parameter.
- `println!` becomes the `applied` trace of the lines handed to the
  callback.
- The process exit status of `main` is not modelled.
- The lifetimes of `StdinLock`/`StdoutLock` are not modelled.
- `unwrap_or(Ok(Reader::default()))` in examples/01.rs:33 builds the
  standard-input reader even when a file is named. Only the lock it takes
  shows this, and locks are not modelled.
- `BufReader`'s buffer capacity is modelled for memory readers only. Their
  reads go into a buffer of that size, 8 KiB by default (`DrainMemory`).
  For a scripted handle, one answer is one fill of the buffer. A longer
  fill would be split across more reads, which does not change the lines
  (`StreamLinesPlain`).
- Line numbers, cursor positions and byte counts are unbounded: `usize`
  and `u64` overflow are not modelled.
- `show_buffer` consumes the writer in the source. The model keeps the
  object, but no later call depends on it.
- The generic `Reader<R>`/`Writer<W>` accept any `Read`/`Write`. The
  model instantiates them with the three stream kinds the repository uses.
- An `io::Error` is modelled as its kind, the text it displays and an
  opaque source. The OS error code and the chain behind the source are
  left out.
- `std::io::read_to_string` grows its buffer adaptively. The model reads
  in probes of a fixed 32 bytes. Only the number of reads differs.
- UTF-8 validity is modelled in full (RFC 3629 well-formedness), not as an
  abstract predicate. Nothing is decoded into code points.
- LineErrors.Source: the contract states only that there is no source when
  the wrapped error has none. `ErrorLineKeeps` states the equality with the
  wrapped error's source for every error built by `error_line`.
