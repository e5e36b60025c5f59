# linebuf — a verified model of `LineReader`

`linebuf` reads lines of unbounded length using a fixed amount of memory. A
`LineReader` puts a fixed-size internal buffer, with two cursors (`pos`, `cap`),
in front of any byte stream. `try_read_line` copies the next line into the
caller's destination buffer, or as much of it as fits:

- `Line::Return(n)`: the line ended, on a `\n` (included in the `n` bytes) or
  at end of stream. `Return(0)` means end of stream.
- `Line::More(n)`: the destination filled up before a `\n` was seen. The
  caller reads again to get the rest of the line.

This project models that reader in Dafny:

- `Io.dfy`: bytes, I/O errors, `Result`, and `Stream`, an in-memory stand-in
  for the `Read` trait. A read may return any positive number of bytes
  (short reads), and it fails only when the stream is created with
  `canFail`.
- `ByteSearch.dfy`: `Memchr`, the first occurrence of a byte.
- `LineBuf.dfy`:
  - `Line` and its `Amount`;
  - the reference definitions `NextLine` (byte by byte) and `IsNextLine`
    (declarative) of the outcome a read must produce;
  - the lemmas relating them;
  - the `LineReader` class with `New`, `WithCapacity`, `FillBuf`,
    `ReadBuf`, `Consume` and `TryReadLine`.
- `LineBufTests.dfy`: the crate's unit test. Each expected outcome is proved
  to be the one `TryReadLine` returns, whatever way the stream splits its
  reads.

The reader keeps a ghost field `unread`: every byte not yet delivered to a
caller, i.e. the buffered bytes `buf[pos..cap]` followed by the rest of the
stream. `Valid()` maintains this. The central result is `TryReadLine`'s
postcondition, together with `LineReadMeaning`:

- a successful call returns exactly `NextLine(old(unread), dest.Length)`;
- it writes exactly those bytes to the front of `dest` and leaves the rest
  of `dest` unchanged;
- it removes exactly those bytes from `unread`.

The outcome therefore does not depend on the internal buffer's capacity or
on how the stream splits its data.

## Model

| member | source | states |
|---|---|---|
| LineBuf.Line.Amount | src/lib.rs:15-21 | the result is the byte count carried by whichever variant the line is |
| ByteSearch.Memchr | src/lib.rs:70 | `Some(k)` exactly when the needle occurs: `s[k]` is the needle and no earlier byte is; `None` exactly when the needle does not occur |
| LineBuf.NextLineMeaning | src/lib.rs:80-95 | the reference outcome never exceeds the room or the input; `More` exactly when the first `room` bytes hold no `\n`, and then it is `More(room)`; a positive `Return` ends on the first `\n` or at end of stream; `Return(0)` exactly at end of stream with room > 0 |
| LineBuf.IsNextLineUnique | src/lib.rs:80-95 | at most one outcome matches the declarative description of a read |
| LineBuf.NextLineCharacterized | src/lib.rs:80-95 | an outcome matches the declarative description exactly when it equals the byte-by-byte reference `NextLine` (both directions) |
| LineBuf.NextLineSkip | src/lib.rs:84-93 | delivering the first `k` bytes (containing no `\n`) and then reading on with `room - k` gives the same outcome as one read with the whole room, shifted by `k`; this is why the loop may add up `More` pieces |
| LineBuf.NextLineByMemchr | src/lib.rs:64-73 | the reference outcome equals the search the source performs: `Return(k + 1)` when `memchr` finds `\n` at `k` in the first `min(room, len)` bytes, otherwise `Return(len)` at end of stream before the room runs out, or `More(room)` |
| LineBuf.NextLineProgress | src/lib.rs:84-93 | with a non-empty destination, every outcome except `Return(0)` delivers between 1 and `room` bytes |
| LineBuf.ReadToEndReconstructs | src/lib.rs:80-95 | reading until `Return(0)` and joining the fragments gives back the whole input, with nothing lost, added or reordered |
| LineBuf.FragmentsShape | src/lib.rs:80-95 | a session of reads ends with exactly one `Return(0)`, and every earlier fragment delivers between 1 and `room` bytes |
| LineBuf.LineReader.New | src/lib.rs:32-34 | a fresh reader with an internal buffer of 8 * 1024 bytes, both cursors at 0, and nothing delivered yet |
| LineBuf.LineReader.WithCapacity | src/lib.rs:36-47 | a fresh reader with a buffer of exactly `capacity` bytes, both cursors at 0, and nothing delivered yet |
| LineBuf.LineReader.FillBuf | src/lib.rs:49-55 | with buffered data present, nothing changes; otherwise the stream is read into the buffer from offset 0, `pos` becomes 0, `cap` the count read (0 only at end of stream), and the buffer holds the stream's next `cap` bytes; on error, cursors and stream are unchanged; the undelivered bytes stay the same in every case |
| LineBuf.LineReader.Consume | src/lib.rs:97-99 | `pos` advances by `amt`, clamped at `cap`, and exactly that many bytes leave the undelivered input |
| LineBuf.LineReader.ReadBuf | src/lib.rs:57-78 | delivers into `dest[off..]` a prefix of the undelivered bytes: through the first `\n` of the clamped window (`Return`), `Return(0)` only at end of stream, or `More` with no `\n`, stopping at a full destination or the end of the buffered data; the rest of `dest` is untouched, and the bytes delivered are consumed; on error, nothing changes |
| LineBuf.LineReader.DeliverBuffered | src/lib.rs:63-77 | with buffered data present, the copy and consume of `read_buf` deliver and consume the outcome `BufferedOutcome` describes, advancing `pos` by that count |
| LineBuf.CopyWindow | src/lib.rs:70-73 | copies the window through its first `\n` (`Return`, ending on the `\n`) or the whole window when it has none (`More`), and writes exactly those bytes at `off` |
| LineBuf.WindowOutcome | src/lib.rs:63-73 | searching the first `min(buffered, room)` undelivered bytes gives the outcome `BufferedOutcome` describes, and it drains the buffer exactly when it delivers all buffered bytes |
| LineBuf.ReadSlice | src/lib.rs:71-72 | copies `min(len(src), room)` bytes of `src` to `dest[off..]`, returns that count, and leaves the rest of `dest` unchanged |
| LineBuf.LineReader.TryReadLine | src/lib.rs:80-95 | on success, the outcome is the one the declarative description gives for the undelivered input and `dest.Length`; exactly those bytes are written to the front of `dest`, the rest of `dest` is kept, and the bytes are consumed; on error, a shorter prefix was delivered and consumed; an empty destination touches neither cursors nor stream |
| LineBuf.LineReader.ReadStep | src/lib.rs:84-93 | one loop pass: `More` strictly extends the delivered `\n`-free prefix without exceeding the destination; `Return` completes the outcome `Return(amt + n)` |
| LineBuf.LineReadMeaning | src/lib.rs:80-95 | what a caller may rely on after `try_read_line`: a successful outcome is `NextLine`; `dest[..n]` holds the next `n` input bytes and the rest of `dest` is unchanged; `More` fills `dest` with no `\n`; a positive `Return` ends on `\n` or at end of stream; `Return(0)` exactly at end of stream; an empty destination gives `More(0)`; errors need a non-empty destination |
| LineBuf.ReturnOutcome | src/lib.rs:86-88 | a `Return(n)` from `read_buf` after `amt` `\n`-free bytes completes the declared outcome `Return(amt + n)` |
| LineBuf.Extend | src/lib.rs:85-90 | writing the next `n` input bytes at offset `amt` over a destination holding the first `amt` extends the delivered prefix to `amt + n` bytes |
| Io.Stream.Read | src/lib.rs:51 | a read returns at most the destination's length and at most the bytes left; it returns 0 exactly at end of stream or into an empty destination; it copies the stream's next bytes in order and consumes them; on error, nothing is consumed |
| LineBufTests.ExpectLine | src/lib.rs:115 | when `expected` matches the declarative description of the undelivered input, `try_read_line` returns `Ok(expected)` and consumes exactly its bytes |
| LineBufTests.TestDestinationOfOne | src/lib.rs:112-121 | with a 1-byte destination over `12\n345`, the outcomes are More(1), More(1), Return(1), More(1), More(1), More(1), Return(0) |
| LineBufTests.TestDestinationOfTwo | src/lib.rs:123-128 | with a 2-byte destination, the outcomes are More(2), Return(1), More(2), Return(1) |
| LineBufTests.TestDestinationOfFour | src/lib.rs:130-133 | with a 4-byte destination, the outcomes are Return(3), Return(3) |

## Left out

- `memchr` is a foreign, vectorised routine. It is modelled as the pure
  first-occurrence function `Memchr`.
- `Read` trait and `Cursor`: the generic inner reader `R: Read` is replaced
  by the `Stream` class. Its reads are nondeterministic in length and may
  fail only when `canFail` is set. The tests' `Cursor` is a `Stream` with
  `canFail` false. Error kinds are collapsed into the single `ReadFailed`.
- `with_capacity` allocates the buffer uninitialised (`set_len` in an
  `unsafe` block). The model uses a zero-filled array. Stale buffer contents
  are never delivered, so no contract depends on them.
- LineBuf.LineReader.WithCapacity requires `capacity > 0`; the source does
  not check this. With capacity 0, every read returns 0 bytes, so
  `try_read_line` would report a spurious `Return(0)` (end of stream) with
  data still pending.
- `read_buf` calls `fill_buf` a second time to borrow the buffered slice.
  That call never reads the stream (`pos < cap` holds there), so the model
  uses the first call's state.
- `usize` arithmetic (`pos + n`, `amt + n`) cannot overflow for buffers
  that fit in memory. The model uses unbounded integers.
- LineBuf.LineReader.TryReadLine: for an empty destination, the contract
  states that `pos`, `cap` and the stream's remaining bytes are unchanged,
  not that the whole internal buffer is unchanged. The buffer cannot be
  refilled without reading the stream, so nothing observable is lost.
- LineBuf.LineReader.TryReadLine: on error, the bytes already delivered in
  earlier loop passes stay consumed, but the error value does not carry
  their count. The contract states that some shorter prefix was delivered,
  as the source does.
- Concurrency and the borrow checker's aliasing guarantees are not modelled
  beyond `dest != buf`.
