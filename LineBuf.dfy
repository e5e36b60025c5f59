/**
 * A bounded-memory line reader: a fixed-size internal buffer with two
 * cursors in front of a byte stream, delivering as much of the next
 * `\n`-terminated line as fits into a caller's destination buffer.
 */
module LineBuf {
  import opened Io
  import opened ByteSearch

  const NEWLINE: byte := 10

  /** Internal buffer size used by `LineReader.New`. */
  const DEFAULT_BUF_SIZE: nat := 8 * 1024

  /**
   * The outcome of a read. `Return(n)`: the line ended, on a `\n` or at end
   * of stream. `More(n)`: the destination filled before a `\n` was seen.
   */
  datatype Line = Return(n: nat) | More(n: nat)
  {
    /** The byte count carried by either variant. */
    function Amount(): (r: nat)
      ensures this == Return(r) || this == More(r)
    {
      match this
      case Return(n) => n
      case More(n) => n
    }

    /** The same outcome with `k` more bytes delivered in front of it. */
    function Plus(k: nat): Line
    {
      match this
      case Return(n) => Return(n + k)
      case More(n) => More(n + k)
    }
  }

  function Min(a: nat, b: nat): nat
  {
    if a < b then a else b
  }

  /**
   * Reference definition, one byte at a time, of the fragment a read
   * delivers when `input` is everything not yet delivered (buffered bytes
   * followed by the rest of the stream) and the destination has room for
   * `room` bytes. It mentions neither the internal buffer's capacity nor the
   * way the stream splits its data into reads.
   */
  function NextLine(input: seq<byte>, room: nat): Line
  {
    if room == 0 then More(0)
    else if input == [] then Return(0)
    else if input[0] == NEWLINE then Return(1)
    else NextLine(input[1..], room - 1).Plus(1)
  }

  /**
   * What each outcome means: the count fits the destination and the input;
   * `More` exactly when the destination fills without a `\n`; a positive
   * `Return` ends on the first `\n` or at end of stream; `Return(0)` exactly
   * at end of stream with room to spare.
   */
  lemma {:induction false} NextLineMeaning(input: seq<byte>, room: nat)
    ensures NextLine(input, room).Amount() <= room
    ensures NextLine(input, room).Amount() <= |input|
    ensures NextLine(input, room).More? <==> room <= |input| && NEWLINE !in input[..room]
    ensures NextLine(input, room).More? ==> NextLine(input, room).n == room
    ensures var n := NextLine(input, room).n;
      NextLine(input, room).Return? && n > 0 ==>
        (input[n - 1] == NEWLINE && NEWLINE !in input[..n - 1]) ||
        (n == |input| < room && NEWLINE !in input)
    ensures NextLine(input, room) == Return(0) <==> room > 0 && input == []
  {
    if room == 0 || input == [] || input[0] == NEWLINE {
    } else {
      var rest := input[1..];
      NextLineMeaning(rest, room - 1);
      var n := NextLine(rest, room - 1).n;
      assert forall k :: 0 <= k <= |rest| ==> input[..k + 1] == [input[0]] + rest[..k];
      assert n > 0 ==> input[n] == rest[n - 1];
    }
  }

  /**
   * The same outcome stated without recursion: `More(room)` when the first
   * `room` bytes hold no `\n`; `Return(n)` when the `n`th byte is the first
   * `\n`, or when the stream ends after `n < room` bytes without one.
   */
  ghost predicate IsNextLine(input: seq<byte>, room: nat, line: Line)
  {
    match line
    case More(n) => n == room <= |input| && NEWLINE !in input[..n]
    case Return(n) =>
      n <= room && n <= |input| &&
      ((n > 0 && input[n - 1] == NEWLINE && NEWLINE !in input[..n - 1]) ||
       (n == |input| < room && NEWLINE !in input))
  }

  /** At most one outcome fits the description. */
  lemma IsNextLineUnique(input: seq<byte>, room: nat, a: Line, b: Line)
    requires IsNextLine(input, room, a) && IsNextLine(input, room, b)
    ensures a == b
  {
    assert forall i, k :: 0 <= i < k <= |input| ==> input[..k][i] == input[i];
  }

  /**
   * The recursive and the declarative definitions agree: an outcome fits the
   * description exactly when it is the one `NextLine` computes.
   */
  lemma NextLineCharacterized(input: seq<byte>, room: nat, line: Line)
    ensures IsNextLine(input, room, line) <==> line == NextLine(input, room)
  {
    NextLineMeaning(input, room);
    var expected := NextLine(input, room);
    if expected.Return? && expected.n == 0 {
      assert input == [];
    }
    assert IsNextLine(input, room, expected);
    if IsNextLine(input, room, line) {
      IsNextLineUnique(input, room, line, expected);
    }
  }

  /**
   * Bytes before the first `\n` can be delivered in any number of pieces:
   * delivering `k` of them and then reading on gives the same outcome as one
   * read with the whole room.
   */
  lemma {:induction false} NextLineSkip(input: seq<byte>, room: nat, k: nat)
    requires k <= room && k <= |input| && NEWLINE !in input[..k]
    ensures NextLine(input, room) == NextLine(input[k..], room - k).Plus(k)
  {
    if k == 0 {
      assert input[k..] == input;
    } else {
      assert input[0] in input[..k];
      assert input[1..][..k - 1] == input[1..k];
      assert forall b :: b in input[1..k] ==> b in input[..k];
      NextLineSkip(input[1..], room - 1, k - 1);
      assert input[1..][k - 1..] == input[k..];
    }
  }

  /**
   * The reference definition agrees with the search the source performs:
   * `memchr` over the first `room` bytes, then end of stream or a full
   * destination.
   */
  lemma NextLineByMemchr(input: seq<byte>, room: nat)
    ensures NextLine(input, room) ==
      match Memchr(NEWLINE, input[..Min(room, |input|)])
      case Some(k) => Return(k + 1)
      case None => if |input| < room then Return(|input|) else More(room)
  {
    var window := input[..Min(room, |input|)];
    match Memchr(NEWLINE, window)
    case Some(k) =>
      assert window[..k] == input[..k];
      NextLineSkip(input, room, k);
      assert input[k..][0] == NEWLINE;
    case None =>
      NextLineSkip(input, room, |window|);
      assert input[|window|..] == [] || room == |window|;
  }

  /**
   * With room in the destination, every outcome but `Return(0)` delivers at
   * least one byte, so reading until `Return(0)` terminates.
   */
  lemma NextLineProgress(input: seq<byte>, room: nat)
    requires room > 0
    ensures NextLine(input, room) != Return(0) ==> 0 < NextLine(input, room).Amount() <= |input|
    ensures NextLine(input, room).Amount() <= room
  {
    NextLineMeaning(input, room);
  }

  /** The bytes a caller collects by reading until `Return(0)`. */
  function ReadToEnd(input: seq<byte>, room: nat): seq<byte>
    requires room > 0
    decreases |input|
  {
    NextLineProgress(input, room);
    var line := NextLine(input, room);
    if line == Return(0) then []
    else input[..line.Amount()] + ReadToEnd(input[line.Amount()..], room)
  }

  /** The outcomes a caller sees when reading until `Return(0)`. */
  function Fragments(input: seq<byte>, room: nat): seq<Line>
    requires room > 0
    decreases |input|
  {
    NextLineProgress(input, room);
    var line := NextLine(input, room);
    if line == Return(0) then [line]
    else [line] + Fragments(input[line.Amount()..], room)
  }

  /**
   * Reading until `Return(0)` reconstructs the input exactly: nothing added,
   * dropped or reordered, terminators kept in place.
   */
  lemma {:induction false} ReadToEndReconstructs(input: seq<byte>, room: nat)
    requires room > 0
    ensures ReadToEnd(input, room) == input
    decreases |input|
  {
    NextLineProgress(input, room);
    var line := NextLine(input, room);
    if line != Return(0) {
      ReadToEndReconstructs(input[line.Amount()..], room);
      assert input[..line.Amount()] + input[line.Amount()..] == input;
    }
  }

  /**
   * The session ends with the only `Return(0)`, every earlier outcome
   * delivers at least one byte and none delivers more than `room`.
   */
  lemma {:induction false} FragmentsShape(input: seq<byte>, room: nat)
    requires room > 0
    ensures |Fragments(input, room)| > 0
    ensures Fragments(input, room)[|Fragments(input, room)| - 1] == Return(0)
    ensures forall i :: 0 <= i < |Fragments(input, room)| - 1 ==>
      0 < Fragments(input, room)[i].Amount() <= room
    decreases |input|
  {
    NextLineProgress(input, room);
    var line := NextLine(input, room);
    if line != Return(0) {
      var rest := Fragments(input[line.Amount()..], room);
      FragmentsShape(input[line.Amount()..], room);
      assert Fragments(input, room) == [line] + rest;
      assert forall i :: 0 < i < |rest| + 1 ==> ([line] + rest)[i] == rest[i - 1];
    }
  }

  /**
   * A line reader over the stream `inner`. The valid, unconsumed data is
   * `buf[pos..cap]`; everything else in `buf` is stale. The ghost field
   * `unread` is everything not yet delivered to a caller.
   */
  class LineReader {
    const inner: Stream
    const buf: array<byte>
    var pos: nat
    var cap: nat
    ghost var unread: seq<byte>

    /**
     * The cursor invariant and a positive capacity; what is not yet
     * delivered is the buffered bytes, then the rest of the stream.
     */
    ghost predicate Valid()
      reads this, buf, inner
    {
      0 < buf.Length && pos <= cap <= buf.Length &&
      unread == buf[pos..cap] + inner.remaining
    }

    constructor New(inner: Stream)
      ensures Valid() && fresh(buf)
      ensures this.inner == inner && buf.Length == DEFAULT_BUF_SIZE
      ensures pos == 0 && cap == 0
      ensures unread == inner.remaining
    {
      this.inner := inner;
      buf := new byte[DEFAULT_BUF_SIZE];
      pos, cap := 0, 0;
      unread := inner.remaining;
    }

    constructor WithCapacity(capacity: nat, inner: Stream)
      requires capacity > 0
      ensures Valid() && fresh(buf)
      ensures this.inner == inner && buf.Length == capacity
      ensures pos == 0 && cap == 0
      ensures unread == inner.remaining
    {
      this.inner := inner;
      buf := new byte[capacity];
      pos, cap := 0, 0;
      unread := inner.remaining;
    }

    /**
     * Polls the stream only when the buffer is exhausted, and then reads
     * into the whole buffer from offset 0. Returns the buffered bytes.
     */
    method FillBuf() returns (r: Result<seq<byte>>)
      requires Valid()
      modifies this, buf, inner
      ensures Valid() && unread == old(unread)
      ensures r.Ok? ==> r.value == buf[pos..cap]
      ensures old(pos) < old(cap) ==>
        r.Ok? && pos == old(pos) && cap == old(cap) && unchanged(buf) && unchanged(inner)
      ensures old(pos) >= old(cap) && r.Ok? ==>
        && pos == 0 && (cap == 0 <==> old(inner.remaining) == [])
        && buf[..cap] == old(inner.remaining)[..cap] && inner.remaining == old(inner.remaining)[cap..]
      ensures r.Err? ==> pos == old(pos) && cap == old(cap) && inner.remaining == old(inner.remaining)
      ensures r.Err? ==> inner.canFail
    {
      if pos >= cap {
        var count := inner.Read(buf);
        if count.Err? {
          return Err(count.error);
        }
        cap := count.value;
        pos := 0;
      }
      r := Ok(buf[pos..cap]);
    }

    /** Marks `amt` bytes as delivered, never moving past the valid data. */
    method Consume(amt: nat)
      requires Valid()
      modifies this
      ensures Valid() && cap == old(cap)
      ensures pos == Min(old(pos) + amt, cap)
      ensures unread == old(unread)[Min(amt, old(cap) - old(pos))..]
    {
      unread := unread[Min(amt, cap - pos)..];
      pos := Min(pos + amt, cap);
    }

    /**
     * Delivers into `dest[off..]` the buffered bytes, refilling first if the
     * buffer is empty, clamped to the room left in `dest`: through the first
     * `\n` if the clamped window holds one (`Return`), else the whole window
     * (`More`). `Return(0)` only at end of stream.
     */
    method ReadBuf(dest: array<byte>, off: nat) returns (r: Result<Line>)
      requires Valid() && dest != buf && off <= dest.Length
      modifies this, buf, inner, dest
      ensures Valid()
      ensures old(pos) < old(cap) ==> inner.remaining == old(inner.remaining)
      ensures r.Ok? && old(pos) < old(cap) ==> pos == old(pos) + r.value.n
      ensures r.Ok? && old(pos) >= old(cap) ==> pos == r.value.n
      ensures r.Ok? ==> BufferedOutcome(old(unread), dest.Length - off, r.value, pos == cap)
      ensures r.Ok? ==>
        dest[..] == Overwrite(old(dest[..]), off, old(unread)[..r.value.n]) &&
        unread == old(unread)[r.value.n..]
      ensures r.Err? ==>
        && old(pos) >= old(cap) && pos == old(pos) && cap == old(cap)
        && inner.remaining == old(inner.remaining) && dest[..] == old(dest[..])
        && unread == old(unread) && inner.canFail
    {
      var filled := FillBuf();
      if filled.Err? {
        return Err(filled.error);
      }
      if pos == cap {
        return Ok(Return(0));
      }
      var line := DeliverBuffered(dest, off);
      r := Ok(line);
    }

    /**
     * The part of `read_buf` after a successful refill: clamps the buffered
     * window to the room left in `dest`, copies through the first `\n` in it
     * or else all of it, and consumes what it copied.
     */
    method DeliverBuffered(dest: array<byte>, off: nat) returns (line: Line)
      requires Valid() && dest != buf && off <= dest.Length && pos < cap
      modifies this, dest
      ensures Valid() && cap == old(cap)
      ensures line.n <= old(cap) - old(pos) && pos == old(pos) + line.n
      ensures BufferedOutcome(old(unread), dest.Length - off, line, pos == cap)
      ensures dest[..] == Overwrite(old(dest[..]), off, old(unread)[..line.n])
      ensures unread == old(unread)[line.n..]
    {
      var rem := buf[pos..cap];
      if dest.Length - off < |rem| {
        rem := rem[..dest.Length - off];
      }
      line := CopyWindow(rem, dest, off);
      WindowOutcome(unread, rem, dest.Length - off, cap - pos, line);
      Consume(line.Amount());
    }

    /**
     * Delivers as much of the next line as fits into `dest`, reading from
     * the stream as needed. The outcome and the bytes written depend only on
     * what had not been delivered yet and on `dest.Length`.
     */
    method TryReadLine(dest: array<byte>) returns (r: Result<Line>)
      requires Valid() && dest != buf
      modifies this, buf, inner, dest
      ensures Valid()
      ensures LineRead(old(unread), unread, old(dest[..]), dest[..], r)
      ensures r.Err? ==> pos == cap && inner.canFail
      ensures dest.Length == 0 ==> pos == old(pos) && cap == old(cap) && inner.remaining == old(inner.remaining)
    {
      ghost var input, orig := unread, dest[..];
      ghost var pos0, cap0, stream0 := pos, cap, inner.remaining;
      NothingDelivered(input, orig);
      var amt: nat := 0;
      while amt < dest.Length
        invariant Valid()
        invariant amt <= dest.Length
        invariant Delivered(input, unread, orig, dest[..], amt)
        invariant NEWLINE !in input[..amt]
        invariant dest.Length == 0 ==> pos == pos0 && cap == cap0 && inner.remaining == stream0
        decreases dest.Length - amt
      {
        var line := ReadStep(dest, amt, input, orig);
        match line
        case Err(_) =>
          return line;
        case Ok(Return(n)) =>
          return Ok(Return(amt + n));
        case Ok(More(n)) =>
          amt := amt + n;
      }
      FullOutcome(input, unread, orig, dest[..], amt);
      return Ok(More(amt));
    }

    /**
     * One pass of the loop in `try_read_line`: a `read_buf` call at offset
     * `amt` once the first `amt` bytes of `input`, none of them a `\n`, have
     * been delivered into `dest` over `orig`.
     */
    method ReadStep(dest: array<byte>, amt: nat, ghost input: seq<byte>, ghost orig: seq<byte>)
      returns (r: Result<Line>)
      requires Valid() && dest != buf && amt < dest.Length
      requires Delivered(input, unread, orig, dest[..], amt) && NEWLINE !in input[..amt]
      modifies this, buf, inner, dest
      ensures Valid()
      ensures r.Ok? && r.value.More? ==>
        && r.value.n > 0 && amt + r.value.n <= dest.Length
        && Delivered(input, unread, orig, dest[..], amt + r.value.n)
        && NEWLINE !in input[..amt + r.value.n]
      ensures r.Ok? && r.value.Return? ==>
        LineRead(input, unread, orig, dest[..], Ok(Return(amt + r.value.n)))
      ensures r.Err? ==> LineRead(input, unread, orig, dest[..], r) && pos == cap && inner.canFail
    {
      ghost var pre := dest[..];
      r := ReadBuf(dest, amt);
      if r.Ok? {
        ghost var n := r.value.n;
        assert old(unread)[..n] == input[amt..][..n];
        Extend(pre, orig, input, amt, n);
        if r.value.Return? {
          ReturnOutcome(input, dest.Length, amt, n);
        }
      }
    }
  }

  /**
   * What a `try_read_line` call leaves behind, stated on values: `input` was
   * everything not yet delivered, `orig` the destination's contents before
   * the call, `rest` and `d` what remains and the destination after it. On
   * success the outcome is the one `IsNextLine` describes for a destination
   * of `|orig|` bytes and exactly its bytes were delivered. On failure some
   * shorter prefix was delivered and consumed all the same.
   */
  ghost predicate LineRead(input: seq<byte>, rest: seq<byte>, orig: seq<byte>, d: seq<byte>, r: Result<Line>)
  {
    match r
    case Ok(line) => IsNextLine(input, |orig|, line) && Delivered(input, rest, orig, d, line.n)
    case Err(_) => exists k: nat :: k < |orig| && Delivered(input, rest, orig, d, k)
  }

  /**
   * What a caller of `try_read_line` can rely on. On success: the outcome is
   * the reference `NextLine`; the destination holds exactly the delivered
   * bytes in front and is untouched behind them; `More` fills the whole
   * destination with no `\n`; a positive `Return` ends on `\n` or at end of
   * stream; `Return(0)` comes exactly at end of stream; an empty destination
   * yields `More(0)` and consumes nothing. A failure needs a non-empty
   * destination.
   */
  lemma LineReadMeaning(input: seq<byte>, rest: seq<byte>, orig: seq<byte>, d: seq<byte>, r: Result<Line>)
    requires LineRead(input, rest, orig, d, r)
    ensures r.Err? ==> |orig| > 0
    ensures r.Ok? ==> r.value == NextLine(input, |orig|)
    ensures r.Ok? ==>
      var n := r.value.n;
      && n <= |orig| && n <= |input| && |d| == |orig|
      && d[..n] == input[..n] && d[n..] == orig[n..] && rest == input[n..]
    ensures r.Ok? && r.value.More? ==> r.value.n == |orig| && NEWLINE !in d
    ensures r.Ok? && r.value.Return? && r.value.n > 0 ==>
      d[r.value.n - 1] == NEWLINE || rest == []
    ensures r.Ok? ==> (r.value == Return(0) <==> input == [] && |orig| > 0)
    ensures |orig| == 0 ==> r == Ok(More(0)) && d == orig && rest == input
  {
    if r.Ok? {
      var line, n := r.value, r.value.n;
      NextLineCharacterized(input, |orig|, line);
      assert d == orig[..0] + input[..n] + orig[n..];
      assert d[..n] == input[..n] && d[n..] == orig[n..];
      if n > 0 {
        assert d[n - 1] == input[n - 1];
      }
    }
  }

  /** Before the first read nothing is delivered and nothing is overwritten. */
  lemma NothingDelivered(input: seq<byte>, d: seq<byte>)
    ensures Delivered(input, input, d, d, 0)
  {
    assert Overwrite(d, 0, input[..0]) == d;
  }

  /** A destination filled with bytes that hold no `\n` gives `More`. */
  lemma FullOutcome(input: seq<byte>, rest: seq<byte>, orig: seq<byte>, d: seq<byte>, room: nat)
    requires room == |orig| && Delivered(input, rest, orig, d, room) && NEWLINE !in input[..room]
    ensures LineRead(input, rest, orig, d, Ok(More(room)))
  {
  }

  /**
   * The first `k` bytes of `input` have been delivered: `d` holds them over
   * the destination's original contents `orig`, and `rest` is what follows
   * them.
   */
  ghost predicate Delivered(input: seq<byte>, rest: seq<byte>, orig: seq<byte>, d: seq<byte>, k: nat)
  {
    k <= |input| && k <= |orig| && d == Overwrite(orig, 0, input[..k]) && rest == input[k..]
  }

  /**
   * What one `read_buf` call with `room` bytes of destination left delivers
   * from `before`, everything not yet delivered: `Return(0)` at end of
   * stream, `Return(n)` through the first `\n`, or `More(n)` with no `\n`,
   * stopping either at a full destination or at the end of the buffered
   * bytes (`drained`), and delivering something whenever there is room.
   */
  ghost predicate BufferedOutcome(before: seq<byte>, room: nat, line: Line, drained: bool)
  {
    line.n <= room && line.n <= |before| &&
    match line
    case Return(n) =>
      (n == 0 && before == []) ||
      (n > 0 && before[n - 1] == NEWLINE && NEWLINE !in before[..n - 1])
    case More(n) =>
      NEWLINE !in before[..n] && (room > 0 ==> n > 0) && (n == room || drained)
  }

  /**
   * The copy at the end of `read_buf`, on the clamped window `rem`: through
   * the first `\n` in it (`Return`), or all of it (`More`), written into
   * `dest` from offset `off`.
   */
  method CopyWindow(rem: seq<byte>, dest: array<byte>, off: nat) returns (line: Line)
    requires off + |rem| <= dest.Length
    modifies dest
    ensures line.n <= |rem|
    ensures line.Return? ==> 0 < line.n && rem[line.n - 1] == NEWLINE && NEWLINE !in rem[..line.n - 1]
    ensures line.More? ==> line.n == |rem| && NEWLINE !in rem
    ensures dest[..] == Overwrite(old(dest[..]), off, rem[..line.n])
  {
    match Memchr(NEWLINE, rem) {
      case Some(k) =>
        var n := ReadSlice(rem[..k + 1], dest, off);
        assert rem[..k + 1][..n] == rem[..n];
        line := Return(n);
      case None =>
        var n := ReadSlice(rem, dest, off);
        line := More(n);
    }
  }

  /**
   * The window `read_buf` searches is the first `min(buffered, room)` bytes
   * of `input`, so what `CopyWindow` delivers from it is the outcome
   * `BufferedOutcome` describes, the window ending at the buffered data
   * exactly when all of it is delivered.
   */
  lemma WindowOutcome(input: seq<byte>, rem: seq<byte>, room: nat, buffered: nat, line: Line)
    requires 0 < buffered <= |input| && |rem| == Min(buffered, room) && rem == input[..|rem|]
    requires line.n <= |rem|
    requires line.Return? ==> 0 < line.n && rem[line.n - 1] == NEWLINE && NEWLINE !in rem[..line.n - 1]
    requires line.More? ==> line.n == |rem| && NEWLINE !in rem
    ensures rem[..line.n] == input[..line.n]
    ensures BufferedOutcome(input, room, line, line.n == buffered)
  {
    assert rem[..line.n] == input[..line.n];
    if line.Return? {
      assert rem[..line.n - 1] == input[..line.n - 1];
    }
  }

  /** `d` with `src` written over it from offset `off`. */
  function Overwrite(d: seq<byte>, off: nat, src: seq<byte>): (r: seq<byte>)
    requires off + |src| <= |d|
    ensures |r| == |d|
  {
    d[..off] + src + d[off + |src|..]
  }

  /**
   * The outcome when `read_buf` returns `Return(n)` after `amt` bytes
   * without a `\n` were delivered: `Return(amt + n)`.
   */
  lemma ReturnOutcome(input: seq<byte>, room: nat, amt: nat, n: nat)
    requires amt + n <= room && amt + n <= |input| && NEWLINE !in input[..amt]
    requires (n == 0 && input[amt..] == [] && room > amt) ||
             (n > 0 && input[amt..][n - 1] == NEWLINE && NEWLINE !in input[amt..][..n - 1])
    ensures IsNextLine(input, room, Return(amt + n))
  {
    if n > 0 {
      assert input[amt..][n - 1] == input[amt + n - 1];
      assert input[..amt + n - 1] == input[..amt] + input[amt..][..n - 1];
    } else {
      assert input == input[..amt];
    }
  }

  /**
   * One more `read_buf` call: writing the next `n` bytes of `input` over a
   * destination that already holds its first `amt` bytes extends the
   * delivered prefix to `amt + n` bytes.
   */
  lemma Extend(pre: seq<byte>, orig: seq<byte>, input: seq<byte>, amt: nat, n: nat)
    requires amt + n <= |orig| && amt + n <= |input|
    requires pre == Overwrite(orig, 0, input[..amt])
    ensures Overwrite(pre, amt, input[amt..][..n]) == Overwrite(orig, 0, input[..amt + n])
    ensures NEWLINE !in input[..amt] && NEWLINE !in input[amt..][..n] ==>
      NEWLINE !in input[..amt + n]
    ensures input[amt..][n..] == input[amt + n..]
  {
    assert input[..amt + n] == input[..amt] + input[amt..][..n];
  }

  /**
   * `impl Read for &[u8]`: copies `min(|src|, dest.Length - off)` bytes of
   * `src` into `dest` from offset `off` and returns that count.
   */
  method ReadSlice(src: seq<byte>, dest: array<byte>, off: nat) returns (n: nat)
    requires off <= dest.Length
    modifies dest
    ensures n == Min(|src|, dest.Length - off)
    ensures dest[..] == Overwrite(old(dest[..]), off, src[..n])
  {
    n := Min(|src|, dest.Length - off);
    var i := 0;
    while i < n
      invariant i <= n
      invariant dest[..] == Overwrite(old(dest[..]), off, src[..i])
    {
      ghost var before := dest[..];
      dest[off + i] := src[i];
      assert dest[..] == before[off + i := src[i]];
      OverwriteStep(old(dest[..]), off, src, i);
      i := i + 1;
    }
  }

  /** Writing one more byte of `src` extends the overwritten prefix by one. */
  lemma OverwriteStep(d: seq<byte>, off: nat, src: seq<byte>, i: nat)
    requires i < |src| && off + i < |d|
    ensures Overwrite(d, off, src[..i])[off + i := src[i]] == Overwrite(d, off, src[..i + 1])
  {
    assert src[..i + 1] == src[..i] + [src[i]];
  }
}
