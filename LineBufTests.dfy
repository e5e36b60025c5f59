/**
 * The source's unit test of `try_read_line`, over an in-memory stream that
 * never fails holding `12\n345`, with destinations of 1, 2 and 4 bytes.
 * Each outcome the test expects is proved to be the one `TryReadLine`
 * returns, for every way the stream may split its reads.
 */
module LineBufTests {
  import opened Io
  import opened LineBuf

  /** `b"12\n345"`. */
  const SAMPLE: seq<byte> := [49, 50, 10, 51, 52, 53]

  /**
   * `assert_eq!(reader.try_read_line(dest).ok(), Some(expected))`: when
   * `expected` is an outcome that fits what is unread, the call returns it
   * and consumes exactly its bytes.
   */
  method ExpectLine(reader: LineReader, dest: array<byte>, expected: Line)
    requires reader.Valid() && dest != reader.buf && !reader.inner.canFail
    requires IsNextLine(reader.unread, dest.Length, expected)
    modifies reader, reader.buf, reader.inner, dest
    ensures reader.Valid() && reader.unread == old(reader.unread)[expected.n..]
  {
    var r := reader.TryReadLine(dest);
    IsNextLineUnique(old(reader.unread), dest.Length, r.value, expected);
    assert r == Ok(expected);
  }

  method TestDestinationOfOne()
  {
    var cur := new Stream(SAMPLE, false);
    var reader := new LineReader.New(cur);
    var dest := new byte[1];
    ExpectLine(reader, dest, More(1));
    assert reader.unread == [50, 10, 51, 52, 53];
    ExpectLine(reader, dest, More(1));
    assert reader.unread == [10, 51, 52, 53];
    ExpectLine(reader, dest, Return(1));
    assert reader.unread == [51, 52, 53];
    ExpectLine(reader, dest, More(1));
    assert reader.unread == [52, 53];
    ExpectLine(reader, dest, More(1));
    assert reader.unread == [53];
    ExpectLine(reader, dest, More(1));
    assert reader.unread == [];
    ExpectLine(reader, dest, Return(0));
    assert reader.unread == [];
  }

  method TestDestinationOfTwo()
  {
    var cur := new Stream(SAMPLE, false);
    var reader := new LineReader.New(cur);
    var dest := new byte[2];
    ExpectLine(reader, dest, More(2));
    assert reader.unread == [10, 51, 52, 53];
    ExpectLine(reader, dest, Return(1));
    assert reader.unread == [51, 52, 53];
    ExpectLine(reader, dest, More(2));
    assert reader.unread == [53];
    ExpectLine(reader, dest, Return(1));
    assert reader.unread == [];
  }

  method TestDestinationOfFour()
  {
    var cur := new Stream(SAMPLE, false);
    var reader := new LineReader.New(cur);
    var dest := new byte[4];
    ExpectLine(reader, dest, Return(3));
    assert reader.unread == [51, 52, 53];
    ExpectLine(reader, dest, Return(3));
    assert reader.unread == [];
  }
}
