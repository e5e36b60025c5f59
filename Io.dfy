/**
 * The byte-stream collaborator of the line reader: the part of Rust's
 * `std::io::Read` contract that `LineReader` relies on, with an in-memory
 * source standing in for a real file, socket or `Cursor`.
 */
module Io {

  /** An unsigned 8-bit value, Rust's `u8`. */
  newtype byte = x: int | 0 <= x < 256

  /** The one error kind the reader knows about: the stream's read failed. */
  datatype IoError = ReadFailed

  /** `std::io::Result`. */
  datatype Result<T> = Ok(value: T) | Err(error: IoError)

  /**
   * A readable stream whose not-yet-read bytes are `remaining`.
   * `Read` may deliver fewer bytes than asked for (a short read) and, when
   * `canFail`, may fail; both are chosen nondeterministically, so whatever
   * is proved about a caller holds for every chunking and every failure
   * pattern. With `canFail` false it stands for an in-memory `Cursor`.
   */
  class Stream {
    var remaining: seq<byte>
    const canFail: bool

    constructor (contents: seq<byte>, canFail: bool)
      ensures remaining == contents && this.canFail == canFail
    {
      remaining := contents;
      this.canFail := canFail;
    }

    /**
     * Reads up to `dest.Length` bytes into the front of `dest`. The count is
     * 0 only when `dest` is empty or the stream is at end of input. On
     * failure nothing is consumed. As with `std::io::Read`, nothing is
     * promised about `dest` past the count returned.
     */
    method Read(dest: array<byte>) returns (r: Result<nat>)
      modifies this, dest
      ensures r.Ok? ==> r.value <= dest.Length && r.value <= |old(remaining)|
      ensures r.Ok? ==> (r.value == 0 <==> dest.Length == 0 || old(remaining) == [])
      ensures r.Ok? ==> dest[..r.value] == old(remaining)[..r.value]
      ensures r.Ok? ==> remaining == old(remaining)[r.value..]
      ensures r.Err? ==> remaining == old(remaining) && canFail
    {
      var fail: bool := *;
      if canFail && fail {
        return Err(ReadFailed);
      }
      var most := if dest.Length < |remaining| then dest.Length else |remaining|;
      var count: nat :| count <= most && (count == 0 <==> most == 0);
      var i := 0;
      while i < count
        invariant i <= count <= most
        invariant remaining == old(remaining)
        invariant forall j :: 0 <= j < i ==> dest[j] == remaining[j]
      {
        dest[i] := remaining[i];
        i := i + 1;
      }
      assert dest[..count] == remaining[..count];
      remaining := remaining[count..];
      r := Ok(count);
    }
  }
}
