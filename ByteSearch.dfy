/**
 * The byte search the line reader delegates to the `memchr` crate, as a
 * pure function over a sequence.
 */
module ByteSearch {
  import opened Io

  datatype Option<T> = None | Some(value: T)

  /** The index of the first occurrence of `needle` in `s`, if any. */
  function Memchr(needle: byte, s: seq<byte>): (r: Option<nat>)
    ensures r.Some? ==> r.value < |s| && s[r.value] == needle && needle !in s[..r.value]
    ensures r.None? ==> needle !in s
  {
    if s == [] then None
    else if s[0] == needle then Some(0)
    else match Memchr(needle, s[1..])
      case None => None
      case Some(k) => assert s[..k + 1] == [s[0]] + s[1..][..k]; Some(k + 1)
  }
}
