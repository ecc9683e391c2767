/**
 * The part of `std::io::Cursor<Vec<u8>>` (and of `byteorder::ReadBytesExt`
 * on it) that the kvrs reader uses: a byte buffer and a read position that
 * reads advance and seeks set.
 */
module Io {
  import opened Format
  import opened Errors

  class Cursor {
    /** The buffer; reading never changes it. */
    const data: seq<uint8>
    /** The position of the next read; a seek may put it past the end. */
    var pos: nat

    constructor (buf: seq<uint8>)
      ensures data == buf && pos == 0
    {
      data := buf;
      pos := 0;
    }

    /** The bytes from the position to the end; none when the position is past the end. */
    function Unread(): seq<uint8>
      reads this
    {
      if pos <= |data| then data[pos..] else []
    }

    /**
     * `read_exact` into a buffer of `n` bytes: succeeds with the next `n`
     * bytes when there are that many, and fails with `UnexpectedEof`
     * otherwise. A failed read leaves the position where it was.
     */
    method ReadExact(n: nat) returns (r: Result<seq<uint8>, IoErrorKind>)
      modifies this
      ensures n <= |old(Unread())| ==> r == Ok(old(Unread())[..n]) && pos == old(pos) + n
      ensures n > |old(Unread())| ==> r == Err(UnexpectedEof) && pos == old(pos)
    {
      var rest := Unread();
      if n <= |rest| {
        r := Ok(rest[..n]);
        pos := pos + n;
      } else {
        r := Err(UnexpectedEof);
      }
    }

    /** `read_u64::<BigEndian>`: eight bytes read most significant first. */
    method ReadU64BigEndian() returns (r: Result<uint64, IoErrorKind>)
      modifies this
      ensures 8 <= |old(Unread())| ==>
        r == Ok(BigEndian(old(Unread())[..8])) && pos == old(pos) + 8
      ensures 8 > |old(Unread())| ==> r == Err(UnexpectedEof) && pos == old(pos)
    {
      var bytes := ReadExact(8);
      if bytes.Err? {
        return Err(bytes.error);
      }
      Pow256Of8();
      r := Ok(BigEndian(bytes.value));
    }

    /** `read_u8`: the next byte. */
    method ReadU8() returns (r: Result<uint8, IoErrorKind>)
      modifies this
      ensures 1 <= |old(Unread())| ==> r == Ok(old(Unread())[0]) && pos == old(pos) + 1
      ensures 1 > |old(Unread())| ==> r == Err(UnexpectedEof) && pos == old(pos)
    {
      var bytes := ReadExact(1);
      if bytes.Err? {
        return Err(bytes.error);
      }
      r := Ok(bytes.value[0]);
    }

    /**
     * `seek(SeekFrom::Start(p))`. On a cursor this cannot fail, even past the
     * end, so its `io::Result` is left out here.
     */
    method SeekFromStart(p: uint64)
      modifies this
      ensures pos == p
    {
      pos := p;
    }
  }
}
