/** Fixed-width integers, result types and a read cursor over a byte slice.

    These are the helpers the U2F decoder is written against: a `bytes.Buffer`
    whose read position only moves forward, `read(buffer, n)` that takes the
    next n bytes, `readBE[uint16]` that reads a big-endian 16-bit integer and
    `toBE` that writes one. Their bodies are not part of this model; they are
    modelled by their big-endian meaning, and every read that finds too few
    bytes left fails with an error instead of reading past the end.
 */
module Wire {

  newtype uint8 = x: int | 0 <= x < 0x100
  newtype uint16 = x: int | 0 <= x < 0x1_0000

  datatype Option<T> = None | Some(value: T)

  datatype Result<T, E> = Ok(value: T) | Err(error: E)

  /** A read that asked for more bytes than the buffer still holds. */
  datatype ReadError = ShortBuffer(wanted: nat, available: nat)

  /** The 16-bit integer whose big-endian encoding is `b`. */
  function FromBE16(b: seq<uint8>): (v: uint16)
    requires |b| == 2
    ensures v as int / 0x100 == b[0] as int && v as int % 0x100 == b[1] as int
  {
    (b[0] as int * 0x100 + b[1] as int) as uint16
  }

  /** The big-endian encoding of `v`: two bytes, most significant first. */
  function ToBE16(v: uint16): (b: seq<uint8>)
    ensures |b| == 2
    ensures FromBE16(b) == v
    ensures b[0] as int == v as int / 0x100 && b[1] as int == v as int % 0x100
  {
    [(v as int / 0x100) as uint8, (v as int % 0x100) as uint8]
  }

  /** Reading two bytes and writing them back gives the same two bytes. */
  lemma ToBE16FromBE16(b: seq<uint8>)
    requires |b| == 2
    ensures ToBE16(FromBE16(b)) == b
  {
    var v := FromBE16(b);
    assert v as int == b[0] as int * 0x100 + b[1] as int;
    assert ToBE16(v)[0] == b[0];
    assert ToBE16(v)[1] == b[1];
  }

  /** A byte slice together with a read offset, as `bytes.Buffer` is when it is
      only read from: `Len()` is the number of unread bytes, and each read
      consumes bytes from the front of the unread part. */
  class ByteBuffer {
    const data: seq<uint8>
    var off: nat

    ghost predicate Valid()
      reads this
    {
      off <= |data|
    }

    /** The number of bytes not yet read. */
    function Len(): (n: nat)
      reads this
      requires Valid()
      ensures n == |Unread()|
    {
      |data| - off
    }

    /** The bytes not yet read. */
    ghost function Unread(): seq<uint8>
      reads this
      requires Valid()
    {
      data[off..]
    }

    constructor (bytes: seq<uint8>)
      ensures Valid() && Unread() == bytes
    {
      data := bytes;
      off := 0;
    }

    /** Takes the next `n` bytes; fails, consuming nothing, when fewer remain. */
    method Next(n: nat) returns (r: Result<seq<uint8>, ReadError>)
      requires Valid()
      modifies this
      ensures Valid()
      ensures n <= old(Len()) ==> r == Ok(old(Unread())[..n]) && Unread() == old(Unread())[n..]
      ensures old(Len()) < n ==> r == Err(ShortBuffer(n, old(Len()))) && Unread() == old(Unread())
    {
      if n <= |data| - off {
        assert data[off..off + n] == data[off..][..n];
        r := Ok(data[off..off + n]);
        off := off + n;
      } else {
        r := Err(ShortBuffer(n, |data| - off));
      }
    }

    /** Reads a big-endian 16-bit integer; fails, consuming nothing, when
        fewer than two bytes remain. */
    method ReadBE16() returns (r: Result<uint16, ReadError>)
      requires Valid()
      modifies this
      ensures Valid()
      ensures 2 <= old(Len()) ==> r == Ok(FromBE16(old(Unread())[..2])) && Unread() == old(Unread())[2..]
      ensures old(Len()) < 2 ==> r.Err? && Unread() == old(Unread())
    {
      var bytes := Next(2);
      match bytes
      case Ok(b) => r := Ok(FromBE16(b));
      case Err(e) => r := Err(e);
    }
  }
}
