/** The DfuSe writer of hex2dfu.c: padding, the placed checksum and the file format
    (DFU suffix: Appendix B of the USB DFU 1.1 specification). */
module Dfuse {
  import opened Bytes
  import opened Crc32
  import opened Ihex

  datatype Option<T> = None | Some(value: T)

  // -------------------------------------------------------- little endian

  function Le16(n: int): (s: seq<byte>)
    ensures |s| == 2
  {
    [n % 256, n / 256 % 256]
  }

  function Le32(n: int): (s: seq<byte>)
    ensures |s| == 4
  {
    [n % 256, n / 0x100 % 256, n / 0x1_0000 % 256, n / 0x100_0000 % 256]
  }

  function Word16(s: seq<byte>): (n: nat)
    requires |s| == 2
  {
    var b0: nat, b1: nat := s[0], s[1];
    b0 + 0x100 * b1
  }

  function Word32(s: seq<byte>): (n: nat)
    requires |s| == 4
  {
    var b0: nat, b1: nat, b2: nat, b3: nat := s[0], s[1], s[2], s[3];
    b0 + 0x100 * b1 + 0x1_0000 * b2 + 0x100_0000 * b3
  }

  /** The bytes of a word give back its low bits, also for negative numbers. */
  lemma Word16OfLe16(n: int)
    ensures Word16(Le16(n)) == n % 0x1_0000
  {
  }

  lemma Word32OfLe32(n: int)
    ensures Word32(Le32(n)) == n % 0x1_0000_0000
  {
    assert n / 0x100 == n / 0x1_0000 * 256 + n / 0x100 % 256;
    assert n / 0x1_0000 == n / 0x100_0000 * 256 + n / 0x1_0000 % 256;
    assert n / 0x100_0000 == n / 0x1_0000_0000 * 256 + n / 0x100_0000 % 256;
  }

  /** Lowest byte first: the four bytes of a number in base 256. */
  lemma Le32Bytes(a: byte, b: byte, c: byte, d: byte)
    ensures var a0: nat, b0: nat, c0: nat, d0: nat := a, b, c, d;
      && Le32(a0 + 0x100 * b0 + 0x1_0000 * c0 + 0x100_0000 * d0) == [a, b, c, d]
      && Le16(a0 + 0x100 * b0) == [a, b]
  {
    var a0: nat, b0: nat, c0: nat, d0: nat := a, b, c, d;
    var n := a0 + 0x100 * b0 + 0x1_0000 * c0 + 0x100_0000 * d0;
    LowByte(a, b0 + 0x100 * c0 + 0x1_0000 * d0, n, 0x100);
    LowByte(b, c0 + 0x100 * d0, n / 0x100, 0x100);
    LowByte(c, d0, n / 0x1_0000, 0x100);
    LowByte(d, 0, n / 0x100_0000, 0x100);
    LowByte(a, b0, a0 + 0x100 * b0, 0x100);
    LowByte(b, 0, b0, 0x100);
    OverTwice(n);
  }

  lemma LowByte(a: byte, more: nat, n: nat, base: nat)
    requires base == 256 && n == a + base * more
    ensures n % base == a && n / base == more
  {
  }

  lemma OverTwice(n: nat)
    ensures n / 0x100 / 0x100 == n / 0x1_0000 && n / 0x1_0000 / 0x100 == n / 0x100_0000
  {
  }

  // --------------------------------------------------------------- padding

  function Padded(len: nat): (n: nat)
    ensures n % 8 == 0 && len <= n < len + 8
  {
    len + if len % 8 != 0 then 8 - len % 8 else 0
  }

  // -------------------------------------------------- the placed checksum

  /** Whether `-c add` asks for a checksum, in 32-bit unsigned arithmetic. */
  predicate Requested(add: nat, start: nat, len: nat) {
    0 < add < (start + len - 256) % 0x1_0000_0000
  }

  /** Whether the eight bytes and the ranges summed lie in the buffer: outside of this
      the stores of the program are undefined. */
  predicate Inside(add: nat, start: nat, len: nat, size: nat) {
    start <= add && add - start + 4 <= len && add - start + 8 <= size
  }

  /** When a requested checksum can be placed, for every image in a buffer of the loader:
      exactly when its address is not below the image, and for an image that ends below
      address 256, where the test for the request wraps, not past its end either. */
  lemma RequestedIsInside(add: nat, start: nat, len: nat, size: nat)
    requires start < 0x1_0000_0000 && len < 0x1_0000_0000 && len <= size && FIRST_ALLOCATION <= size
    requires Requested(add, start, len)
    ensures Inside(add, start, len, size) <==> start <= add && (start + len < 256 ==> add + 4 <= start + len)
  {
    if start + len < 256 {
      assert (start + len - 256) % 0x1_0000_0000 == 0x1_0000_0000 + start + len - 256;
    } else if start + len < 0x1_0000_0000 + 256 {
      assert (start + len - 256) % 0x1_0000_0000 == start + len - 256;
    } else {
      assert (start + len - 256) % 0x1_0000_0000 == start + len - 256 - 0x1_0000_0000;
    }
  }

  /** Both ways out of the image: 64 bytes at address 0 with `-c 1000`, and 4096 bytes at
      address 8192 with `-c 16`. */
  lemma RequestedOutside()
    ensures Requested(1000, 0, 64) && !Inside(1000, 0, 64, FIRST_ALLOCATION)
    ensures Requested(16, 8192, 4096) && !Inside(16, 8192, 4096, FIRST_ALLOCATION)
  {
  }

  /** What -c leaves in the buffer: the length of the image, and in front of it the
      checksum of the image with the checksum's own four bytes cut out. */
  predicate CrcPlaced(before: seq<byte>, after: seq<byte>, off: nat, len: nat)
    requires |before| == |after| && off + 4 <= len <= |after| && off + 8 <= |after|
  {
    && after[off..off + 4] == WordBytes(CrcOf(0, after[..off] + after[off + 4..len]))
    && after[off + 4..off + 8] == Le32(len)
    && after[..off] == before[..off] && after[off + 8..] == before[off + 8..]
  }

  method StoreWord(buf: array<byte>, at: nat, w: seq<byte>)
    requires at + 4 <= buf.Length && |w| == 4
    modifies buf
    ensures buf[at..at + 4] == w
    ensures buf[..at] == old(buf[..at]) && buf[at + 4..] == old(buf[at + 4..])
  {
    buf[at], buf[at + 1], buf[at + 2], buf[at + 3] := w[0], w[1], w[2], w[3];
  }

  method PlaceCrc(buf: array<byte>, add: nat, start: nat, len: nat)
    requires Inside(add, start, len, buf.Length) && len <= buf.Length
    modifies buf
    ensures CrcPlaced(old(buf[..]), buf[..], add - start, len)
  {
    var off := add - start;
    StoreWord(buf, off + 4, Le32(len));
    ghost var with_len := buf[..];
    var crc := Crc32.Crc32(0, buf[..off]);
    crc := Crc32.Crc32(crc, buf[off + 4..len]);
    CrcConcat(0, buf[..off], buf[off + 4..len]);
    StoreWord(buf, off, WordBytes(crc));
    StoredAround(old(buf[..]), with_len, buf[..], off, len);
  }

  lemma StoredAround(before: seq<byte>, mid: seq<byte>, after: seq<byte>, off: nat, len: nat)
    requires |before| == |mid| == |after| && off + 4 <= len <= |after| && off + 8 <= |after|
    requires mid[..off + 4] == before[..off + 4] && mid[off + 8..] == before[off + 8..]
    requires mid[off + 4..off + 8] == Le32(len)
    requires after[..off] == mid[..off] && after[off + 4..] == mid[off + 4..]
    requires after[off..off + 4] == WordBytes(CrcOf(0, mid[..off] + mid[off + 4..len]))
    ensures CrcPlaced(before, after, off, len)
  {
    FrontAgrees(before, mid, off, off + 4);
    BackAgrees(mid, after, off + 4, off + 4, len);
    BackAgrees(mid, after, off + 4, off + 4, off + 8);
    BackAgrees(mid, after, off + 4, off + 8, |after|);
    assert after[off + 8..|after|] == after[off + 8..] && mid[off + 8..|after|] == mid[off + 8..];
  }

  lemma FrontAgrees(s: seq<byte>, t: seq<byte>, i: nat, n: nat)
    requires i <= n <= |s| && n <= |t| && s[..n] == t[..n]
    ensures s[..i] == t[..i]
  {
    assert s[..n][..i] == s[..i] && t[..n][..i] == t[..i];
  }

  lemma BackAgrees(s: seq<byte>, t: seq<byte>, n: nat, i: nat, j: nat)
    requires n <= i <= j <= |s| == |t| && s[n..] == t[n..]
    ensures s[i..j] == t[i..j]
  {
    SliceOfBack(s, n, i - n, j - n);
    SliceOfBack(t, n, i - n, j - n);
  }
}
