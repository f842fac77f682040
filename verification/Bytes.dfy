/** Bytes, slices of slices, copying, hexadecimal digits and C strings. */
module Bytes {
  type byte = b: nat | b < 256

  function FromBits8(x: bv8): byte {
    x as int
  }

  lemma FromBits8Back(x: bv8)
    ensures FromBits8(x) as bv8 == x
  {
  }

  function Min(a: nat, b: nat): nat {
    if a < b then a else b
  }

  lemma SliceOfFront<T>(s: seq<T>, n: nat, i: nat, j: nat)
    requires i <= j <= n <= |s|
    ensures s[..n][i..j] == s[i..j]
  {
  }

  lemma SliceOfBack<T>(s: seq<T>, n: nat, i: nat, j: nat)
    requires i <= j && n + j <= |s|
    ensures s[n..][i..j] == s[n + i..n + j]
  {
  }

  /** Bytes over the front of a buffer. */
  function Overlaid(before: seq<byte>, bytes: seq<byte>): (after: seq<byte>)
    requires |bytes| <= |before|
    ensures |after| == |before|
  {
    bytes + before[|bytes|..]
  }

  /** memcpy. */
  method Copy(dst: array<byte>, at: nat, bytes: seq<byte>)
    requires at + |bytes| <= dst.Length
    modifies dst
    ensures dst[..at] == old(dst[..at]) && dst[at + |bytes|..] == old(dst[at + |bytes|..])
    ensures dst[at..at + |bytes|] == bytes
  {
    var i := 0;
    while i < |bytes|
      invariant 0 <= i <= |bytes|
      invariant dst[..at] == old(dst[..at]) && dst[at + i..] == old(dst[at + i..])
      invariant dst[at..at + i] == bytes[..i]
    {
      dst[at + i] := bytes[i];
      i := i + 1;
    }
  }

  /** The value of a hexadecimal digit; 16 for any other character. */
  function Digit(c: byte): (v: nat)
    ensures v <= 16
  {
    if 48 <= c <= 57 then c - 48
    else if 97 <= c <= 102 then c - 87
    else if 65 <= c <= 70 then c - 55
    else 16
  }

  /** The sixteen digits in both letter cases, and nothing else. */
  lemma DigitIs(c: byte, v: nat)
    requires v < 16
    ensures Digit(c) == v <==> (c as char == "0123456789ABCDEF"[v] || c as char == "0123456789abcdef"[v])
  {
  }

  /** Upper-case hexadecimal digits. */
  function HexDigit(v: nat): (c: byte)
    requires v < 16
    ensures Digit(c) == v
  {
    if v < 10 then 48 + v else 55 + v
  }

  lemma HexDigitIs(v: nat)
    requires v < 16
    ensures HexDigit(v) as char == "0123456789ABCDEF"[v]
  {
  }

  /** A text ends at its first zero. */
  function CString(s: seq<byte>): (t: seq<byte>)
    ensures |t| <= |s|
  {
    if s == [] || s[0] == 0 then [] else [s[0]] + CString(s[1..])
  }

  lemma {:induction false} Terminated(s: seq<byte>, z: seq<byte>)
    requires z != [] && z[0] == 0
    ensures CString(s + z) == CString(s)
    decreases |s|
  {
    if s == [] {
      assert s + z == z;
    } else {
      assert (s + z)[1..] == s[1..] + z;
      Terminated(s[1..], z);
    }
  }

  /** A text without zeros is read back whole. */
  lemma {:induction false} WholeText(s: seq<byte>)
    requires 0 !in s
    ensures CString(s) == s
    decreases |s|
  {
    if s != [] {
      WholeText(s[1..]);
    }
  }
}
