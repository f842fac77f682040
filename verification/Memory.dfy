/** Memory written piece by piece: the content of an address is the last byte written to it. */
module Memory {
  import opened Bytes

  /** A piece of memory, at its address. */
  datatype Chunk = Chunk(pos: nat, bytes: seq<byte>)

  datatype Cell = Untouched | Byte(value: byte)

  predicate Covers(c: Chunk, a: nat) {
    c.pos <= a < c.pos + |c.bytes|
  }

  /** The memory that a list of chunks describes: later ones win. */
  function CellAt(cs: seq<Chunk>, a: nat): Cell {
    if cs == [] then Untouched
    else
      var c := cs[|cs| - 1];
      if Covers(c, a) then Byte(c.bytes[a - c.pos]) else CellAt(cs[..|cs| - 1], a)
  }

  /** Each address holds the byte of the last chunk covering it. */
  lemma {:induction false} LastWriterWins(cs: seq<Chunk>, k: nat, a: nat)
    requires k < |cs| && Covers(cs[k], a)
    requires forall j :: k < j < |cs| ==> !Covers(cs[j], a)
    ensures CellAt(cs, a) == Byte(cs[k].bytes[a - cs[k].pos])
    decreases |cs|
  {
    if k < |cs| - 1 {
      LastWriterWins(cs[..|cs| - 1], k, a);
    }
  }

  lemma {:induction false} UncoveredIsUntouched(cs: seq<Chunk>, a: nat)
    ensures CellAt(cs, a) == Untouched <==> forall k :: 0 <= k < |cs| ==> !Covers(cs[k], a)
    decreases |cs|
  {
    if cs != [] {
      var before := cs[..|cs| - 1];
      UncoveredIsUntouched(before, a);
      if exists k :: 0 <= k < |before| && Covers(before[k], a) {
        var k :| 0 <= k < |before| && Covers(before[k], a);
        assert Covers(cs[k], a);
      }
    }
  }

  /** Earlier chunks only count where no later one covers. */
  lemma {:induction false} CellAtConcat(cs: seq<Chunk>, ds: seq<Chunk>, a: nat)
    ensures CellAt(cs + ds, a) == if CellAt(ds, a).Byte? then CellAt(ds, a) else CellAt(cs, a)
    decreases |ds|
  {
    if ds == [] {
      assert cs + ds == cs;
    } else {
      var all := cs + ds;
      assert all[..|all| - 1] == cs + ds[..|ds| - 1] && all[|all| - 1] == ds[|ds| - 1];
      CellAtConcat(cs, ds[..|ds| - 1], a);
    }
  }

  /** The content of an address after some chunks were written over an old content. */
  function ByteAt(old_content: seq<byte>, cs: seq<Chunk>, a: nat): byte
    requires a < |old_content|
  {
    match CellAt(cs, a)
    case Untouched => old_content[a]
    case Byte(value) => value
  }

  /** One chunk written in place. */
  function Patched(content: seq<byte>, c: Chunk): (r: seq<byte>)
    requires c.pos + |c.bytes| <= |content|
    ensures |r| == |content|
  {
    content[..c.pos] + c.bytes + content[c.pos + |c.bytes|..]
  }

  lemma PatchedAt(content: seq<byte>, c: Chunk, a: nat)
    requires c.pos + |c.bytes| <= |content| && a < |content|
    ensures Patched(content, c)[a] == ByteAt(content, [c], a)
  {
    if Covers(c, a) {
      LastWriterWins([c], 0, a);
    } else {
      UncoveredIsUntouched([c], a);
    }
  }
}
