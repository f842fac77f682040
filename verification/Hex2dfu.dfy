/** The conversion of hex2dfu.c as a whole: an Intel HEX file in, a DFU file out. */
module Hex2dfu {
  import opened Bytes
  import opened Dfuse
  import opened Ihex
  import opened IhexText
  import opened Memory
  import F = DfuFile

  /** The buffer only ever has sizes that are multiples of eight, so padding the image to
      such a multiple never leaves it. */
  lemma {:induction false} PaddingFits(cs: seq<Chunk>, start: nat)
    requires Extent(cs, start) <= Allocation(cs, start)
    ensures Padded(Extent(cs, start)) <= Allocation(cs, start)
  {
    AllocationAligned(cs, start);
  }

  lemma {:induction false} AllocationAligned(cs: seq<Chunk>, start: nat)
    ensures Allocation(cs, start) % 8 == 0 && Allocation(cs, start) >= FIRST_ALLOCATION
    decreases |cs|
  {
    if cs != [] {
      AllocationAligned(cs[..|cs| - 1], start);
    }
  }

  /** So for whatever the loader holds, a requested checksum has its place exactly when its
      address is in the image, the upper end mattering only where the test wraps. */
  lemma RequestServed(cs: seq<Chunk>, start: nat, add: nat, len: nat)
    requires Extent(cs, start) <= Allocation(cs, start) && len == Padded(Extent(cs, start))
    requires start < 0x1_0000_0000 && len < 0x1_0000_0000 && Requested(add, start, len)
    ensures Inside(add, start, len, Allocation(cs, start))
      <==> start <= add && (start + len < 256 ==> add + 4 <= start + len)
  {
    PaddingFits(cs, start);
    AllocationAligned(cs, start);
    RequestedIsInside(add, start, len, Allocation(cs, start));
  }

  /** The padded image: every covered address below the padding holds its byte. */
  ghost predicate ImageOf(image: seq<byte>, start: nat, cs: seq<Chunk>) {
    && |image| == Padded(Extent(cs, start))
    && forall a: nat :: CellAt(cs, a).Byte? ==>
      start <= a < start + Extent(cs, start) && image[a - start] == CellAt(cs, a).value
  }

  lemma HeldImage(buf: seq<byte>, start: nat, total: nat, cs: seq<Chunk>)
    requires Holds(buf, start, total, cs)
    ensures Padded(total) <= |buf| && ImageOf(buf[..Padded(total)], start, cs)
  {
    PaddingFits(cs, start);
  }

  /** What goes into the file: the padded image, with length and checksum placed in it
      when they were asked for. */
  ghost predicate Finished(image: seq<byte>, add: nat, start: nat, cs: seq<Chunk>) {
    if !Requested(add, start, |image|) then ImageOf(image, start, cs)
    else exists buf, after: seq<byte> :: PlacedIn(buf, after, image, add, start, cs)
  }

  ghost predicate PlacedIn(buf: seq<byte>, after: seq<byte>, image: seq<byte>, add: nat, start: nat, cs: seq<Chunk>) {
    && |image| <= |buf| == |after| && Inside(add, start, |image|, |buf|)
    && ImageOf(buf[..|image|], start, cs) && image == after[..|image|]
    && CrcPlaced(buf, after, add - start, |image|)
  }

  datatype Outcome = FileMade | NoFile(why: Status) | Empty | Unspecified

  /** Some store would leave its buffer: of the loader, or of -c. */
  ghost predicate Overruns(r: (seq<Chunk>, Ending), add: nat) {
    var start := Start(r);
    var len := Padded(Extent(r.0, start));
    !Placed(r.0) || r.1.Undefined? ||
    (!r.1.Checksum? && !r.1.NoEnd? && len != 0 && Requested(add, start, len)
     && !Inside(add, start, len, Allocation(r.0, start)))
  }

  /** How a conversion ends, from how reading the file ended and what -c asks. */
  ghost function Kind(r: (seq<Chunk>, Ending), add: nat): Outcome {
    if Overruns(r, add) then Unspecified
    else match r.1
      case Checksum => NoFile(BadChecksum)
      case NoEnd => NoFile(NoEndRecord)
      case _ => if Extent(r.0, Start(r)) == 0 then Empty else FileMade
  }

  /** A file is made exactly when no store is outside the image buffer, reading came to an
      end record or to the limit, something was said, and the place that -c asks for, if it
      does, is inside; a wrong checksum or a missing end record is reported exactly when
      reading ended with it. */
  lemma MadeExactly(r: (seq<Chunk>, Ending), add: nat)
    ensures var start := Start(r);
      var len := Padded(Extent(r.0, start));
      Kind(r, add).FileMade? <==>
        Placed(r.0) && (r.1.EndRecord? || r.1.Limit?) && Extent(r.0, start) > 0
        && (add == 0 || add >= (start + len - 256) % 0x1_0000_0000 || Inside(add, start, len, Allocation(r.0, start)))
    ensures Kind(r, add) == NoFile(BadChecksum) <==> Placed(r.0) && r.1.Checksum?
    ensures Kind(r, add) == NoFile(NoEndRecord) <==> Placed(r.0) && r.1.NoEnd?
  {
  }

  /** What the loader returns decides it, but for the placed checksum. */
  lemma KindOf(r: (seq<Chunk>, Ending), add: nat, status: Status, buf: seq<byte>, start: nat, len: nat)
    requires Returns(r, status, buf, start, len)
    ensures status == OutOfBounds ==> Kind(r, add) == Unspecified
    ensures status == BadChecksum || status == NoEndRecord ==> Kind(r, add) == NoFile(status)
    ensures status == Loaded ==> start == Start(r) && Kind(r, add) == LoadedKind(add, start, len, |buf|)
  {
  }

  predicate Served(add: nat, start: nat, len: nat, size: nat) {
    Requested(add, start, len) ==> Inside(add, start, len, size)
  }

  /** An image of len bytes in a buffer. */
  function LoadedKind(add: nat, start: nat, len: nat, size: nat): Outcome {
    if len == 0 then Empty else if Served(add, start, Padded(len), size) then FileMade else Unspecified
  }

  method FinishImage(buf: array<byte>, start: nat, total: nat, add: nat, ghost cs: seq<Chunk>)
      returns (defined: bool, image: seq<byte>)
    requires Holds(buf[..], start, total, cs)
    modifies buf
    ensures defined <==> Served(add, start, Padded(total), buf.Length)
    ensures defined ==> |image| == Padded(total) && Finished(image, add, start, cs)
  {
    var len := Padded(total);
    HeldImage(buf[..], start, total, cs);
    ghost var before := buf[..];
    defined := true;
    if Requested(add, start, len) {
      defined := Inside(add, start, len, buf.Length);
      if defined {
        PlaceCrc(buf, add, start, len);
        assert PlacedIn(before, buf[..], buf[..len], add, start, cs);
      }
    }
    image := buf[..len];
  }

  method Convert(lines: seq<seq<byte>>, max: nat, add: nat, h: F.Header, raw: array<byte>)
      returns (outcome: Outcome, dfu: array?<byte>, start: nat, image: seq<byte>)
    requires raw.Length == RAW_SIZE && forall l <- lines :: |l| < LINE_SIZE
    modifies raw
    ensures outcome == Kind(Chunks(lines, old(raw[..]), 0, max), add)
    ensures outcome.FileMade? ==> var r := Chunks(lines, old(raw[..]), 0, max);
      dfu != null && dfu[..] == F.File(h, start, image) && start == Start(r) && Finished(image, add, start, r.0)
  {
    var status, buf, len;
    ghost var r := Chunks(lines, raw[..], 0, max);
    status, buf, start, len := Ihex2binBuf(lines, max, raw);
    KindOf(r, add, status, buf[..], start, len);
    if status == Loaded {
      outcome, dfu, image := MakeFile(buf, start, len, add, h, r.0);
    } else {
      outcome := if status == OutOfBounds then Unspecified else NoFile(status);
      dfu, image := null, [];
    }
  }

  /** What follows once the loader has returned an image. */
  method MakeFile(buf: array<byte>, start: nat, len: nat, add: nat, h: F.Header, ghost cs: seq<Chunk>)
      returns (outcome: Outcome, dfu: array?<byte>, image: seq<byte>)
    requires Holds(buf[..], start, len, cs)
    modifies buf
    ensures outcome == LoadedKind(add, start, len, buf.Length)
    ensures outcome.FileMade? ==>
      dfu != null && dfu[..] == F.File(h, start, image) && Finished(image, add, start, cs)
  {
    outcome, dfu, image := Empty, null, [];
    if Padded(len) > 0 {
      var defined;
      defined, image := FinishImage(buf, start, len, add, cs);
      outcome := Unspecified;
      if defined {
        dfu := F.Assemble(h, start, image);
        outcome := FileMade;
      }
    }
  }

  // ------------------------------------------------------- from text to file

  /** What -c puts at its address is not from the file. */
  predicate PlacedOver(add: nat, start: nat, len: nat, a: nat) {
    Requested(add, start, len) && add <= a < add + 8
  }

  /** What some chunks say about the DFU file made of them: one element at the address of
      the first, padded, in which each covered address holds the byte of the last chunk
      over it, but for the eight bytes that -c asks for. */
  ghost predicate Carries(d: Option<F.Dfu>, h: F.Header, cs: seq<Chunk>, add: nat) {
    d.Some? && |d.value.targets| == 1 && |d.value.targets[0].elements| == 1 && cs != [] &&
    var e := d.value.targets[0].elements[0];
    && e.address == cs[0].pos && |e.data| == Padded(Extent(cs, cs[0].pos)) && HoldsLast(e.data, cs, add)
    && d.value.targets[0].alt == h.alt % 256 && F.Labelled(d.value.targets[0].name, h.title)
    && d.value.vid == h.vid % 0x1_0000 && d.value.pid == h.pid % 0x1_0000 && d.value.ver == h.ver % 0x1_0000
  }

  ghost predicate HoldsLast(image: seq<byte>, cs: seq<Chunk>, add: nat)
    requires cs != []
  {
    var start := cs[0].pos;
    forall k, a: nat :: 0 <= k < |cs| && Wins(cs, k, a) && !PlacedOver(add, start, |image|, a)
      ==> HasByte(image, start, Extent(cs, start), cs[k], a)
  }

  lemma {:induction false} ImageHolds(image: seq<byte>, cs: seq<Chunk>, add: nat)
    requires cs != [] && ImageOf(image, cs[0].pos, cs)
    ensures HoldsLast(image, cs, add)
  {
    var start := cs[0].pos;
    forall k, a: nat | 0 <= k < |cs| && Wins(cs, k, a) ensures HasByte(image, start, Extent(cs, start), cs[k], a) {
      LastWriterWins(cs, k, a);
    }
  }

  lemma {:induction false} PlacedHolds(before: seq<byte>, image: seq<byte>, cs: seq<Chunk>, add: nat)
    requires cs != [] && ImageOf(before, cs[0].pos, cs) && |image| == |before| && cs[0].pos <= add
    requires Requested(add, cs[0].pos, |image|)
    requires forall i :: 0 <= i < |image| && !(add - cs[0].pos <= i < add - cs[0].pos + 8) ==> image[i] == before[i]
    ensures HoldsLast(image, cs, add)
  {
    var start := cs[0].pos;
    ImageHolds(before, cs, 0);
    forall k, a: nat | 0 <= k < |cs| && Wins(cs, k, a) && !PlacedOver(add, start, |image|, a)
      ensures HasByte(image, start, Extent(cs, start), cs[k], a)
    {
      assert HasByte(before, start, Extent(cs, start), cs[k], a);
    }
  }

  lemma AroundPlaced(before: seq<byte>, after: seq<byte>, off: nat, len: nat, i: nat)
    requires |before| == |after| && off + 4 <= len <= |after| && off + 8 <= |after|
    requires CrcPlaced(before, after, off, len) && i < len && !(off <= i < off + 8)
    ensures after[..len][i] == before[..len][i]
  {
    if i < off {
      assert after[i] == after[..off][i] == before[..off][i];
    } else {
      assert after[i] == after[off + 8..][i - off - 8] == before[off + 8..][i - off - 8];
    }
  }

  lemma FinishedHolds(image: seq<byte>, add: nat, cs: seq<Chunk>)
    requires cs != [] && Finished(image, add, cs[0].pos, cs)
    ensures |image| == Padded(Extent(cs, cs[0].pos)) && HoldsLast(image, cs, add)
  {
    var start := cs[0].pos;
    if Requested(add, start, |image|) {
      var buf, after: seq<byte> :| PlacedIn(buf, after, image, add, start, cs);
      forall i | 0 <= i < |image| && !(add - start <= i < add - start + 8)
        ensures image[i] == buf[..|image|][i]
      {
        AroundPlaced(buf, after, add - start, |image|, i);
      }
      PlacedHolds(buf[..|image|], image, cs, add);
    } else {
      ImageHolds(image, cs, add);
    }
  }

  /** So reading the DFU file back gives what the chunks say. */
  lemma FileCarries(h: F.Header, cs: seq<Chunk>, add: nat, image: seq<byte>)
    requires cs != [] && Finished(image, add, cs[0].pos, cs)
    requires cs[0].pos < 0x1_0000_0000 && 11 + 274 + 8 + |image| + 16 < 0x8000_0000
    ensures Carries(F.Read(F.File(h, cs[0].pos, image)), h, cs, add)
  {
    FinishedHolds(image, add, cs);
    F.ReadBack(h, cs[0].pos, image);
  }

  lemma KindAtEnd(cs: seq<Chunk>, add: nat)
    requires Placed(cs)
    ensures var start := Start((cs, EndRecord));
      Kind((cs, EndRecord), add) == LoadedKind(add, start, Extent(cs, start), Allocation(cs, start))
    ensures Kind((cs, EndRecord), 0) == if Extent(cs, Start((cs, EndRecord))) == 0 then Empty else FileMade
  {
  }

  /** A well-formed Intel HEX file converts to a DFU file exactly when it says anything and
      the place that -c asks for is in the buffer; without -c, when it says anything.
      Reading that file gives back what the records say. */
  lemma WellFormedConverts(ws: seq<Written>, digits: seq<byte>, eol: Eol, tail: seq<seq<byte>>, raw: seq<byte>,
                           max: nat, add: nat, h: F.Header)
    requires |raw| == RAW_SIZE && Short(tail) && AllWf(ws) && Below(ChunksOf(ws, 0), max) && Placed(ChunksOf(ws, 0))
    requires !eol.Missing? && Spells(digits, WithChecksum(END_BODY)) && max <= 0x1_0000_0000
    ensures Short(Lines(ws) + (Fragments(RecordLine(digits, eol)) + tail))
    ensures Chunks(Lines(ws) + (Fragments(RecordLine(digits, eol)) + tail), raw, 0, max)
      == (ChunksOf(ws, 0), EndRecord)
    ensures var cs, start := ChunksOf(ws, 0), Start((ChunksOf(ws, 0), EndRecord));
      && Kind((cs, EndRecord), add) == LoadedKind(add, start, Extent(cs, start), Allocation(cs, start))
      && Kind((cs, EndRecord), 0) == if Extent(cs, start) == 0 then Empty else FileMade
    ensures var cs := ChunksOf(ws, 0);
      forall image :: cs != [] && Finished(image, add, cs[0].pos, cs) && 11 + 274 + 8 + |image| + 16 < 0x8000_0000
        ==> Carries(F.Read(F.File(h, cs[0].pos, image)), h, cs, add)
  {
    var cs := ChunksOf(ws, 0);
    FileRead(ws, digits, eol, tail, raw, 0, max);
    KindAtEnd(cs, add);
    forall image | cs != [] && Finished(image, add, cs[0].pos, cs) && 11 + 274 + 8 + |image| + 16 < 0x8000_0000
      ensures Carries(F.Read(F.File(h, cs[0].pos, image)), h, cs, add)
    {
      FileCarries(h, cs, add, image);
    }
  }
}
