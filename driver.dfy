/**
 * The framing loop of the console decoder (H264DecodeInstance): the whole
 * file is read into a buffer padded with a 00 00 00 01 start code, then cut
 * into units from the front, each by readPicture or, when the decoder
 * reports fewer than one thread, by a scan for the next start code. The
 * decoder itself is a sink; the loop's observable behaviour is the trace of
 * calls it makes on it.
 */
module Driver {
  import opened Common
  import opened AnnexB
  import opened SequenceTracker

  /**
   * What the loop does with the decoder: a unit of at least 4 bytes is
   * submitted; a shorter one is skipped (consumed without a decoder call);
   * FlushFrames; and the end-of-stream option.
   */
  datatype Event = Submit(pos: nat, len: nat) | Skip(pos: nat, len: nat) | Flush | EndOfStream

  const EndPad: seq<byte> := [0, 0, 0, 1]

  /** The start code appended after the file's bytes. */
  predicate PadAt(buf: seq<byte>, fileSize: nat)
  {
    fileSize + 4 <= |buf| &&
    buf[fileSize] == 0 && buf[fileSize + 1] == 0 && buf[fileSize + 2] == 0 && buf[fileSize + 3] == 1
  }

  lemma PaddedHasPad(file: seq<byte>)
    ensures PadAt(file + EndPad, |file|)
  {
    assert (file + EndPad)[|file|..] == EndPad;
  }

  /** A start code begins at offset j of the unit at bufPos. */
  predicate StartCodeAtOffset(buf: seq<byte>, bufPos: nat, j: nat)
    requires bufPos + j + 4 <= |buf|
  {
    StartCodeAt(buf, bufPos + j) != NoStartCode
  }

  /** The fallback scan from offset i: the first offset at which a start code begins, or the pad's offset. */
  function NextStartFrom(buf: seq<byte>, fileSize: nat, bufPos: nat, i: nat): (r: nat)
    requires PadAt(buf, fileSize) && 0 < i <= fileSize - bufPos
    ensures i <= r <= fileSize - bufPos
    decreases fileSize - bufPos - i
  {
    if i == fileSize - bufPos || StartCodeAt(buf, bufPos + i) != NoStartCode then i
    else NextStartFrom(buf, fileSize, bufPos, i + 1)
  }

  /** The length the fallback scan gives the unit at bufPos. */
  function FallbackLen(buf: seq<byte>, fileSize: nat, bufPos: nat): nat
    requires PadAt(buf, fileSize) && bufPos < fileSize
  {
    NextStartFrom(buf, fileSize, bufPos, 1)
  }

  /**
   * The fallback length is the least positive offset at which a start code
   * begins; thanks to the pad there is one, at most at the end of the file.
   */
  lemma FallbackLenLeast(buf: seq<byte>, fileSize: nat, bufPos: nat)
    requires PadAt(buf, fileSize) && bufPos < fileSize
    ensures var n := FallbackLen(buf, fileSize, bufPos);
      0 < n <= fileSize - bufPos && StartCodeAtOffset(buf, bufPos, n) &&
      forall j :: 0 < j < n ==> !StartCodeAtOffset(buf, bufPos, j)
  {
    NextStartFromLeast(buf, fileSize, bufPos, 1);
  }

  lemma {:induction false} NextStartFromLeast(buf: seq<byte>, fileSize: nat, bufPos: nat, i: nat)
    requires PadAt(buf, fileSize) && 0 < i <= fileSize - bufPos
    ensures var n := NextStartFrom(buf, fileSize, bufPos, i);
      StartCodeAtOffset(buf, bufPos, n) &&
      forall j :: i <= j < n ==> !StartCodeAtOffset(buf, bufPos, j)
    decreases fileSize - bufPos - i
  {
    if i == fileSize - bufPos {
      assert StartCodeAt(buf, fileSize) == FourByte;
    } else if StartCodeAt(buf, bufPos + i) == NoStartCode {
      NextStartFromLeast(buf, fileSize, bufPos, i + 1);
    }
  }

  /**
   * The fallback scan of the driver loop: the first i > 0 with a 4- or
   * 3-byte start code at bufPos + i, searched while i < fileSize. The pad
   * stops it at the end of the file at the latest.
   */
  method NextStartCode(buf: seq<byte>, fileSize: nat, bufPos: nat) returns (i: nat)
    requires PadAt(buf, fileSize) && bufPos < fileSize
    ensures i == FallbackLen(buf, fileSize, bufPos)
  {
    i := 0;
    while i < fileSize
      invariant i <= fileSize - bufPos
      invariant 0 < i ==> NextStartFrom(buf, fileSize, bufPos, i) == FallbackLen(buf, fileSize, bufPos)
      decreases fileSize - i
    {
      var p := bufPos + i;
      var four := buf[p] == 0 && buf[p + 1] == 0 && buf[p + 2] == 0 && buf[p + 3] == 1;
      var three := buf[p] == 0 && buf[p + 1] == 0 && buf[p + 2] == 1;
      if (four && i > 0) || (three && i > 0) {
        return;
      }
      i := i + 1;
    }
  }

  /** A unit consumed at `pos`: submitted when at least 4 bytes long, skipped otherwise. */
  function Consume(pos: nat, len: nat): (e: Event)
    ensures e.Submit? || e.Skip?
    ensures e.pos == pos && e.len == len
    ensures e.Skip? <==> len < 4
  {
    if len < 4 then Skip(pos, len) else Submit(pos, len)
  }

  /** readPicture never gives a unit of no bytes while bytes remain. */
  lemma PictureProgress(buf: seq<byte>, fileSize: nat, bufPos: nat)
    requires bufPos < fileSize <= |buf|
    ensures var info := Picture(buf, fileSize, bufPos);
      0 < info.len <= fileSize - bufPos && SpsInBuffer(buf, info.sps, info.spsByteCount)
  {
    PictureFacts(buf, fileSize, bufPos);
  }

  /** What the loop does for one unit: whether it flushes first, the unit's length and the new snapshot. */
  datatype UnitStep = UnitStep(flush: bool, len: nat, next: Snapshot)

  /**
   * The unit at bufPos: with at least one thread, readPicture's unit, the
   * flush test on its SPS and the snapshot update; with fewer, the fallback
   * unit, no flush and the snapshot unchanged.
   */
  function NextUnit(buf: seq<byte>, fileSize: nat, threads: int, bufPos: nat, s: Snapshot): (u: UnitStep)
    requires PadAt(buf, fileSize) && bufPos < fileSize && Valid(s)
    ensures 0 < u.len <= fileSize - bufPos && Valid(u.next)
    ensures threads < 1 ==> !u.flush && u.next == s
  {
    if threads >= 1 then
      var info := Picture(buf, fileSize, bufPos);
      PictureProgress(buf, fileSize, bufPos);
      UnitStep(NeedsFlush(s, buf, info.sps, info.spsByteCount), info.len,
               Store(s, buf, info.sps, info.spsByteCount))
    else
      FallbackLenLeast(buf, fileSize, bufPos);
      UnitStep(false, FallbackLen(buf, fileSize, bufPos), s)
  }

  /** A unit the loop consumed: whether a flush preceded it, where it starts and how long it is. */
  datatype Cut = Cut(flush: bool, pos: nat, len: nat)

  /** The units the loop cuts from bufPos to the end of the file, with snapshot s. */
  function Cuts(buf: seq<byte>, fileSize: nat, threads: int, bufPos: nat, s: Snapshot): seq<Cut>
    requires PadAt(buf, fileSize) && bufPos <= fileSize && Valid(s)
    decreases fileSize - bufPos
  {
    if bufPos >= fileSize then []
    else
      var u := NextUnit(buf, fileSize, threads, bufPos, s);
      [Cut(u.flush, bufPos, u.len)] + Cuts(buf, fileSize, threads, bufPos + u.len, u.next)
  }

  /** One unit of the cut list. */
  lemma CutsUnfold(buf: seq<byte>, fileSize: nat, threads: int, bufPos: nat, s: Snapshot, u: UnitStep)
    requires PadAt(buf, fileSize) && bufPos < fileSize && Valid(s)
    requires u == NextUnit(buf, fileSize, threads, bufPos, s)
    ensures bufPos + u.len <= fileSize && Valid(u.next)
    ensures Cuts(buf, fileSize, threads, bufPos, s) ==
      [Cut(u.flush, bufPos, u.len)] + Cuts(buf, fileSize, threads, bufPos + u.len, u.next)
  {
  }

  /** The events one unit adds to the trace: an optional flush, then the unit. */
  function UnitEvents(c: Cut): (t: seq<Event>)
    ensures |t| > 0 && t[|t| - 1] == Consume(c.pos, c.len) && NoEnd(t)
    ensures !c.flush ==> NoFlush(t)
    ensures c.len >= 4 ==> NoSkip(t) && FlushesPrecedeSubmits(t)
  {
    (if c.flush then [Flush] else []) + [Consume(c.pos, c.len)]
  }

  /** The calls the loop makes on the decoder for a list of units, in order. */
  function Events(cs: seq<Cut>): seq<Event>
    decreases |cs|
  {
    if |cs| == 0 then [] else UnitEvents(cs[0]) + Events(cs[1..])
  }

  /**
   * The trace of the loop from bufPos on, with snapshot s: each unit,
   * preceded by a flush when the tracker asks for one; then, at the end of
   * the file, the end-of-stream option and the final flush.
   */
  function Run(buf: seq<byte>, fileSize: nat, threads: int, bufPos: nat, s: Snapshot): seq<Event>
    requires PadAt(buf, fileSize) && bufPos <= fileSize && Valid(s)
  {
    Events(Cuts(buf, fileSize, threads, bufPos, s)) + [EndOfStream, Flush]
  }

  lemma ConcatAssoc<T>(a: seq<T>, b: seq<T>, c: seq<T>)
    ensures (a + b) + c == a + (b + c)
  {
  }

  lemma EventsCons(c: Cut, cs: seq<Cut>)
    ensures Events([c] + cs) == UnitEvents(c) + Events(cs)
  {
    assert ([c] + cs)[1..] == cs;
  }

  lemma {:induction false} EventsSnoc(cs: seq<Cut>, c: Cut)
    ensures Events(cs + [c]) == Events(cs) + UnitEvents(c)
    decreases |cs|
  {
    if |cs| == 0 {
      assert cs + [c] == [c] + [];
      EventsCons(c, []);
    } else {
      assert cs + [c] == [cs[0]] + (cs[1..] + [c]);
      EventsCons(cs[0], cs[1..] + [c]);
      EventsSnoc(cs[1..], c);
      ConcatAssoc(UnitEvents(cs[0]), Events(cs[1..]), UnitEvents(c));
    }
  }

  /** The snapshot before the first unit: no SPS bytes stored. */
  function EmptySnapshot(): (s: Snapshot)
    ensures Valid(s) && s.count == 0
  {
    Snapshot(seq(SnapshotSize, _ => 0), 0)
  }

  /** The whole trace of H264DecodeInstance on a file: nothing for a file of at most 4 bytes. */
  function DriverTrace(file: seq<byte>, threads: int): seq<Event>
  {
    if |file| <= 4 then []
    else Run(file + EndPad, |file|, threads, 0, EmptySnapshot())
  }

  /**
   * H264DecodeInstance's framing loop. The snapshot array is zero-filled
   * here where the source leaves it uninitialised; its bytes are compared
   * only after they have been written.
   */
  method DecodeInstance(file: seq<byte>, threads: int) returns (trace: seq<Event>)
    ensures trace == DriverTrace(file, threads)
  {
    var fileSize := |file|;
    if fileSize <= 4 {
      return [];
    }
    var buf := file + EndPad;
    PaddedHasPad(file);
    var last := new byte[SnapshotSize](_ => 0);
    var lastCount: nat := 0;
    var bufPos: nat := 0;
    trace := [];
    ghost var all := Cuts(buf, fileSize, threads, 0, EmptySnapshot());
    ghost var done: seq<Cut> := [];
    assert Snapshot(last[..], lastCount) == EmptySnapshot();
    while bufPos < fileSize
      invariant bufPos <= fileSize && last.Length == SnapshotSize && lastCount <= SnapshotSize
      invariant done + Cuts(buf, fileSize, threads, bufPos, Snapshot(last[..], lastCount)) == all
      invariant trace == Events(done)
      decreases fileSize - bufPos
    {
      ghost var u := NextUnit(buf, fileSize, threads, bufPos, Snapshot(last[..], lastCount));
      CutsUnfold(buf, fileSize, threads, bufPos, Snapshot(last[..], lastCount), u);
      ghost var c := Cut(u.flush, bufPos, u.len);
      ConcatAssoc(done, [c], Cuts(buf, fileSize, threads, bufPos + u.len, u.next));
      EventsSnoc(done, c);
      trace, bufPos, lastCount := DecodeUnit(buf, fileSize, threads, bufPos, last, lastCount, trace);
      done := done + [c];
    }
    assert done == all;
    trace := trace + [EndOfStream, Flush];
  }

  /**
   * One pass of the loop: cut the unit, flush if the tracker asks for it,
   * then submit or skip the unit and move past it.
   */
  method DecodeUnit(buf: seq<byte>, fileSize: nat, threads: int, bufPos: nat, last: array<byte>, lastCount: nat,
                    trace: seq<Event>)
    returns (trace': seq<Event>, bufPos': nat, lastCount': nat)
    requires PadAt(buf, fileSize) && bufPos < fileSize
    requires last.Length == SnapshotSize && lastCount <= SnapshotSize
    modifies last
    ensures var u := NextUnit(buf, fileSize, threads, bufPos, Snapshot(old(last[..]), lastCount));
      trace' == trace + UnitEvents(Cut(u.flush, bufPos, u.len)) &&
      bufPos' == bufPos + u.len && Snapshot(last[..], lastCount') == u.next
  {
    var flush, size;
    flush, size, lastCount' := ReadUnit(buf, fileSize, threads, bufPos, last, lastCount);
    trace' := trace;
    if flush {
      trace' := trace' + [Flush];
    }
    if size < 4 {
      trace' := trace' + [Skip(bufPos, size)];
    } else {
      trace' := trace' + [Submit(bufPos, size)];
    }
    bufPos' := bufPos + size;
  }

  /** The loop body up to the size test: cut the unit and, with at least one thread, track the SPS. */
  method ReadUnit(buf: seq<byte>, fileSize: nat, threads: int, bufPos: nat, last: array<byte>, lastCount: nat)
    returns (flush: bool, size: nat, newCount: nat)
    requires PadAt(buf, fileSize) && bufPos < fileSize
    requires last.Length == SnapshotSize && lastCount <= SnapshotSize
    modifies last
    ensures UnitStep(flush, size, Snapshot(last[..], newCount)) ==
      NextUnit(buf, fileSize, threads, bufPos, Snapshot(old(last[..]), lastCount))
  {
    flush, newCount := false, lastCount;
    if threads >= 1 {
      var sps: Option<nat>, count: nat, srcSps: Option<nat>;
      size, sps, count, srcSps := ReadPicture(buf, fileSize, bufPos);
      PictureProgress(buf, fileSize, bufPos);
      flush := CheckSps(last, lastCount, buf, sps, count);
      newCount := StoreSps(last, lastCount, buf, sps, count);
    } else {
      size := NextStartCode(buf, fileSize, bufPos);
    }
  }

  predicate NoEnd(t: seq<Event>)
  {
    forall i :: 0 <= i < |t| ==> !t[i].EndOfStream?
  }

  predicate NoFlush(t: seq<Event>)
  {
    forall i :: 0 <= i < |t| ==> !t[i].Flush?
  }

  predicate NoSkip(t: seq<Event>)
  {
    forall i :: 0 <= i < |t| ==> !t[i].Skip?
  }

  /** Every flush in t that is not its last event comes just before a submitted unit. */
  predicate FlushesPrecedeSubmits(t: seq<Event>)
  {
    forall i :: 0 <= i < |t| - 1 && t[i].Flush? ==> t[i + 1].Submit?
  }

  /** A unit that stops short of the end of the file stops at a start code. */
  predicate EndsAtStartCode(buf: seq<byte>, fileSize: nat, e: Event)
  {
    (e.Submit? || e.Skip?) && e.pos + e.len < fileSize && e.pos + e.len + 4 <= |buf| ==>
      StartCodeAtOffset(buf, e.pos, e.len)
  }

  predicate AllEndAtStartCodes(buf: seq<byte>, fileSize: nat, t: seq<Event>)
  {
    forall i :: 0 <= i < |t| ==> EndsAtStartCode(buf, fileSize, t[i])
  }

  /** No start code begins inside the unit, past its first byte. */
  predicate NoInnerStartCode(buf: seq<byte>, e: Event)
  {
    (e.Submit? || e.Skip?) && e.pos + e.len + 4 <= |buf| ==>
      forall j :: 0 < j < e.len ==> !StartCodeAtOffset(buf, e.pos, j)
  }

  predicate AllWhole(buf: seq<byte>, t: seq<Event>)
  {
    forall i :: 0 <= i < |t| ==> NoInnerStartCode(buf, t[i])
  }

  /** The elementwise properties above hold of a concatenation when they hold of both parts. */
  lemma ConcatProperties(buf: seq<byte>, fileSize: nat, a: seq<Event>, b: seq<Event>)
    ensures NoEnd(a) && NoEnd(b) ==> NoEnd(a + b)
    ensures NoFlush(a) && NoFlush(b) ==> NoFlush(a + b)
    ensures NoSkip(a) && NoSkip(b) ==> NoSkip(a + b)
    ensures AllEndAtStartCodes(buf, fileSize, a) && AllEndAtStartCodes(buf, fileSize, b) ==>
      AllEndAtStartCodes(buf, fileSize, a + b)
    ensures AllWhole(buf, a) && AllWhole(buf, b) ==> AllWhole(buf, a + b)
  {
    forall i | |a| <= i < |a + b|
      ensures (a + b)[i] == b[i - |a|]
    {
    }
  }

  lemma ConcatPrecede(a: seq<Event>, b: seq<Event>)
    requires FlushesPrecedeSubmits(a) && FlushesPrecedeSubmits(b)
    requires |a| > 0 && !a[|a| - 1].Flush?
    ensures FlushesPrecedeSubmits(a + b)
  {
    forall i | 0 <= i < |a + b| - 1 && (a + b)[i].Flush?
      ensures (a + b)[i + 1].Submit?
    {
      if i >= |a| {
        assert (a + b)[i] == b[i - |a|] && (a + b)[i + 1] == b[i + 1 - |a|];
      } else {
        assert (a + b)[i] == a[i];
        assert i < |a| - 1;
        assert (a + b)[i + 1] == a[i + 1];
      }
    }
  }

  /**
   * What holds of every unit the loop cuts, whatever the snapshot: it is not
   * empty, it ends inside the file, and where it stops short of the end of
   * the file a start code begins. With fewer than one thread it is never
   * preceded by a flush and holds no start code past its first byte. With at
   * least one thread it is at least 4 bytes long when 4 bytes are left, and
   * it leaves either nothing or more than 4 bytes after it.
   */
  predicate CutOk(buf: seq<byte>, fileSize: nat, threads: int, c: Cut)
  {
    var e := Consume(c.pos, c.len);
    c.len > 0 && c.pos + c.len <= fileSize && EndsAtStartCode(buf, fileSize, e) &&
    (threads < 1 ==> !c.flush && NoInnerStartCode(buf, e)) &&
    (threads >= 1 ==>
      (fileSize - c.pos >= 4 ==> c.len >= 4) &&
      (c.pos + c.len < fileSize ==> fileSize - (c.pos + c.len) > 4))
  }

  predicate AllCutsOk(buf: seq<byte>, fileSize: nat, threads: int, cs: seq<Cut>)
  {
    forall k :: 0 <= k < |cs| ==> CutOk(buf, fileSize, threads, cs[k])
  }

  /** The units of cs, in order, cover [from, to) exactly. */
  predicate Tiled(cs: seq<Cut>, from: nat, to: nat)
    decreases |cs|
  {
    if |cs| == 0 then from == to
    else cs[0].pos == from && Tiled(cs[1..], from + cs[0].len, to)
  }

  lemma UnitFacts(buf: seq<byte>, fileSize: nat, threads: int, bufPos: nat, s: Snapshot, u: UnitStep)
    requires PadAt(buf, fileSize) && bufPos < fileSize && Valid(s)
    requires u == NextUnit(buf, fileSize, threads, bufPos, s)
    ensures CutOk(buf, fileSize, threads, Cut(u.flush, bufPos, u.len))
  {
    if threads >= 1 {
      PictureFacts(buf, fileSize, bufPos);
    } else {
      FallbackLenLeast(buf, fileSize, bufPos);
    }
  }

  lemma AllCutsOkCons(buf: seq<byte>, fileSize: nat, threads: int, c: Cut, cs: seq<Cut>)
    requires CutOk(buf, fileSize, threads, c) && AllCutsOk(buf, fileSize, threads, cs)
    ensures AllCutsOk(buf, fileSize, threads, [c] + cs)
  {
    forall k | 1 <= k < |[c] + cs|
      ensures ([c] + cs)[k] == cs[k - 1]
    {
    }
  }

  /** The units the loop cuts tile the rest of the file, and each of them is as CutOk says. */
  lemma {:induction false} CutsFacts(buf: seq<byte>, fileSize: nat, threads: int, bufPos: nat, s: Snapshot)
    requires PadAt(buf, fileSize) && bufPos <= fileSize && Valid(s)
    ensures var cs := Cuts(buf, fileSize, threads, bufPos, s);
      Tiled(cs, bufPos, fileSize) && AllCutsOk(buf, fileSize, threads, cs)
    decreases fileSize - bufPos
  {
    if bufPos < fileSize {
      var u := NextUnit(buf, fileSize, threads, bufPos, s);
      CutsUnfold(buf, fileSize, threads, bufPos, s, u);
      var c := Cut(u.flush, bufPos, u.len);
      var r := Cuts(buf, fileSize, threads, bufPos + u.len, u.next);
      CutsFacts(buf, fileSize, threads, bufPos + u.len, u.next);
      UnitFacts(buf, fileSize, threads, bufPos, s, u);
      assert ([c] + r)[1..] == r;
      AllCutsOkCons(buf, fileSize, threads, c, r);
    }
  }

  /** Each unit's events are submitted or skipped units that tile [from, to), with flushes between them. */
  predicate Tiles(t: seq<Event>, from: nat, to: nat)
    decreases |t|
  {
    if |t| == 0 then from == to
    else if t[0].Submit? || t[0].Skip? then
      t[0].pos == from && t[0].len > 0 && Tiles(t[1..], from + t[0].len, to)
    else Tiles(t[1..], from, to)
  }

  lemma TilesAfterUnit(c: Cut, r: seq<Event>, to: nat)
    requires c.len > 0 && Tiles(r, c.pos + c.len, to)
    ensures Tiles(UnitEvents(c) + r, c.pos, to)
  {
    var d := [Consume(c.pos, c.len)] + r;
    assert d[1..] == r;
    if c.flush {
      assert UnitEvents(c) + r == [Flush] + d;
      assert ([Flush] + d)[1..] == d;
    } else {
      assert UnitEvents(c) + r == d;
    }
  }

  lemma TilesEnd(to: nat)
    ensures Tiles([EndOfStream, Flush], to, to)
  {
    assert [EndOfStream, Flush][1..] == [Flush];
    assert [Flush][1..] == [];
  }

  /** Tiled units give a trace whose submitted and skipped units tile the same range, each at least one byte long. */
  lemma {:induction false} EventsTile(buf: seq<byte>, fileSize: nat, threads: int, cs: seq<Cut>, from: nat, to: nat)
    requires Tiled(cs, from, to) && AllCutsOk(buf, fileSize, threads, cs)
    ensures Tiles(Events(cs) + [EndOfStream, Flush], from, to)
    decreases |cs|
  {
    if |cs| == 0 {
      TilesEnd(to);
    } else {
      assert CutOk(buf, fileSize, threads, cs[0]);
      EventsTile(buf, fileSize, threads, cs[1..], from + cs[0].len, to);
      TilesAfterUnit(cs[0], Events(cs[1..]) + [EndOfStream, Flush], to);
      ConcatAssoc(UnitEvents(cs[0]), Events(cs[1..]), [EndOfStream, Flush]);
    }
  }

  /** Properties of every unit carry over to the trace events they give. */
  lemma {:induction false} EventsProperties(buf: seq<byte>, fileSize: nat, threads: int, cs: seq<Cut>)
    requires AllCutsOk(buf, fileSize, threads, cs)
    ensures var t := Events(cs);
      NoEnd(t) && AllEndAtStartCodes(buf, fileSize, t) &&
      (threads < 1 ==> NoFlush(t) && AllWhole(buf, t))
    decreases |cs|
  {
    if |cs| > 0 {
      var c := cs[0];
      assert CutOk(buf, fileSize, threads, c);
      EventsProperties(buf, fileSize, threads, cs[1..]);
      var pre := UnitEvents(c);
      assert pre == [Consume(c.pos, c.len)] || pre == [Flush, Consume(c.pos, c.len)];
      ConcatProperties(buf, fileSize, pre, Events(cs[1..]));
    }
  }

  /** A trace of units of at least 4 bytes has no skip, and every flush in it comes just before a submitted unit. */
  lemma {:induction false} EventsNoSkip(cs: seq<Cut>)
    requires forall k :: 0 <= k < |cs| ==> cs[k].len >= 4
    ensures var t := Events(cs);
      NoSkip(t) && FlushesPrecedeSubmits(t) && (|t| > 0 ==> t[|t| - 1].Submit?)
    decreases |cs|
  {
    if |cs| > 0 {
      EventsNoSkip(cs[1..]);
      var pre := UnitEvents(cs[0]);
      ConcatProperties([], 0, pre, Events(cs[1..]));
      ConcatPrecede(pre, Events(cs[1..]));
    }
  }

  /** With at least one thread, tiled units of a range of no bytes or at least 4 are all at least 4 bytes long. */
  lemma {:induction false} NoShortCuts(buf: seq<byte>, fileSize: nat, threads: int, cs: seq<Cut>, from: nat)
    requires threads >= 1 && Tiled(cs, from, fileSize) && AllCutsOk(buf, fileSize, threads, cs)
    requires from == fileSize || fileSize - from >= 4
    ensures forall k :: 0 <= k < |cs| ==> cs[k].len >= 4
    decreases |cs|
  {
    if |cs| > 0 {
      assert CutOk(buf, fileSize, threads, cs[0]);
      assert AllCutsOk(buf, fileSize, threads, cs[1..]) by {
        forall k | 0 <= k < |cs[1..]|
          ensures CutOk(buf, fileSize, threads, cs[1..][k])
        {
          assert cs[1..][k] == cs[k + 1];
        }
      }
      NoShortCuts(buf, fileSize, threads, cs[1..], from + cs[0].len);
      forall k | 0 <= k < |cs|
        ensures cs[k].len >= 4
      {
        if k > 0 {
          assert cs[k] == cs[1..][k - 1];
        }
      }
    }
  }

  /**
   * The trace from bufPos: its submitted and skipped units tile the rest of
   * the file; it ends with the end-of-stream option and the final flush,
   * and the end-of-stream option occurs nowhere else; every unit that stops
   * short of the end of the file stops at a start code. With fewer than one
   * thread the final flush is the only flush and no unit holds a start code
   * past its first byte.
   */
  lemma RunFacts(buf: seq<byte>, fileSize: nat, threads: int, bufPos: nat, s: Snapshot)
    requires PadAt(buf, fileSize) && bufPos <= fileSize && Valid(s)
    ensures var t := Run(buf, fileSize, threads, bufPos, s);
      Tiles(t, bufPos, fileSize) &&
      |t| >= 2 && t[|t| - 2] == EndOfStream && t[|t| - 1] == Flush &&
      NoEnd(t[..|t| - 2]) && AllEndAtStartCodes(buf, fileSize, t[..|t| - 2]) &&
      (threads < 1 ==> NoFlush(t[..|t| - 2]) && AllWhole(buf, t[..|t| - 2]))
  {
    var cs := Cuts(buf, fileSize, threads, bufPos, s);
    CutsFacts(buf, fileSize, threads, bufPos, s);
    EventsTile(buf, fileSize, threads, cs, bufPos, fileSize);
    EventsProperties(buf, fileSize, threads, cs);
    var t := Events(cs) + [EndOfStream, Flush];
    assert t[..|t| - 2] == Events(cs);
  }

  /**
   * With at least one thread, and no bytes or at least 4 left, no unit is
   * ever skipped and every flush but the final one comes just before a
   * submitted unit.
   */
  lemma PictureRunNoSkip(buf: seq<byte>, fileSize: nat, threads: int, bufPos: nat, s: Snapshot)
    requires PadAt(buf, fileSize) && bufPos <= fileSize && Valid(s) && threads >= 1
    requires bufPos == fileSize || fileSize - bufPos >= 4
    ensures var t := Run(buf, fileSize, threads, bufPos, s);
      NoSkip(t) && FlushesPrecedeSubmits(t)
  {
    var cs := Cuts(buf, fileSize, threads, bufPos, s);
    CutsFacts(buf, fileSize, threads, bufPos, s);
    NoShortCuts(buf, fileSize, threads, cs, bufPos);
    EventsNoSkip(cs);
    var e := Events(cs);
    var tail := [EndOfStream, Flush];
    ConcatProperties(buf, fileSize, e, tail);
    if |e| > 0 {
      ConcatPrecede(e, tail);
    }
  }

  /**
   * What the console decoder does with a file of more than 4 bytes: its
   * units tile the file, the end-of-stream option and the final flush close
   * the trace, and each unit cut short stops at a start code. With fewer
   * than one thread nothing is flushed before the end and no unit holds a
   * start code past its first byte; with at least one thread no unit is
   * skipped and every earlier flush comes just before a submitted unit.
   */
  lemma DriverTraceFacts(file: seq<byte>, threads: int)
    requires |file| > 4
    ensures var t := DriverTrace(file, threads);
      var buf := file + EndPad;
      Tiles(t, 0, |file|) &&
      |t| >= 2 && t[|t| - 2] == EndOfStream && t[|t| - 1] == Flush &&
      NoEnd(t[..|t| - 2]) && AllEndAtStartCodes(buf, |file|, t[..|t| - 2]) &&
      (threads < 1 ==> NoFlush(t[..|t| - 2]) && AllWhole(buf, t[..|t| - 2])) &&
      (threads >= 1 ==> NoSkip(t) && FlushesPrecedeSubmits(t))
  {
    PaddedHasPad(file);
    RunFacts(file + EndPad, |file|, threads, 0, EmptySnapshot());
    if threads >= 1 {
      PictureRunNoSkip(file + EndPad, |file|, threads, 0, EmptySnapshot());
    }
  }

  /**
   * With at least one thread, the flush before a unit happens exactly when
   * the snapshot holds SPS bytes, the unit has an SPS, and that SPS is not
   * the stored one; afterwards the snapshot holds the unit's SPS, at most 32
   * bytes of it. A unit without SPS bytes neither flushes nor changes the
   * snapshot.
   */
  lemma NextUnitFlush(buf: seq<byte>, fileSize: nat, threads: int, bufPos: nat, s: Snapshot)
    requires PadAt(buf, fileSize) && bufPos < fileSize && Valid(s) && threads >= 1
    ensures var info := Picture(buf, fileSize, bufPos);
      var u := NextUnit(buf, fileSize, threads, bufPos, s);
      var n := info.spsByteCount;
      (n > 0 ==>
        info.sps.Some? && bufPos < info.sps.value && info.sps.value + n <= bufPos + u.len &&
        (u.flush <==> s.count > 0 && buf[info.sps.value..info.sps.value + n] != s.bytes[..s.count]) &&
        u.next.count == Min(n, SnapshotSize) &&
        u.next.bytes[..u.next.count] == buf[info.sps.value..info.sps.value + u.next.count]) &&
      (n == 0 ==> !u.flush && u.next == s)
  {
    var info := Picture(buf, fileSize, bufPos);
    PictureFacts(buf, fileSize, bufPos);
    if info.spsByteCount > 0 && s.count > 0 {
      FlushIffChanged(s, buf, info.sps, info.spsByteCount);
    }
  }

  /**
   * The unit at bufPos as the source computes it: the flush test and the
   * snapshot update read the SPS at readPicture's pointer as the source
   * leaves it (SourceSpsPtr), not the unit's own SPS. None when the SPS
   * byte count runs past the buffer from that pointer: the source's memcmp
   * and memcpy may then read out of bounds. Wherever the two pointers agree,
   * and with fewer than one thread, this is NextUnit.
   */
  function SourceNextUnit(buf: seq<byte>, fileSize: nat, threads: int, bufPos: nat, s: Snapshot): (u: Option<UnitStep>)
    requires PadAt(buf, fileSize) && bufPos < fileSize && Valid(s)
    ensures u.Some? ==> 0 < u.value.len <= fileSize - bufPos && Valid(u.value.next)
    ensures threads < 1 || SourceSpsPtr(Picture(buf, fileSize, bufPos)) == Picture(buf, fileSize, bufPos).sps ==>
      u == Some(NextUnit(buf, fileSize, threads, bufPos, s))
  {
    if threads >= 1 then
      var info := Picture(buf, fileSize, bufPos);
      PictureProgress(buf, fileSize, bufPos);
      var ptr := SourceSpsPtr(info);
      if SpsInBuffer(buf, ptr, info.spsByteCount) then
        Some(UnitStep(NeedsFlush(s, buf, ptr, info.spsByteCount), info.len, Store(s, buf, ptr, info.spsByteCount)))
      else None
    else Some(NextUnit(buf, fileSize, threads, bufPos, s))
  }

  /** The NAL header bytes of MissedFlushStream: SPS, PPS, IDR slice, twice. */
  const MissedFlushHeaders: seq<byte> := [0x67, 0x68, 0x65, 0x67, 0x68, 0x65]

  /**
   * The byte after each header: the SPSs differ (42 against 43), and each
   * IDR slice begins with a 1 bit, so its first_mb_in_slice is 0.
   */
  const MissedFlushPayloads: seq<byte> := [0x42, 0xCE, 0x88, 0x43, 0xCE, 0x88]

  /** Byte i of MissedFlushStream: six NAL units of 5 bytes, each 00 00 01, a header byte and one more byte. */
  function MissedFlushByte(i: nat): byte
    requires i < 30
  {
    var j := i % 5;
    if j < 2 then 0 else if j == 2 then 1 else if j == 3 then MissedFlushHeaders[i / 5] else MissedFlushPayloads[i / 5]
  }

  /**
   * 00 00 01 67 42 | 00 00 01 68 CE | 00 00 01 65 88 | 00 00 01 67 43 | 00 00 01 68 CE | 00 00 01 65 88:
   * two units of SPS, PPS and IDR slice whose SPSs differ; the first unit ends at the second SPS.
   */
  const MissedFlushStream: seq<byte> := seq(30, i requires 0 <= i < 30 => MissedFlushByte(i))

  /** MissedFlushStream followed by the pad. */
  const MissedFlushBuffer: seq<byte> :=
    seq(34, i requires 0 <= i < 34 => if i < 30 then MissedFlushByte(i) else EndPad[i - 30])

  lemma MissedFlushPadded()
    ensures MissedFlushStream + EndPad == MissedFlushBuffer && PadAt(MissedFlushBuffer, 30)
  {
    assert forall i | 0 <= i < 34 :: (MissedFlushStream + EndPad)[i] == MissedFlushBuffer[i];
  }

  /*
   * readPicture on MissedFlushBuffer, one NAL unit per lemma: each lemma
   * shows what the scan does with the NAL unit at offset rb of its unit (and
   * the byte after it, which starts no start code) and hands the rest of the
   * scan to the next.
   */

  /** At the second SPS, which ends the first unit. */
  lemma MissedFlushFirst15(a3: ScanState)
    requires a3 == ScanState(Counts(1, 1, 0, 1, 0), Some(3), 2)
    requires ScanInv(MissedFlushBuffer, 30, 0, 15, a3)
    ensures Scan(MissedFlushBuffer, 30, 0, 15, a3) == PictureInfo(15, Some(3), 2, Some(Nal(15, 18, Sps)))
  {
    var buf := MissedFlushBuffer;
    assert StartCodeAt(buf, 15) == ThreeByte && NalType(buf[18]) == Sps;
    var step := NalStep(buf, a3, 15, 18);
    assert step.close && step.next.sps == Some(3) && step.next.spsByteCount == 2;
    ScanCloses(buf, 30, 0, 15, a3, 18, step);
  }

  /** At the first IDR slice, which does not end the unit. */
  lemma MissedFlushFirst10(a2: ScanState)
    requires a2 == ScanState(Counts(1, 1, 0, 0, 0), Some(3), 2)
    requires ScanInv(MissedFlushBuffer, 30, 0, 10, a2)
    ensures Scan(MissedFlushBuffer, 30, 0, 10, a2) == PictureInfo(15, Some(3), 2, Some(Nal(15, 18, Sps)))
  {
    var buf := MissedFlushBuffer;
    var a3 := ScanState(Counts(1, 1, 0, 1, 0), Some(3), 2);
    MissedFlushFirstIdr(a2, a3);
    ScanPasses(buf, 30, 0, 10, a2, 13, Step(false, a3));
    ScanNoStartStep(buf, 30, 0, 14, a3);
    MissedFlushFirst15(a3);
  }

  /** The bytes at the first IDR slice: a 3-byte start code, first_mb_in_slice 0, and no start code after it. */
  lemma MissedFlushFirstIdr(a2: ScanState, a3: ScanState)
    requires a2 == ScanState(Counts(1, 1, 0, 0, 0), Some(3), 2)
    requires a3 == ScanState(Counts(1, 1, 0, 1, 0), Some(3), 2)
    ensures StartCodeAt(MissedFlushBuffer, 10) == ThreeByte && StartCodeAt(MissedFlushBuffer, 14) == NoStartCode
    ensures NalStep(MissedFlushBuffer, a2, 10, 13) == Step(false, a3)
  {
    var buf := MissedFlushBuffer;
    assert NalType(buf[13]) == IdrSlice && FirstMbZero(buf, 13);
  }

  /** At the first PPS, which sets the SPS byte count to 2. */
  lemma MissedFlushFirst5(a1: ScanState)
    requires a1 == ScanState(Counts(1, 0, 0, 0, 0), Some(3), 0)
    requires ScanInv(MissedFlushBuffer, 30, 0, 5, a1)
    ensures Scan(MissedFlushBuffer, 30, 0, 5, a1) == PictureInfo(15, Some(3), 2, Some(Nal(15, 18, Sps)))
  {
    var buf := MissedFlushBuffer;
    var a2 := ScanState(Counts(1, 1, 0, 0, 0), Some(3), 2);
    assert StartCodeAt(buf, 5) == ThreeByte && StartCodeAt(buf, 9) == NoStartCode;
    assert NalType(buf[8]) == Pps;
    assert NalStep(buf, a1, 5, 8) == Step(false, a2);
    ScanPasses(buf, 30, 0, 5, a1, 8, Step(false, a2));
    ScanNoStartStep(buf, 30, 0, 9, a2);
    MissedFlushFirst10(a2);
  }

  /** readPicture on the first unit of MissedFlushBuffer: 15 bytes, ended by the second SPS, with its SPS 3 bytes in. */
  lemma MissedFlushFirstPicture()
    ensures Picture(MissedFlushBuffer, 30, 0) == PictureInfo(15, Some(3), 2, Some(Nal(15, 18, Sps)))
  {
    var buf := MissedFlushBuffer;
    var a1 := ScanState(Counts(1, 0, 0, 0, 0), Some(3), 0);
    assert StartCodeAt(buf, 0) == ThreeByte && StartCodeAt(buf, 4) == NoStartCode;
    assert NalType(buf[3]) == Sps;
    assert NalStep(buf, Initial, 0, 3) == Step(false, a1);
    ScanPasses(buf, 30, 0, 0, Initial, 3, Step(false, a1));
    ScanNoStartStep(buf, 30, 0, 4, a1);
    MissedFlushFirst5(a1);
  }

  /** At the second IDR slice: the scan passes it and reaches the end of the file. */
  lemma MissedFlushSecond10(b2: ScanState)
    requires b2 == ScanState(Counts(1, 1, 0, 0, 0), Some(18), 2)
    requires ScanInv(MissedFlushBuffer, 30, 15, 10, b2)
    ensures Scan(MissedFlushBuffer, 30, 15, 10, b2) == PictureInfo(15, Some(18), 2, None)
  {
    var buf := MissedFlushBuffer;
    var b3 := ScanState(Counts(1, 1, 0, 1, 0), Some(18), 2);
    assert StartCodeAt(buf, 25) == ThreeByte;
    assert NalType(buf[28]) == IdrSlice && FirstMbZero(buf, 28);
    assert NalStep(buf, b2, 25, 28) == Step(false, b3);
    ScanPasses(buf, 30, 15, 10, b2, 28, Step(false, b3));
  }

  /** At the second PPS, which sets the SPS byte count to 2. */
  lemma MissedFlushSecond5(b1: ScanState)
    requires b1 == ScanState(Counts(1, 0, 0, 0, 0), Some(18), 0)
    requires ScanInv(MissedFlushBuffer, 30, 15, 5, b1)
    ensures Scan(MissedFlushBuffer, 30, 15, 5, b1) == PictureInfo(15, Some(18), 2, None)
  {
    var buf := MissedFlushBuffer;
    var b2 := ScanState(Counts(1, 1, 0, 0, 0), Some(18), 2);
    assert StartCodeAt(buf, 20) == ThreeByte && StartCodeAt(buf, 24) == NoStartCode;
    assert NalType(buf[23]) == Pps;
    assert NalStep(buf, b1, 20, 23) == Step(false, b2);
    ScanPasses(buf, 30, 15, 5, b1, 23, Step(false, b2));
    ScanNoStartStep(buf, 30, 15, 9, b2);
    MissedFlushSecond10(b2);
  }

  /** The bytes at the second SPS: a 3-byte start code, and no start code after it. */
  lemma MissedFlushSecondSps(b1: ScanState)
    requires b1 == ScanState(Counts(1, 0, 0, 0, 0), Some(18), 0)
    ensures StartCodeAt(MissedFlushBuffer, 15) == ThreeByte && StartCodeAt(MissedFlushBuffer, 19) == NoStartCode
    ensures NalStep(MissedFlushBuffer, Initial, 15, 18) == Step(false, b1)
  {
    assert NalType(MissedFlushBuffer[18]) == Sps;
  }

  /** readPicture on the second unit of MissedFlushBuffer: the rest of the file, with its SPS 3 bytes in. */
  lemma MissedFlushSecondPicture()
    ensures Picture(MissedFlushBuffer, 30, 15) == PictureInfo(15, Some(18), 2, None)
  {
    var buf := MissedFlushBuffer;
    var b1 := ScanState(Counts(1, 0, 0, 0, 0), Some(18), 0);
    MissedFlushSecondSps(b1);
    ScanPasses(buf, 30, 15, 0, Initial, 18, Step(false, b1));
    ScanNoStartStep(buf, 30, 15, 4, b1);
    MissedFlushSecond5(b1);
  }

  /**
   * The model's two units of MissedFlushBuffer: the first stores its own SPS
   * (67 42) without a flush; the second, whose SPS is 67 43, is flushed.
   */
  lemma MissedFlushUnits()
    ensures PadAt(MissedFlushBuffer, 30)
    ensures NextUnit(MissedFlushBuffer, 30, 1, 0, EmptySnapshot()) == UnitStep(false, 15, Store(EmptySnapshot(), MissedFlushBuffer, Some(3), 2))
    ensures var u := NextUnit(MissedFlushBuffer, 30, 1, 15, Store(EmptySnapshot(), MissedFlushBuffer, Some(3), 2));
      u.flush && u.len == 15
  {
    MissedFlushPadded();
    MissedFlushFirstPicture();
    MissedFlushSecondPicture();
    var buf := MissedFlushBuffer;
    assert buf[18..20] != Store(EmptySnapshot(), MissedFlushBuffer, Some(3), 2).bytes[..2] by {
      assert buf[19] != Store(EmptySnapshot(), MissedFlushBuffer, Some(3), 2).bytes[1];
    }
  }

  /** The trace of a file the loop cuts into two units. */
  lemma TwoUnitTrace(file: seq<byte>, threads: int, u1: UnitStep, u2: UnitStep)
    requires |file| > 4 && PadAt(file + EndPad, |file|)
    requires u1 == NextUnit(file + EndPad, |file|, threads, 0, EmptySnapshot()) && u1.len < |file|
    requires u2 == NextUnit(file + EndPad, |file|, threads, u1.len, u1.next) && u1.len + u2.len == |file|
    ensures DriverTrace(file, threads) ==
      UnitEvents(Cut(u1.flush, 0, u1.len)) + UnitEvents(Cut(u2.flush, u1.len, u2.len)) + [EndOfStream, Flush]
  {
    var buf := file + EndPad;
    CutsUnfold(buf, |file|, threads, 0, EmptySnapshot(), u1);
    CutsUnfold(buf, |file|, threads, u1.len, u1.next, u2);
    var c1, c2 := Cut(u1.flush, 0, u1.len), Cut(u2.flush, u1.len, u2.len);
    assert Cuts(buf, |file|, threads, 0, EmptySnapshot()) == [c1, c2];
    assert Events([c1, c2]) == UnitEvents(c1) + UnitEvents(c2) by {
      assert [c1] + [c2] == [c1, c2] && [c2] + [] == [c2];
      EventsCons(c1, [c2]);
      EventsCons(c2, []);
    }
  }

  /** The events of two submitted units, the second flushed before, at the end of the file. */
  lemma FlushedSecondEvents(a: nat, n: nat, b: nat, m: nat)
    requires n >= 4 && m >= 4
    ensures UnitEvents(Cut(false, a, n)) + UnitEvents(Cut(true, b, m)) + [EndOfStream, Flush] ==
      [Submit(a, n), Flush, Submit(b, m), EndOfStream, Flush]
  {
    assert UnitEvents(Cut(false, a, n)) == [Submit(a, n)];
    assert UnitEvents(Cut(true, b, m)) == [Flush, Submit(b, m)];
  }

  /** The model's trace on MissedFlushStream: a flush comes before the second unit. */
  lemma MissedFlushTrace()
    ensures DriverTrace(MissedFlushStream, 1) == [Submit(0, 15), Flush, Submit(15, 15), EndOfStream, Flush]
  {
    MissedFlushPadded();
    MissedFlushUnits();
    var u1 := NextUnit(MissedFlushBuffer, 30, 1, 0, EmptySnapshot());
    var u2 := NextUnit(MissedFlushBuffer, 30, 1, 15, u1.next);
    TwoUnitTrace(MissedFlushStream, 1, u1, u2);
    FlushedSecondEvents(0, 15, 15, 15);
  }

  /**
   * The source's two units of MissedFlushBuffer: after the first it has
   * stored the SPS of the second unit (67 43), so it does not flush before
   * the second unit, although that unit's SPS is not the first unit's.
   */
  lemma SourceMissesFlush()
    ensures PadAt(MissedFlushBuffer, 30)
    ensures SourceNextUnit(MissedFlushBuffer, 30, 1, 0, EmptySnapshot()) == Some(UnitStep(false, 15, Store(EmptySnapshot(), MissedFlushBuffer, Some(18), 2)))
    ensures var u := SourceNextUnit(MissedFlushBuffer, 30, 1, 15, Store(EmptySnapshot(), MissedFlushBuffer, Some(18), 2));
      u.Some? && !u.value.flush && u.value.len == 15
    ensures MissedFlushBuffer[3..5] != MissedFlushBuffer[18..20]
  {
    MissedFlushPadded();
    MissedFlushFirstPicture();
    MissedFlushSecondPicture();
    var buf := MissedFlushBuffer;
    assert buf[18..20] == Store(EmptySnapshot(), MissedFlushBuffer, Some(18), 2).bytes[..2];
    assert buf[3..5][1] == buf[4] != buf[19] == buf[18..20][1];
  }
}
