/**
 * readPicture of the console decoder: the scan that cuts an Annex B byte
 * stream (section B.1 of ITU-T H.264) into the units the decoder is given,
 * counting the NAL units it passes and stopping at the start code of the
 * NAL unit that begins the next unit. It also reports where the unit's
 * sequence parameter set (SPS) starts and how many bytes lie between that
 * SPS and the start code of the first picture parameter set (PPS) after it.
 */
module AnnexB {
  import opened Common
  import opened BitReader

  datatype StartCode = NoStartCode | ThreeByte | FourByte

  /** The start code at `p`, if any; the 4-byte form 00 00 00 01 is tested first. */
  function StartCodeAt(buf: seq<byte>, p: nat): (sc: StartCode)
    requires p + 4 <= |buf|
    ensures sc != NoStartCode ==> buf[p] == 0
  {
    if buf[p] == 0 && buf[p + 1] == 0 && buf[p + 2] == 0 && buf[p + 3] == 1 then FourByte
    else if buf[p] == 0 && buf[p + 1] == 0 && buf[p + 2] == 1 then ThreeByte
    else NoStartCode
  }

  /** Where the NAL header byte lies after a start code. */
  function HeaderOffset(sc: StartCode): nat
  {
    if sc == FourByte then 4 else 3
  }

  /** nal_unit_type: the low five bits of the NAL header byte. */
  function NalType(x: byte): nat
  {
    x % 32
  }

  const NonIdrSlice: nat := 1
  const IdrSlice: nat := 5
  const Sps: nat := 7
  const Pps: nat := 8
  const Delimiter: nat := 9

  /**
   * first_mb_in_slice == 0 for the slice whose NAL header byte is at
   * `header`: the first bit after the header byte is set.
   */
  predicate FirstMbZero(buf: seq<byte>, header: nat)
  {
    header + 1 < |buf| && buf[header + 1] >= 128
  }

  lemma FirstMbZeroMeansFirstMb(buf: seq<byte>, header: nat)
    requires header < |buf|
    ensures FirstMbZero(buf, header) <==> FirstMbInSlice(buf, header) == Ok(0)
  {
  }

  /** The NAL units of each kind counted since the unit began. */
  datatype Counts = Counts(sps: nat, pps: nat, nonIdr: nat, idr: nat, delimiters: nat)

  /** The counts, the unit's SPS header position and the SPS byte count. */
  datatype ScanState = ScanState(counts: Counts, sps: Option<nat>, spsByteCount: nat)

  const Initial := ScanState(Counts(0, 0, 0, 0, 0), None, 0)

  /** A NAL unit: its start code position, its header byte position and its type. */
  datatype Nal = Nal(start: nat, header: nat, nalType: nat)

  /** What one NAL unit does to the scan: whether it begins the next unit, and the updated state. */
  datatype Step = Step(close: bool, next: ScanState)

  predicate SliceSeen(c: Counts)
  {
    c.nonIdr >= 1 || c.idr >= 1
  }

  predicate AnySeen(c: Counts)
  {
    c.sps + c.pps + c.nonIdr + c.idr + c.delimiters > 0
  }

  /**
   * When a NAL unit of type `t` begins a new unit, given what the current
   * unit holds: a slice with first_mb_in_slice == 0 (a non-IDR slice only
   * after an IDR slice), an SPS or PPS after a slice, a second SPS, or a
   * second access unit delimiter.
   */
  predicate StartsNewUnit(c: Counts, t: nat, firstMbZero: bool)
  {
    if t == NonIdrSlice then firstMbZero && c.idr >= 1
    else if t == IdrSlice then firstMbZero && SliceSeen(c)
    else if t == Sps then SliceSeen(c) || c.sps == 1
    else if t == Pps then SliceSeen(c)
    else if t == Delimiter then c.delimiters == 1
    else false
  }

  /** A NAL unit of type `t` sets the SPS byte count: the unit's first PPS, after exactly one SPS. */
  predicate SetsByteCount(c: Counts, t: nat)
  {
    t == Pps && c.pps == 0 && c.sps == 1
  }

  /** The SPS pointer is set exactly when one SPS has been passed. */
  predicate StateOk(st: ScanState)
  {
    st.counts.sps <= 1 && (st.sps.Some? <==> st.counts.sps == 1)
  }

  /**
   * The NAL unit whose start code is at `start` and header byte at `header`.
   * An SPS is recorded as the unit's SPS only when it does not begin the next
   * unit; the first PPS after the first SPS sets the SPS byte count to the
   * distance from the SPS header byte to the PPS start code.
   */
  function NalStep(buf: seq<byte>, st: ScanState, start: nat, header: nat): (r: Step)
    requires start < header < |buf| && StateOk(st)
    requires st.sps.Some? ==> st.sps.value < start
    ensures r.close <==> StartsNewUnit(st.counts, NalType(buf[header]), FirstMbZero(buf, header))
    ensures !r.close ==> StateOk(r.next)
    ensures NalType(buf[header]) == Sps && !r.close ==> r.next.sps == Some(header)
    ensures NalType(buf[header]) != Sps || r.close ==> r.next.sps == st.sps
    ensures SetsByteCount(st.counts, NalType(buf[header])) ==>
      st.sps.Some? && r.next.spsByteCount == start - st.sps.value
    ensures !SetsByteCount(st.counts, NalType(buf[header])) ==> r.next.spsByteCount == st.spsByteCount
  {
    var t := NalType(buf[header]);
    var c := st.counts;
    var zero := (t == NonIdrSlice || t == IdrSlice) && FirstMbZero(buf, header);
    var c' := Counts(
      c.sps + (if t == Sps then 1 else 0), c.pps + (if t == Pps then 1 else 0),
      c.nonIdr + (if t == NonIdrSlice then 1 else 0), c.idr + (if t == IdrSlice then 1 else 0),
      c.delimiters + (if t == Delimiter then 1 else 0));
    var close :=
      if t == NonIdrSlice then c'.nonIdr >= 1 && c.idr >= 1 && zero
      else if t == IdrSlice then (c'.idr >= 1 && c.nonIdr >= 1 && zero) || (c'.idr >= 2 && zero)
      else if t == Sps then (c'.sps >= 1 && (c.nonIdr >= 1 || c.idr >= 1)) || c'.sps == 2
      else if t == Pps then c'.pps >= 1 && (c.nonIdr >= 1 || c.idr >= 1)
      else if t == Delimiter then c'.delimiters == 2
      else false;
    var sps := if t == Sps && !close then Some(header) else st.sps;
    var count := if t == Pps && c'.pps == 1 && c.sps == 1 then start - st.sps.value else st.spsByteCount;
    Step(close, ScanState(c', sps, count))
  }

  /** What readPicture reports: the unit length, the SPS pointer and byte count, and the NAL it stopped at. */
  datatype PictureInfo = PictureInfo(len: nat, sps: Option<nat>, spsByteCount: nat, closedBy: Option<Nal>)

  /** `h` is the header byte of an SPS, right after a start code that begins at or after `lo`. */
  predicate SpsHeader(buf: seq<byte>, lo: nat, h: nat)
  {
    lo + 3 <= h < |buf| && StartCodeAt(buf, h - 3) == ThreeByte && NalType(buf[h]) == Sps
  }

  /** A start code begins at `p`, and the NAL unit after it is of type `t`. */
  predicate NalAt(buf: seq<byte>, p: nat, t: nat)
  {
    p + 4 <= |buf| && StartCodeAt(buf, p) != NoStartCode &&
    p + HeaderOffset(StartCodeAt(buf, p)) < |buf| && NalType(buf[p + HeaderOffset(StartCodeAt(buf, p))]) == t
  }

  /** What the scan has established after `rb` bytes of the unit at `bufPos`. */
  predicate ScanInv(buf: seq<byte>, fileSize: nat, bufPos: nat, rb: nat, st: ScanState)
    requires fileSize <= |buf|
  {
    StateOk(st) &&
    (st.sps.Some? ==>
      bufPos < st.sps.value < fileSize && st.sps.value <= bufPos + rb && NalType(buf[st.sps.value]) == Sps) &&
    (st.spsByteCount > 0 ==> st.sps.Some? && st.sps.value + st.spsByteCount <= bufPos + rb) &&
    (AnySeen(st.counts) ==> rb >= 4)
  }

  /**
   * What the scan has established about the SPS it recorded: it follows a
   * start code, and a non-zero byte count ends at the start code of a PPS.
   */
  predicate SpsScanned(buf: seq<byte>, bufPos: nat, st: ScanState)
  {
    (st.sps.Some? ==> SpsHeader(buf, bufPos, st.sps.value)) &&
    (st.spsByteCount > 0 ==> st.sps.Some? && NalAt(buf, st.sps.value + st.spsByteCount, Pps))
  }

  /** The scan from offset `rb` of the unit at `bufPos`: the loop of readPicture as a function. */
  function Scan(buf: seq<byte>, fileSize: nat, bufPos: nat, rb: nat, st: ScanState): (info: PictureInfo)
    requires fileSize <= |buf| && bufPos + rb <= fileSize
    requires ScanInv(buf, fileSize, bufPos, rb, st)
    decreases fileSize - bufPos - rb
  {
    var avail := fileSize - bufPos;
    if rb >= avail - 4 then PictureInfo(avail, st.sps, st.spsByteCount, None)
    else
      var p := bufPos + rb;
      var sc := StartCodeAt(buf, p);
      if sc == NoStartCode then Scan(buf, fileSize, bufPos, rb + 1, st)
      else
        var header := p + HeaderOffset(sc);
        var step := NalStep(buf, st, p, header);
        if step.close then PictureInfo(rb, step.next.sps, step.next.spsByteCount, Some(Nal(p, header, NalType(buf[header]))))
        else Scan(buf, fileSize, bufPos, rb + 4, step.next)
  }

  /** readPicture on the first `fileSize` bytes of `buf`, from `bufPos`. */
  function Picture(buf: seq<byte>, fileSize: nat, bufPos: nat): PictureInfo
    requires bufPos <= fileSize <= |buf|
  {
    if fileSize - bufPos < 4 then PictureInfo(fileSize - bufPos, None, 0, None)
    else Scan(buf, fileSize, bufPos, 0, Initial)
  }

  /** The five NAL unit types that can begin a new unit. */
  predicate ClosingType(t: nat)
  {
    t == NonIdrSlice || t == IdrSlice || t == Sps || t == Pps || t == Delimiter
  }

  /**
   * What readPicture promises about the unit at `bufPos`: it lies within the
   * available bytes; it is at least 4 bytes long whenever 4 bytes are
   * available; it is cut short only at a start code whose NAL unit is of a
   * type that begins a unit, and then more than 4 bytes are left after it.
   */
  predicate LengthOk(buf: seq<byte>, fileSize: nat, bufPos: nat, info: PictureInfo)
    requires bufPos <= fileSize <= |buf|
  {
    var avail := fileSize - bufPos;
    info.len <= avail &&
    (avail >= 4 ==> info.len >= 4) &&
    (info.closedBy.None? <==> info.len == avail) &&
    (info.closedBy.Some? ==> info.len + 4 < avail && ClosedAt(buf, bufPos + info.len, info.closedBy.value))
  }

  /** `n` is the NAL unit whose start code is at `p`, of a type that begins a unit. */
  predicate ClosedAt(buf: seq<byte>, p: nat, n: Nal)
  {
    p + 4 <= |buf| && n.start == p && StartCodeAt(buf, p) != NoStartCode &&
    n.header == p + HeaderOffset(StartCodeAt(buf, p)) && n.header < |buf| &&
    n.nalType == NalType(buf[n.header]) && ClosingType(n.nalType)
  }

  /**
   * The SPS readPicture reports is the header byte of an SPS inside the
   * unit, right after its start code; a non-zero SPS byte count, counted
   * from it, ends inside the unit at the start code of a PPS.
   */
  predicate SpsOk(buf: seq<byte>, bufPos: nat, info: PictureInfo)
  {
    (info.sps.Some? ==>
      info.sps.value < bufPos + info.len && SpsHeader(buf, bufPos, info.sps.value)) &&
    (info.spsByteCount > 0 ==>
      info.sps.Some? && info.sps.value + info.spsByteCount <= bufPos + info.len &&
      NalAt(buf, info.sps.value + info.spsByteCount, Pps))
  }

  lemma PictureFacts(buf: seq<byte>, fileSize: nat, bufPos: nat)
    requires bufPos <= fileSize <= |buf|
    ensures var info := Picture(buf, fileSize, bufPos);
      LengthOk(buf, fileSize, bufPos, info) && SpsOk(buf, bufPos, info)
  {
    if fileSize - bufPos >= 4 {
      ScanLength(buf, fileSize, bufPos, 0, Initial);
      ScanSps(buf, fileSize, bufPos, 0, Initial);
    }
  }

  lemma {:induction false} ScanLength(buf: seq<byte>, fileSize: nat, bufPos: nat, rb: nat, st: ScanState)
    requires fileSize <= |buf| && bufPos + rb <= fileSize
    requires ScanInv(buf, fileSize, bufPos, rb, st)
    requires fileSize - bufPos >= 4
    ensures var info := Scan(buf, fileSize, bufPos, rb, st);
      LengthOk(buf, fileSize, bufPos, info) && info.len >= rb
    decreases fileSize - bufPos - rb
  {
    var avail := fileSize - bufPos;
    if rb < avail - 4 {
      var p := bufPos + rb;
      var sc := StartCodeAt(buf, p);
      if sc == NoStartCode {
        ScanLength(buf, fileSize, bufPos, rb + 1, st);
      } else {
        var header := p + HeaderOffset(sc);
        var step := NalStep(buf, st, p, header);
        if step.close {
          ScanCloses(buf, fileSize, bufPos, rb, st, header, step);
          assert ClosingType(NalType(buf[header]));
          assert AnySeen(st.counts);
        } else {
          ScanPasses(buf, fileSize, bufPos, rb, st, header, step);
          ScanLength(buf, fileSize, bufPos, rb + 4, step.next);
        }
      }
    }
  }

  lemma {:induction false} ScanSps(buf: seq<byte>, fileSize: nat, bufPos: nat, rb: nat, st: ScanState)
    requires fileSize <= |buf| && bufPos + rb <= fileSize
    requires ScanInv(buf, fileSize, bufPos, rb, st) && SpsScanned(buf, bufPos, st)
    ensures SpsOk(buf, bufPos, Scan(buf, fileSize, bufPos, rb, st))
    decreases fileSize - bufPos - rb
  {
    var avail := fileSize - bufPos;
    if rb < avail - 4 {
      var p := bufPos + rb;
      var sc := StartCodeAt(buf, p);
      if sc == NoStartCode {
        ScanNoStartStep(buf, fileSize, bufPos, rb, st);
        ScanSps(buf, fileSize, bufPos, rb + 1, st);
      } else {
        var header := p + HeaderOffset(sc);
        var step := NalStep(buf, st, p, header);
        SpsStep(buf, fileSize, bufPos, rb, st, header, step);
        if step.close {
          ScanCloses(buf, fileSize, bufPos, rb, st, header, step);
        } else {
          ScanPasses(buf, fileSize, bufPos, rb, st, header, step);
          ScanSps(buf, fileSize, bufPos, rb + 4, step.next);
        }
      }
    }
  }

  /** One NAL unit keeps SpsScanned, and the SPS and its byte count end before the NAL unit's start code. */
  lemma SpsStep(buf: seq<byte>, fileSize: nat, bufPos: nat, rb: nat, st: ScanState, header: nat, step: Step)
    requires fileSize <= |buf| && bufPos + rb + 4 < fileSize
    requires ScanInv(buf, fileSize, bufPos, rb, st) && SpsScanned(buf, bufPos, st)
    requires StartCodeAt(buf, bufPos + rb) != NoStartCode
    requires header == bufPos + rb + HeaderOffset(StartCodeAt(buf, bufPos + rb))
    requires step == NalStep(buf, st, bufPos + rb, header)
    ensures SpsScanned(buf, bufPos, step.next)
    ensures step.close ==>
      (step.next.sps.Some? ==> step.next.sps.value < bufPos + rb) &&
      (step.next.spsByteCount > 0 ==> step.next.sps.Some? && step.next.sps.value + step.next.spsByteCount <= bufPos + rb)
  {
    var p := bufPos + rb;
    SpsBeforeStartCode(buf, fileSize, bufPos, rb, st);
    if NalType(buf[header]) == Sps && !step.close {
      HeaderAfterThreeByte(buf, p);
    }
    if SetsByteCount(st.counts, NalType(buf[header])) {
      assert st.sps.value + step.next.spsByteCount == p;
    }
  }

  /** A NAL header byte always follows the 3-byte form 00 00 01, whichever start code precedes it. */
  lemma HeaderAfterThreeByte(buf: seq<byte>, p: nat)
    requires p + 5 <= |buf| && StartCodeAt(buf, p) != NoStartCode
    ensures var h := p + HeaderOffset(StartCodeAt(buf, p)); h >= 3 && StartCodeAt(buf, h - 3) == ThreeByte
  {
  }

  /** One step of Scan at a byte that starts no start code. */
  lemma ScanNoStartStep(buf: seq<byte>, fileSize: nat, bufPos: nat, rb: nat, st: ScanState)
    requires fileSize <= |buf| && bufPos + rb + 4 < fileSize
    requires ScanInv(buf, fileSize, bufPos, rb, st)
    requires StartCodeAt(buf, bufPos + rb) == NoStartCode
    ensures ScanInv(buf, fileSize, bufPos, rb + 1, st)
    ensures Scan(buf, fileSize, bufPos, rb, st) == Scan(buf, fileSize, bufPos, rb + 1, st)
  {
  }

  /** At a start code, a NAL unit that begins the next unit ends the scan. */
  lemma ScanCloses(buf: seq<byte>, fileSize: nat, bufPos: nat, rb: nat, st: ScanState, header: nat, step: Step)
    requires fileSize <= |buf| && bufPos + rb + 4 < fileSize
    requires ScanInv(buf, fileSize, bufPos, rb, st)
    requires StartCodeAt(buf, bufPos + rb) != NoStartCode
    requires header == bufPos + rb + HeaderOffset(StartCodeAt(buf, bufPos + rb))
    requires step == NalStep(buf, st, bufPos + rb, header) && step.close
    ensures Scan(buf, fileSize, bufPos, rb, st) ==
      PictureInfo(rb, step.next.sps, step.next.spsByteCount, Some(Nal(bufPos + rb, header, NalType(buf[header]))))
  {
  }

  /** At a start code, a NAL unit that does not begin the next unit is passed over with its 4 bytes. */
  lemma ScanPasses(buf: seq<byte>, fileSize: nat, bufPos: nat, rb: nat, st: ScanState, header: nat, step: Step)
    requires fileSize <= |buf| && bufPos + rb + 4 < fileSize
    requires ScanInv(buf, fileSize, bufPos, rb, st)
    requires StartCodeAt(buf, bufPos + rb) != NoStartCode
    requires header == bufPos + rb + HeaderOffset(StartCodeAt(buf, bufPos + rb))
    requires step == NalStep(buf, st, bufPos + rb, header) && !step.close
    ensures ScanInv(buf, fileSize, bufPos, rb + 4, step.next)
    ensures Scan(buf, fileSize, bufPos, rb, st) == Scan(buf, fileSize, bufPos, rb + 4, step.next)
  {
  }

  /**
   * The NAL unit at a start code, with `srcSps` the pointer as the source
   * sets it there: either it ends the scan, with that pointer as
   * SourceSpsPtr reports it, or the scan goes on after its 4 bytes.
   */
  lemma ScanNal(buf: seq<byte>, fileSize: nat, bufPos: nat, rb: nat, st: ScanState, header: nat, step: Step,
                srcSps: Option<nat>)
    requires fileSize <= |buf| && bufPos + rb + 4 < fileSize
    requires ScanInv(buf, fileSize, bufPos, rb, st)
    requires StartCodeAt(buf, bufPos + rb) != NoStartCode
    requires header == bufPos + rb + HeaderOffset(StartCodeAt(buf, bufPos + rb))
    requires step == NalStep(buf, st, bufPos + rb, header)
    requires NalType(buf[header]) == Sps ==> srcSps == Some(header)
    requires NalType(buf[header]) != Sps || !step.close ==> srcSps == step.next.sps
    ensures step.close ==> var info := Scan(buf, fileSize, bufPos, rb, st);
      info.len == rb && info.sps == step.next.sps && info.spsByteCount == step.next.spsByteCount &&
      srcSps == SourceSpsPtr(info)
    ensures !step.close ==>
      ScanInv(buf, fileSize, bufPos, rb + 4, step.next) &&
      Scan(buf, fileSize, bufPos, rb, st) == Scan(buf, fileSize, bufPos, rb + 4, step.next) && srcSps == step.next.sps
  {
    if step.close {
      ScanCloses(buf, fileSize, bufPos, rb, st, header, step);
    } else {
      ScanPasses(buf, fileSize, bufPos, rb, st, header, step);
    }
  }

  /** The SPS pointer lies before any start code the scan meets. */
  lemma SpsBeforeStartCode(buf: seq<byte>, fileSize: nat, bufPos: nat, rb: nat, st: ScanState)
    requires fileSize <= |buf| && bufPos + rb + 4 < fileSize
    requires ScanInv(buf, fileSize, bufPos, rb, st)
    requires StartCodeAt(buf, bufPos + rb) != NoStartCode
    ensures st.sps.Some? ==> st.sps.value < bufPos + rb
  {
  }

  /**
   * readPicture. The source's test `read_bytes >= bytes_available - 4` after
   * a start code repeats the loop condition and never holds, so it is not
   * written here. `srcSps` is `pSpsBuf` as the source leaves it; `sps` is
   * the unit's own SPS.
   */
  method ReadPicture(buf: seq<byte>, fileSize: nat, bufPos: nat)
    returns (len: nat, sps: Option<nat>, spsByteCount: nat, srcSps: Option<nat>)
    requires bufPos <= fileSize <= |buf|
    ensures var info := Picture(buf, fileSize, bufPos);
      len == info.len && sps == info.sps && spsByteCount == info.spsByteCount && srcSps == SourceSpsPtr(info)
  {
    var avail := fileSize - bufPos;
    if avail < 4 {
      return avail, None, 0, None;
    }
    var p := bufPos;
    var rb: nat := 0;
    var counts := Counts(0, 0, 0, 0, 0);
    sps, spsByteCount := None, 0;
    srcSps := None;
    while rb < avail - 4
      invariant p == bufPos + rb && bufPos + rb <= fileSize
      invariant srcSps == sps
      invariant ScanInv(buf, fileSize, bufPos, rb, ScanState(counts, sps, spsByteCount))
      invariant Scan(buf, fileSize, bufPos, rb, ScanState(counts, sps, spsByteCount)) == Picture(buf, fileSize, bufPos)
      decreases avail - rb
    {
      var has4 := buf[p] == 0 && buf[p + 1] == 0 && buf[p + 2] == 0 && buf[p + 3] == 1;
      var has3 := false;
      if !has4 {
        has3 := buf[p] == 0 && buf[p + 1] == 0 && buf[p + 2] == 1;
      }
      if has4 || has3 {
        var header := p + (if has4 then 4 else 3);
        ghost var st := ScanState(counts, sps, spsByteCount);
        SpsBeforeStartCode(buf, fileSize, bufPos, rb, st);
        var close;
        close, counts, sps, spsByteCount, srcSps := ReadNal(buf, counts, sps, spsByteCount, p, header);
        ScanNal(buf, fileSize, bufPos, rb, st, header, Step(close, ScanState(counts, sps, spsByteCount)), srcSps);
        if close {
          return rb, sps, spsByteCount, srcSps;
        }
        rb := rb + 4;
        p := p + 4;
      } else {
        ScanNoStartStep(buf, fileSize, bufPos, rb, ScanState(counts, sps, spsByteCount));
        p := p + 1;
        rb := rb + 1;
      }
    }
    return avail, sps, spsByteCount, srcSps;
  }

  /**
   * The body of readPicture's loop for one NAL unit: count it, decide
   * whether it begins the next unit and update the SPS pointer and byte
   * count. `srcSps` is `pSpsBuf`, set at every SPS before the two tests that
   * can end the unit there; the unit's own SPS `sps` is set only after them.
   */
  method ReadNal(buf: seq<byte>, counts0: Counts, sps0: Option<nat>, spsByteCount0: nat, p: nat, header: nat)
    returns (close: bool, counts: Counts, sps: Option<nat>, spsByteCount: nat, srcSps: Option<nat>)
    requires p < header < |buf| && StateOk(ScanState(counts0, sps0, spsByteCount0))
    requires sps0.Some? ==> sps0.value < p
    ensures Step(close, ScanState(counts, sps, spsByteCount)) ==
      NalStep(buf, ScanState(counts0, sps0, spsByteCount0), p, header)
    ensures NalType(buf[header]) == Sps ==> srcSps == Some(header)
    ensures NalType(buf[header]) != Sps ==> srcSps == sps0
    ensures NalType(buf[header]) != Sps || !close ==> srcSps == sps
  {
    counts, sps, spsByteCount, srcSps := counts0, sps0, spsByteCount0, sps0;
    close := false;
    var t := NalType(buf[header]);
    FirstMbZeroMeansFirstMb(buf, header);
    if t == NonIdrSlice {
      var first := ReadFirstMbInSlice(buf, header);
      counts := counts.(nonIdr := counts.nonIdr + 1);
      if counts.nonIdr >= 1 && counts.idr >= 1 && first == Ok(0) {
        close := true;
      }
    } else if t == IdrSlice {
      var first := ReadFirstMbInSlice(buf, header);
      counts := counts.(idr := counts.idr + 1);
      if counts.idr >= 1 && counts.nonIdr >= 1 && first == Ok(0) {
        close := true;
      } else if counts.idr >= 2 && first == Ok(0) {
        close := true;
      }
    } else if t == Sps {
      srcSps := Some(header);
      counts := counts.(sps := counts.sps + 1);
      if counts.sps >= 1 && (counts.nonIdr >= 1 || counts.idr >= 1) {
        close := true;
      } else if counts.sps == 2 {
        close := true;
      } else {
        sps := Some(header);
      }
    } else if t == Pps {
      counts := counts.(pps := counts.pps + 1);
      if counts.pps == 1 && counts.sps == 1 {
        spsByteCount := p - srcSps.value;
      }
      if counts.pps >= 1 && (counts.nonIdr >= 1 || counts.idr >= 1) {
        close := true;
      }
    } else if t == Delimiter {
      counts := counts.(delimiters := counts.delimiters + 1);
      if counts.delimiters == 2 {
        close := true;
      }
    }
  }

  /**
   * The SPS pointer as the source's readPicture leaves it: it is set at
   * every SPS it meets, before the tests that end the unit, so an SPS that
   * begins the next unit overwrites the SPS pointer to the unit's own SPS.
   * The `srcSps` output of ReadPicture, set as the source sets it, is this.
   */
  function SourceSpsPtr(info: PictureInfo): Option<nat>
  {
    if info.closedBy.Some? && info.closedBy.value.nalType == Sps then Some(info.closedBy.value.header)
    else info.sps
  }

  /** Whenever it differs from the unit's own SPS, the source's pointer lies past the end of the unit. */
  lemma SourceSpsPtrOutsideUnit(buf: seq<byte>, fileSize: nat, bufPos: nat)
    requires bufPos <= fileSize <= |buf|
    ensures var info := Picture(buf, fileSize, bufPos);
      SourceSpsPtr(info) != info.sps ==>
        SourceSpsPtr(info).Some? && SourceSpsPtr(info).value > bufPos + info.len
  {
    PictureFacts(buf, fileSize, bufPos);
  }
}
