/**
 * The byte-at-a-time framer of the decoder test harness (ReadFrame) and the
 * status machine on top of it. The input file is a byte stream with a
 * position and a fail state; the frame buffer is a growable byte buffer
 * whose allocation can fail, modelled as a fixed capacity. A unit ends just
 * before the first 00 00 00 01 that begins at least 4 bytes into it.
 */
module StreamFramer {
  import opened Common

  /** The input file: its bytes, whether it can seek, the read position and the stream's fail state. */
  class ByteStream {
    const data: seq<byte>
    const seekable: bool
    var pos: nat
    var failed: bool

    predicate Valid()
      reads this
    {
      pos <= |data|
    }

    constructor (data: seq<byte>, seekable: bool)
      ensures Valid() && this.data == data && this.seekable == seekable && pos == 0 && !failed
    {
      this.data := data;
      this.seekable := seekable;
      pos := 0;
      failed := false;
    }

    /** read of one byte: the next byte, or nothing (and the fail state) at the end of the data or once failed. */
    method Read() returns (b: Option<byte>)
      requires Valid()
      modifies this
      ensures Valid()
      ensures if !old(failed) && old(pos) < |data| then b == Some(data[old(pos)]) && pos == old(pos) + 1 && !failed
              else b.None? && pos == old(pos) && failed
    {
      if failed || pos >= |data| {
        failed := true;
        return None;
      }
      b := Some(data[pos]);
      pos := pos + 1;
    }

    /** seekg of n bytes backwards from the current position; a failure sets the fail state. */
    method SeekBack(n: nat) returns (good: bool)
      requires Valid()
      modifies this
      ensures Valid()
      ensures good == (seekable && !old(failed) && n <= old(pos))
      ensures good ==> pos == old(pos) - n && !failed
      ensures !good ==> pos == old(pos) && failed
    {
      good := seekable && !failed && n <= pos;
      if good {
        pos := pos - n;
      } else {
        failed := true;
      }
    }
  }

  /** The frame buffer: its bytes, and the number of bytes it can hold before an append fails. */
  class Buffer {
    const limit: nat
    var data: seq<byte>

    constructor (limit: nat)
      ensures this.limit == limit && data == []
    {
      this.limit := limit;
      data := [];
    }

    method Clear()
      modifies this
      ensures data == []
    {
      data := [];
    }

    /** Appends b, unless the buffer is full. */
    method PushBack(b: byte) returns (ok: bool)
      modifies this
      ensures ok == (|old(data)| < limit)
      ensures data == if ok then old(data) + [b] else old(data)
    {
      ok := |data| < limit;
      if ok {
        data := data + [b];
      }
    }

    function Length(): nat
      reads this
    {
      |data|
    }

    /** Shortens the buffer to its first n bytes. */
    method SetLength(n: nat)
      requires n <= |data|
      modifies this
      ensures data == old(data)[..n]
    {
      data := data[..n];
    }
  }

  predicate StartCode4At(data: seq<byte>, m: nat)
    requires m + 4 <= |data|
  {
    data[m] == 0 && data[m + 1] == 0 && data[m + 2] == 0 && data[m + 3] == 1
  }

  /** The first position from m on at which a 00 00 00 01 begins, or the end of the data. */
  function FrameEndFrom(data: seq<byte>, m: nat): (q: nat)
    ensures q == |data| || (m <= q && q + 4 <= |data|)
    decreases |data| - m
  {
    if m + 4 > |data| then |data|
    else if StartCode4At(data, m) then m
    else FrameEndFrom(data, m + 1)
  }

  /** Where the unit read from `start` ends: the first 00 00 00 01 beginning 4 or more bytes after start. */
  function FrameEnd(data: seq<byte>, start: nat): nat
  {
    FrameEndFrom(data, start + 4)
  }

  lemma {:induction false} FrameEndFromLeast(data: seq<byte>, m: nat)
    ensures var q := FrameEndFrom(data, m);
      (q < |data| ==> StartCode4At(data, q)) &&
      forall j :: m <= j < q && j + 4 <= |data| ==> !StartCode4At(data, j)
    decreases |data| - m
  {
    if m + 4 <= |data| && !StartCode4At(data, m) {
      FrameEndFromLeast(data, m + 1);
    }
  }

  /**
   * The unit ends at the first 00 00 00 01 that begins at least 4 bytes
   * after its start, or at the end of the data when there is none.
   */
  lemma FrameEndLeast(data: seq<byte>, start: nat)
    requires start <= |data|
    ensures var q := FrameEnd(data, start);
      start <= q <= |data| &&
      (q < |data| ==> start + 4 <= q && q + 4 <= |data| && StartCode4At(data, q)) &&
      forall m :: start + 4 <= m < q && m + 4 <= |data| ==> !StartCode4At(data, m)
  {
    FrameEndFromLeast(data, start + 4);
  }

  /** What one ReadFrame does: its result, the buffered bytes, and the stream's new position and fail state. */
  datatype FrameOutcome = FrameOutcome(ok: bool, unit: seq<byte>, pos: nat, failed: bool)

  /**
   * ReadFrame from position start of data. A failed stream reads nothing.
   * Otherwise the bytes up to the end of the unit, and then the 4 bytes of
   * the start code that ends it, are appended one by one: if the buffer
   * fills up before, the result is false; at the end of the data the result
   * is true with the bytes read; at a start code the stream seeks back over
   * it and the buffer is shortened by 4, or, if that seek fails, the result
   * is false.
   */
  function ReadFrameSpec(data: seq<byte>, start: nat, failed: bool, limit: nat, seekable: bool): (r: FrameOutcome)
    requires start <= |data|
    ensures r.pos <= |data|
    ensures r.ok && |r.unit| > 0 ==> start < r.pos
  {
    if failed then FrameOutcome(true, [], start, true)
    else
      var q := FrameEnd(data, start);
      var need := if q < |data| then q + 4 - start else |data| - start;
      if limit < need then FrameOutcome(false, data[start..start + limit], start + limit + 1, false)
      else if q == |data| then FrameOutcome(true, data[start..], |data|, true)
      else if !seekable then FrameOutcome(false, data[start..q + 4], q + 4, true)
      else FrameOutcome(true, data[start..q], q, false)
  }

  /** The zero bytes just before position p, counting none before lo. */
  function TrailingZeros(data: seq<byte>, lo: nat, p: nat): nat
    requires p <= |data|
    decreases p
  {
    if p <= lo || data[p - 1] != 0 then 0 else 1 + TrailingZeros(data, lo, p - 1)
  }

  lemma TrailingZerosThree(data: seq<byte>, lo: nat, p: nat)
    requires p <= |data|
    ensures TrailingZeros(data, lo, p) >= 3 <==>
      lo + 3 <= p && data[p - 1] == 0 && data[p - 2] == 0 && data[p - 3] == 0
  {
    if p > lo && data[p - 1] == 0 {
      if p - 1 > lo && data[p - 2] == 0 {
        assert TrailingZeros(data, lo, p - 1) == 1 + TrailingZeros(data, lo, p - 2);
      }
    }
  }

  /** The end of the data reached with no 00 00 00 01 past the first 4 bytes, and the buffer never full. */
  lemma EndOfDataOutcome(data: seq<byte>, start: nat, limit: nat, seekable: bool)
    requires start <= |data| && |data| - start <= limit && NoStartCodeYet(data, start, |data|)
    ensures ReadFrameSpec(data, start, false, limit, seekable) == FrameOutcome(true, data[start..], |data|, true)
  {
    FrameEndLeast(data, start);
  }

  /** The buffer full when the byte at p is read, with no 00 00 00 01 past the first 4 bytes before p. */
  lemma FullOutcome(data: seq<byte>, start: nat, p: nat, limit: nat, seekable: bool)
    requires start <= p < |data| && p - start == limit && NoStartCodeYet(data, start, p)
    ensures ReadFrameSpec(data, start, false, limit, seekable) == FrameOutcome(false, data[start..p], p + 1, false)
  {
    FrameEndLeast(data, start);
  }

  /** The first 00 00 00 01 past the first 4 bytes begins at q, and its last byte fits in the buffer. */
  lemma BoundaryOutcome(data: seq<byte>, start: nat, q: nat, limit: nat, seekable: bool)
    requires start + 4 <= q && q + 4 <= |data| && StartCode4At(data, q) && q + 4 - start <= limit
    requires NoStartCodeYet(data, start, q + 3)
    ensures ReadFrameSpec(data, start, false, limit, seekable) ==
      if seekable then FrameOutcome(true, data[start..q], q, false)
      else FrameOutcome(false, data[start..q + 4], q + 4, true)
  {
    FrameEndLeast(data, start);
  }

  /** No 00 00 00 01 begins past the first 4 bytes of the unit read from start and ends before p. */
  predicate NoStartCodeYet(data: seq<byte>, start: nat, p: nat)
    requires p <= |data|
  {
    forall m :: start + 4 <= m && m + 4 <= p ==> !StartCode4At(data, m)
  }

  /** What ReadFrame knows after reading up to p: no start code yet, and the zero run before p as the counter. */
  predicate Scanned(data: seq<byte>, start: nat, p: nat, zeroCount: nat)
    requires p <= |data|
  {
    NoStartCodeYet(data, start, p) && zeroCount == Min(3, TrailingZeros(data, start + 4, p))
  }

  lemma SliceGrows(data: seq<byte>, start: nat, p: nat)
    requires start <= p < |data|
    ensures data[start..p] + [data[p]] == data[start..p + 1]
  {
  }

  /** Within the first 4 bytes of the unit the zero counter stays at 0. */
  lemma CounterIdle(data: seq<byte>, start: nat, p: nat)
    requires start <= p < start + 4 && p < |data|
    requires NoStartCodeYet(data, start, p)
    ensures Scanned(data, start, p + 1, 0)
  {
  }

  /** What the zero counter does with a byte past the first 4: recognise a start code, or count on. */
  datatype CounterStep = StartCode | Zeros(count: nat)

  /**
   * Below 3 the counter counts zero bytes and drops to 0 on any other; at 3
   * a 01 is a start code, a zero keeps it at 3 and any other byte resets it.
   */
  function CountStep(zeroCount: nat, b: byte): CounterStep
  {
    if zeroCount < 3 then Zeros(if b != 0 then 0 else zeroCount + 1)
    else if b == 1 then StartCode
    else if b == 0 then Zeros(3)
    else Zeros(0)
  }

  /**
   * With the counter holding the run of zero bytes before p (up to 3) and no
   * 00 00 00 01 begun past the first 4 bytes: the byte at p completes a start
   * code exactly when one begins at p - 3, past the first 4 bytes; otherwise
   * the new count is the run of zero bytes before p + 1.
   */
  lemma CounterMeaning(data: seq<byte>, start: nat, p: nat, z: nat)
    requires start + 4 <= p < |data|
    requires Scanned(data, start, p, z)
    ensures CountStep(z, data[p]).StartCode? <==> start + 7 <= p && StartCode4At(data, p - 3)
    ensures CountStep(z, data[p]).Zeros? ==> Scanned(data, start, p + 1, CountStep(z, data[p]).count)
  {
    TrailingZerosThree(data, start + 4, p);
  }

  /**
   * The end of ReadFrame at a start code that begins at q, past the first 4
   * bytes of the unit read from start: seek back over its 4 bytes and drop
   * them from the buffer, or report the failed seek.
   */
  method CloseUnit(file: ByteStream, buf: Buffer, ghost start: nat, ghost q: nat) returns (ok: bool)
    requires start + 4 <= q && q + 4 - start <= buf.limit
    requires file.Valid() && !file.failed && file.pos == q + 4 && buf.data == file.data[start..q + 4]
    requires StartCode4At(file.data, q) && NoStartCodeYet(file.data, start, q + 3)
    modifies file, buf
    ensures file.Valid()
    ensures FrameOutcome(ok, buf.data, file.pos, file.failed) ==
      ReadFrameSpec(file.data, start, false, buf.limit, file.seekable)
  {
    BoundaryOutcome(file.data, start, q, buf.limit, file.seekable);
    var good := file.SeekBack(4);
    if good {
      buf.SetLength(buf.Length() - 4);
      return true;
    } else {
      return false;
    }
  }

  /**
   * ReadFrame: clear the buffer, then read and append one byte at a time.
   * Past the first 4 bytes a zero counter tracks the run of zero bytes (up
   * to 3); a 01 after three zeros is a start code, which ends the unit.
   */
  method ReadFrame(file: ByteStream, buf: Buffer) returns (ok: bool)
    requires file.Valid()
    modifies file, buf
    ensures file.Valid()
    ensures FrameOutcome(ok, buf.data, file.pos, file.failed) ==
      ReadFrameSpec(file.data, old(file.pos), old(file.failed), buf.limit, file.seekable)
  {
    ghost var start := file.pos;
    ghost var data := file.data;
    var zeroCount: nat := 0;
    buf.Clear();
    while true
      invariant file.Valid() && start <= file.pos
      invariant file.failed == old(file.failed) && (file.failed ==> file.pos == start)
      invariant buf.data == data[start..file.pos] && |buf.data| <= buf.limit
      invariant Scanned(data, start, file.pos, zeroCount)
      decreases |data| - file.pos
    {
      ghost var p := file.pos;
      var b := file.Read();
      if b.None? {
        if !old(file.failed) {
          EndOfDataOutcome(data, start, buf.limit, file.seekable);
        }
        return true;
      }
      var pushed := buf.PushBack(b.value);
      if !pushed {
        FullOutcome(data, start, p, buf.limit, file.seekable);
        return false;
      }
      SliceGrows(data, start, p);
      if buf.Length() <= 4 {
        CounterIdle(data, start, p);
        continue;
      }
      CounterMeaning(data, start, p, zeroCount);
      var step := CountStep(zeroCount, b.value);
      if step.StartCode? {
        ok := CloseUnit(file, buf, start, p - 3);
        return;
      }
      zeroCount := step.count;
    }
  }

  /**
   * What one ReadFrame returns: the bytes it read in order from start; when
   * it stops at a start code, a unit of at least 4 bytes, and the stream
   * left at the start code; no 00 00 00 01 inside a returned unit past its
   * first 4 bytes; an empty unit exactly at the end of the data, where the
   * result is true.
   */
  lemma ReadFrameFacts(data: seq<byte>, start: nat, limit: nat, seekable: bool)
    requires start <= |data|
    ensures var r := ReadFrameSpec(data, start, false, limit, seekable);
      start + |r.unit| <= |data| && r.unit == data[start..start + |r.unit|] &&
      (r.ok && r.pos < |data| ==>
        r.pos == start + |r.unit| && |r.unit| >= 4 && StartCode4At(data, r.pos) && !r.failed) &&
      (r.ok ==> forall m :: 4 <= m && m + 4 <= |r.unit| ==> !StartCode4At(r.unit, m)) &&
      (start == |data| <==> r.ok && |r.unit| == 0)
  {
    FrameEndLeast(data, start);
    var r := ReadFrameSpec(data, start, false, limit, seekable);
    if r.ok {
      NoStartCodeInside(data, start, start + |r.unit|);
    }
  }

  lemma NoStartCodeInside(data: seq<byte>, start: nat, e: nat)
    requires start <= e <= |data|
    requires forall m :: start + 4 <= m < e && m + 4 <= |data| ==> !StartCode4At(data, m)
    ensures forall m :: 4 <= m && m + 4 <= e - start ==> !StartCode4At(data[start..e], m)
  {
    forall m | 4 <= m && m + 4 <= e - start
      ensures !StartCode4At(data[start..e], m)
    {
      assert !StartCode4At(data, start + m);
    }
  }

  /** What a run of ReadFrame calls gives: whether they all succeeded, and the non-empty units, in order. */
  datatype SessionResult = SessionResult(ok: bool, units: seq<seq<byte>>)

  /**
   * ReadFrame called until it fails or returns an empty unit, from position
   * start of data and the given fail state.
   */
  function Session(data: seq<byte>, start: nat, failed: bool, limit: nat, seekable: bool): SessionResult
    requires start <= |data|
    decreases |data| - start
  {
    var o := ReadFrameSpec(data, start, failed, limit, seekable);
    if !o.ok then SessionResult(false, [])
    else if |o.unit| == 0 then SessionResult(true, [])
    else
      var rest := Session(data, o.pos, o.failed, limit, seekable);
      SessionResult(rest.ok, [o.unit] + rest.units)
  }

  function Concat(units: seq<seq<byte>>): seq<byte>
    decreases |units|
  {
    if |units| == 0 then [] else units[0] + Concat(units[1..])
  }

  /**
   * One ReadFrame on a seekable stream with a buffer that can hold the rest
   * of the data: it succeeds with the bytes up to its new position; the
   * stream is left failed only at the end of the data; the unit is empty
   * only when nothing was left, and at least 4 bytes long when 4 were left.
   */
  lemma FrameWhenRoomy(data: seq<byte>, start: nat, limit: nat)
    requires start <= |data| && |data| - start <= limit
    ensures var o := ReadFrameSpec(data, start, false, limit, true);
      o.ok && start <= o.pos && o.unit == data[start..o.pos] &&
      (o.failed ==> o.pos == |data|) &&
      (start < |data| ==> |o.unit| > 0) &&
      (|data| - start >= 4 ==> |o.unit| >= 4) &&
      (o.pos < |data| ==> StartCode4At(data, o.pos))
  {
    FrameEndLeast(data, start);
  }

  /** Every unit is non-empty, every unit but the last is at least 4 bytes long, and every unit but the first begins with 00 00 00 01. */
  predicate UnitsShape(us: seq<seq<byte>>)
  {
    (forall i :: 0 <= i < |us| ==> |us[i]| > 0) &&
    (forall i :: 0 <= i < |us| - 1 ==> |us[i]| >= 4) &&
    (forall i :: 0 < i < |us| ==> |us[i]| >= 4 && StartCode4At(us[i], 0))
  }

  lemma UnitsShapeCons(u: seq<byte>, us: seq<seq<byte>>)
    requires |u| > 0 && UnitsShape(us)
    requires |us| > 0 ==> |u| >= 4 && |us[0]| >= 4 && StartCode4At(us[0], 0)
    ensures UnitsShape([u] + us) && Concat([u] + us) == u + Concat(us)
  {
    assert ([u] + us)[1..] == us;
    forall i | 0 < i < |[u] + us|
      ensures ([u] + us)[i] == us[i - 1]
    {
    }
  }

  lemma SliceSplit(data: seq<byte>, a: nat, b: nat)
    requires a <= b <= |data|
    ensures data[a..] == data[a..b] + data[b..]
  {
  }

  lemma StartCodeOpensSlice(data: seq<byte>, a: nat, b: nat)
    requires a + 4 <= b <= |data| && StartCode4At(data, a)
    ensures StartCode4At(data[a..b], 0)
  {
  }

  /**
   * On a seekable stream and a buffer that can hold the whole data, the
   * units read from start succeed and reproduce the data from start
   * exactly; none is empty; every unit but the last is at least 4 bytes
   * long, and every unit but the first begins with 00 00 00 01.
   */
  lemma {:induction false} SessionCovers(data: seq<byte>, start: nat, limit: nat)
    requires start <= |data| && |data| - start <= limit
    ensures var r := Session(data, start, false, limit, true);
      r.ok && Concat(r.units) == data[start..] && UnitsShape(r.units)
    decreases |data| - start
  {
    var o := ReadFrameSpec(data, start, false, limit, true);
    FrameWhenRoomy(data, start, limit);
    if |o.unit| > 0 {
      var rest := Session(data, o.pos, o.failed, limit, true);
      if o.failed {
        assert rest == SessionResult(true, []);
      } else {
        SessionCovers(data, o.pos, limit);
        if o.pos < |data| {
          var o2 := ReadFrameSpec(data, o.pos, false, limit, true);
          FrameWhenRoomy(data, o.pos, limit);
          StartCodeOpensSlice(data, o.pos, o2.pos);
        }
      }
      UnitsShapeCons(o.unit, rest.units);
      SliceSplit(data, start, o.pos);
    }
  }

  /**
   * DecodeFile with the decoder abstracted: open the file (or fail), then
   * read units until ReadFrame fails or returns an empty unit, handing each
   * non-empty unit to the decoder. The result is false when the file does
   * not open or a ReadFrame fails; the units are those handed over.
   */
  method DecodeFile(opens: bool, contents: seq<byte>, seekable: bool, limit: nat)
    returns (ok: bool, units: seq<seq<byte>>)
    ensures SessionResult(ok, units) ==
      if opens then Session(contents, 0, false, limit, seekable) else SessionResult(false, [])
  {
    if !opens {
      return false, [];
    }
    var file := new ByteStream(contents, seekable);
    var buf := new Buffer(limit);
    units := [];
    ghost var whole := Session(contents, 0, false, limit, seekable);
    while true
      invariant file.Valid() && file.data == contents && file.seekable == seekable && buf.limit == limit
      invariant var rest := Session(contents, file.pos, file.failed, limit, seekable);
        whole == SessionResult(rest.ok, units + rest.units)
      decreases |contents| - file.pos
    {
      ghost var rest := Session(contents, file.pos, file.failed, limit, seekable);
      var read := ReadFrame(file, buf);
      if !read {
        assert units + rest.units == units;
        return false, units;
      }
      if buf.Length() == 0 {
        assert units + rest.units == units;
        break;
      }
      ghost var next := Session(contents, file.pos, file.failed, limit, seekable);
      assert rest.units == [buf.data] + next.units;
      ConcatAssoc(units, [buf.data], next.units);
      units := units + [buf.data];
    }
    ok := true;
  }

  lemma ConcatAssoc<T>(a: seq<T>, b: seq<T>, c: seq<T>)
    ensures (a + b) + c == a + (b + c)
  {
  }

  /** The test's decoding status (decodeStatus_). */
  datatype Status = OpenFile | Decoding | EndOfStream | End

  /**
   * The test fixture with the decoder abstracted: its status, its input
   * file and frame buffer, the units handed to the decoder, and whether the
   * end of the stream has been signalled to it.
   */
  class DecoderTest {
    var status: Status
    var file: ByteStream
    var buf: Buffer
    var decoded: seq<seq<byte>>
    var ended: bool

    predicate Valid()
      reads this, file
    {
      file.Valid()
    }

    constructor (limit: nat)
      ensures Valid() && status == OpenFile && decoded == [] && !ended
      ensures fresh(file) && fresh(buf) && buf.limit == limit && buf.data == []
    {
      status := OpenFile;
      file := new ByteStream([], false);
      buf := new Buffer(limit);
      decoded := [];
      ended := false;
    }

    /** Open: from OpenFile, and only when the file opens, start decoding it. */
    method Open(opens: bool, contents: seq<byte>, seekable: bool) returns (ok: bool)
      requires Valid()
      modifies this
      ensures Valid() && buf == old(buf) && decoded == old(decoded) && ended == old(ended)
      ensures ok == (old(status) == OpenFile && opens)
      ensures ok ==> status == Decoding && fresh(file)
      ensures ok ==> file.data == contents && file.seekable == seekable && file.pos == 0 && !file.failed
      ensures !ok ==> status == old(status) && file == old(file)
    {
      ok := false;
      if status == OpenFile {
        if opens {
          file := new ByteStream(contents, seekable);
          status := Decoding;
          ok := true;
        }
      }
    }

    /**
     * DecodeNextFrame: while decoding, read a unit; a failed read gives
     * false, an empty unit moves to EndOfStream, any other unit goes to the
     * decoder. At EndOfStream the end is signalled and the status becomes
     * End, with false. In OpenFile and End nothing happens and the result is
     * false.
     */
    method DecodeNextFrame() returns (ok: bool)
      requires Valid()
      modifies this, file, buf
      ensures Valid() && file == old(file) && buf == old(buf)
      ensures old(status) == Decoding ==>
        var o := ReadFrameSpec(file.data, old(file.pos), old(file.failed), buf.limit, file.seekable);
        FrameOutcome(ok, buf.data, file.pos, file.failed) == o && ended == old(ended) &&
        status == (if o.ok && |o.unit| == 0 then EndOfStream else Decoding) &&
        decoded == old(decoded) + (if o.ok && |o.unit| > 0 then [o.unit] else [])
      ensures old(status) == EndOfStream ==>
        !ok && status == End && ended && decoded == old(decoded) && unchanged(file, buf)
      ensures old(status) == OpenFile || old(status) == End ==>
        !ok && status == old(status) && ended == old(ended) && decoded == old(decoded) && unchanged(file, buf)
    {
      match status {
        case Decoding =>
          var read := ReadFrame(file, buf);
          if !read {
            return false;
          }
          if buf.Length() == 0 {
            status := EndOfStream;
            return true;
          }
          decoded := decoded + [buf.data];
          return true;
        case EndOfStream =>
          ended := true;
          status := End;
        case OpenFile =>
        case End =>
      }
      return false;
    }
  }
}
