/**
 * The sequence-change tracker of the console decoder's driver loop. Before
 * a unit is submitted, the SPS bytes readPicture found in it are compared
 * with a 32-byte snapshot of the last SPS; if they differ, the decoder is
 * flushed. Afterwards the snapshot is overwritten with the new SPS bytes,
 * at most 32 of them.
 */
module SequenceTracker {
  import opened Common

  const SnapshotSize: nat := 32

  /** The snapshot array's contents and the number of SPS bytes stored in its front. */
  datatype Snapshot = Snapshot(bytes: seq<byte>, count: nat)

  predicate Valid(s: Snapshot)
  {
    |s.bytes| == SnapshotSize && s.count <= SnapshotSize
  }

  /** The SPS bytes of a unit: `count` bytes from the SPS header position `ptr`. */
  predicate SpsInBuffer(buf: seq<byte>, ptr: Option<nat>, count: nat)
  {
    count > 0 ==> ptr.Some? && ptr.value + count <= |buf|
  }

  /**
   * The driver flushes when both the stored and the new count are positive
   * and the new count differs from the stored one or, the counts being
   * equal, the new SPS bytes differ from the stored ones.
   */
  predicate NeedsFlush(s: Snapshot, buf: seq<byte>, ptr: Option<nat>, count: nat)
    requires Valid(s) && SpsInBuffer(buf, ptr, count)
  {
    s.count > 0 && count > 0 &&
    (count != s.count || buf[ptr.value..ptr.value + s.count] != s.bytes[..s.count])
  }

  /**
   * The snapshot after a unit: when the unit has SPS bytes, its first
   * min(count, 32) bytes replace the front of the snapshot and become its
   * count; otherwise the snapshot is unchanged.
   */
  function Store(s: Snapshot, buf: seq<byte>, ptr: Option<nat>, count: nat): (r: Snapshot)
    requires Valid(s) && SpsInBuffer(buf, ptr, count)
    ensures Valid(r)
    ensures count > 0 && ptr.Some? ==>
      r.count == Min(count, SnapshotSize) && r.bytes[..r.count] == buf[ptr.value..ptr.value + r.count] &&
      r.bytes[r.count..] == s.bytes[r.count..]
    ensures !(count > 0 && ptr.Some?) ==> r == s
  {
    if count > 0 && ptr.Some? then
      var c := Min(count, SnapshotSize);
      Snapshot(buf[ptr.value..ptr.value + c] + s.bytes[c..], c)
    else s
  }

  /** For an SPS of at most 32 bytes, the flush happens exactly when the stored bytes are not the new SPS. */
  lemma FlushIffChanged(s: Snapshot, buf: seq<byte>, ptr: Option<nat>, count: nat)
    requires Valid(s) && SpsInBuffer(buf, ptr, count)
    requires s.count > 0 && count > 0
    ensures NeedsFlush(s, buf, ptr, count) <==> buf[ptr.value..ptr.value + count] != s.bytes[..s.count]
  {
    if count != s.count {
      assert |buf[ptr.value..ptr.value + count]| != |s.bytes[..s.count]|;
    }
  }

  /** Repeating an SPS of at most 32 bytes, wherever it lies, causes no flush. */
  lemma RepeatNoFlush(s: Snapshot, buf: seq<byte>, ptr: nat, count: nat, buf2: seq<byte>, ptr2: nat)
    requires Valid(s) && 0 < count <= SnapshotSize
    requires ptr + count <= |buf| && ptr2 + count <= |buf2|
    requires buf2[ptr2..ptr2 + count] == buf[ptr..ptr + count]
    ensures !NeedsFlush(Store(s, buf, Some(ptr), count), buf2, Some(ptr2), count)
  {
    var r := Store(s, buf, Some(ptr), count);
    assert r.count == count;
  }

  /**
   * The new count is compared uncapped against the capped stored one: once
   * an SPS longer than 32 bytes is stored, every later SPS longer than 32
   * bytes causes a flush, even an identical one.
   */
  lemma LongSpsAlwaysFlushes(s: Snapshot, buf: seq<byte>, ptr: nat, count: nat,
                             buf2: seq<byte>, ptr2: nat, count2: nat)
    requires Valid(s) && count > SnapshotSize && count2 > SnapshotSize
    requires ptr + count <= |buf| && ptr2 + count2 <= |buf2|
    ensures NeedsFlush(Store(s, buf, Some(ptr), count), buf2, Some(ptr2), count2)
  {
    var r := Store(s, buf, Some(ptr), count);
    assert r.count == SnapshotSize;
  }

  /** memcmp of the first n bytes, the stored ones against those at ptr. */
  method BytesEqual(a: array<byte>, buf: seq<byte>, ptr: nat, n: nat) returns (equal: bool)
    requires n <= a.Length && ptr + n <= |buf|
    ensures equal <==> buf[ptr..ptr + n] == a[..n]
  {
    var i := 0;
    while i < n
      invariant i <= n
      invariant forall j :: 0 <= j < i ==> buf[ptr + j] == a[j]
    {
      if buf[ptr + i] != a[i] {
        assert buf[ptr..ptr + n][i] != a[..n][i];
        return false;
      }
      i := i + 1;
    }
    assert buf[ptr..ptr + n] == a[..n] by {
      forall j | 0 <= j < n
        ensures buf[ptr..ptr + n][j] == a[..n][j]
      {
        assert buf[ptr + j] == a[j];
      }
    }
    return true;
  }

  /** memcpy of n bytes from ptr into the front of the array. */
  method CopyBytes(a: array<byte>, buf: seq<byte>, ptr: nat, n: nat)
    requires n <= a.Length && ptr + n <= |buf|
    modifies a
    ensures a[..] == buf[ptr..ptr + n] + old(a[..])[n..]
  {
    ghost var before := a[..];
    var i := 0;
    while i < n
      invariant i <= n
      invariant forall j :: 0 <= j < i ==> a[j] == buf[ptr + j]
      invariant forall j :: i <= j < a.Length ==> a[j] == before[j]
    {
      a[i] := buf[ptr + i];
      i := i + 1;
    }
    assert a[..] == buf[ptr..ptr + n] + before[n..] by {
      forall j | 0 <= j < a.Length
        ensures a[..][j] == (buf[ptr..ptr + n] + before[n..])[j]
      {
        if j < n {
          assert a[j] == buf[ptr + j];
        }
      }
    }
  }

  /**
   * The flush test of the driver loop on the snapshot array `last` and its
   * count; the bytes are compared only when the counts are equal.
   */
  method CheckSps(last: array<byte>, lastCount: nat, buf: seq<byte>, ptr: Option<nat>, count: nat)
    returns (flush: bool)
    requires last.Length == SnapshotSize && lastCount <= SnapshotSize && SpsInBuffer(buf, ptr, count)
    ensures flush == NeedsFlush(Snapshot(last[..], lastCount), buf, ptr, count)
  {
    flush := false;
    if lastCount > 0 && count > 0 {
      if count != lastCount {
        flush := true;
      } else {
        var equal := BytesEqual(last, buf, ptr.value, lastCount);
        flush := !equal;
      }
    }
  }

  /** The snapshot update of the driver loop: cap the count at 32 and copy that many bytes. */
  method StoreSps(last: array<byte>, lastCount: nat, buf: seq<byte>, ptr: Option<nat>, count: nat)
    returns (newCount: nat)
    requires last.Length == SnapshotSize && lastCount <= SnapshotSize && SpsInBuffer(buf, ptr, count)
    modifies last
    ensures Snapshot(last[..], newCount) == Store(Snapshot(old(last[..]), lastCount), buf, ptr, count)
  {
    newCount := lastCount;
    if count > 0 && ptr.Some? {
      var c := count;
      if c > SnapshotSize {
        c := SnapshotSize;
      }
      newCount := c;
      CopyBytes(last, buf, ptr.value, c);
    }
  }
}
