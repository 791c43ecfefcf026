/** The directory of ring files: reading, opening, resizing, migrating and appending, with every crash point. */
module RingStore {
  import opened Bytes
  import opened Buckets
  import opened RingCodec
  import opened RingFile
  import opened RingCrash

  /** A ring, a conversion written beside it, or a ring moved aside as unreadable. */
  datatype Name = Ring(id: seq<byte>) | Temp(id: seq<byte>, stamp: u64) | Bad(id: seq<byte>, stamp: u64)

  type Dir = map<Name, seq<byte>>

  function At(d: Dir, id: seq<byte>): Option<seq<byte>> {
    if Ring(id) in d then Some(d[Ring(id)]) else None
  }

  function Quarantined(d: Dir, id: seq<byte>, now: u64): Dir {
    if Ring(id) in d then (d - {Ring(id)})[Bad(id, now) := d[Ring(id)]] else d
  }

  /** What loading a path yields: an unreadable file is moved aside and counts as empty. */
  ghost function Returned(content: Option<seq<byte>>): seq<Bucket> {
    if Contents(content).Some? then Contents(content).value else []
  }

  /** The ring is untouched or completely replaced; otherwise it held nothing readable and its bytes are kept. */
  ghost predicate OpenSafe(d: Dir, id: seq<byte>, now: u64, content: Option<seq<byte>>, cap: u32) {
    || At(d, id) == content
    || At(d, id) == Opened(content, cap)
    || (content.None? && IsTornFresh(At(d, id), cap))
    || (Contents(content).None? && Bad(id, now) in d && Some(d[Bad(id, now)]) == content)
  }

  /** The ring is there, or it was unreadable and has been moved aside. */
  ghost predicate HoldsOrKeeps(d: Dir, id: seq<byte>, now: u64, content: Option<seq<byte>>) {
    || At(d, id) == content
    || (Contents(content).None? && Bad(id, now) in d && Some(d[Bad(id, now)]) == content)
  }

  /** A ring of an older version or another capacity, whose size is possible. */
  predicate NeedsConversion(content: Option<seq<byte>>, cap: u32) {
    && content.Some? && DecodeHeader(content.value).Some?
    && var h := DecodeHeader(content.value).value;
       SizeFits(content.value, h) && (h.version == 1 || h.slotCount != cap)
  }

  /** A conversion is due, but a file already has its temporary name. */
  predicate Blocked(d: Dir, id: seq<byte>, cap: u32, now: u64) {
    cap > 0 && NeedsConversion(At(d, id), cap) && Temp(id, now) in d
  }

  /** What a blocked conversion leaves: the ring as it was, or moved aside if it was unreadable. */
  ghost function Unblocked(d: Dir, id: seq<byte>, cap: u32, now: u64): Dir
    requires Blocked(d, id, cap, now)
  {
    (if ReadBack(d[Ring(id)], cap).Some? then d else Quarantined(d, id, now)) - {Temp(id, now)}
  }

  /** Nothing changes except the ring itself, its temporary file and its quarantine. */
  ghost predicate OnlyTouches(before: Dir, after: Dir, id: seq<byte>, now: u64) {
    forall n: Name :: n != Ring(id) && n != Temp(id, now) && n != Bad(id, now) ==>
      (n in before <==> n in after) && (n in before ==> before[n] == after[n])
  }

  /** How a conversion ends: done, or given up because its temporary name was taken. */
  ghost predicate ConversionEnds(ok: bool, before: Dir, after: Dir, id: seq<byte>, cap: u32, now: u64) {
    && OnlyTouches(before, after, id, now)
    && if ok then At(after, id) == Opened(At(before, id), cap)
       else Blocked(before, id, cap, now) && after == Unblocked(before, id, cap, now)
  }

  /** A readable ring, or none yet, with a free slot at the capacity asked for. */
  ghost predicate HasRoom(content: Option<seq<byte>>, cap: u32) {
    Contents(content).Some? && |Contents(content).value| < cap
  }

  /** The next start recovers the ring, and a reader before it sees the old records. */
  ghost predicate StopIsHarmless(content: Option<seq<byte>>, cap: u32, found: Option<seq<byte>>)
    requires HasRoom(content, cap)
  {
    LeftBehind(content, cap, found) && (!Misplaced(content, cap) ==> Returned(found) == Contents(content).value)
  }

  /** Every state of an in-place append: the record byte by byte, and from `headerAt` on the header. */
  ghost predicate AppendStops(trace: seq<Dir>, headerAt: nat, id: seq<byte>, file: seq<byte>, r: Bucket)
    requires DecodeHeader(file).Some?
  {
    && RECORD_SIZE < headerAt && |trace| == headerAt + HEADER_SIZE + 1
    && var recordAt := headerAt - RECORD_SIZE - 1;
       && (forall t :: recordAt <= t < headerAt ==> At(trace[t], id) == Some(TornRecord(file, r, t - recordAt)))
       && (forall t :: headerAt <= t < |trace| ==> At(trace[t], id) == Some(TornHeader(file, r, t - headerAt)))
  }

  /** From `from` on, every state differs from `rest` in one name alone. */
  ghost predicate OnlyChanges(trace: seq<Dir>, from: nat, n: Name, rest: Dir) {
    forall t :: from <= t < |trace| ==> trace[t] - {n} == rest
  }

  class Store {
    var files: Dir
    /** Every directory state, torn writes included, that a crash could have left so far. */
    ghost var trace: seq<Dir>

    constructor ()
      ensures files == map[] && trace == []
    {
      files, trace := map[], [];
    }

    method Create(n: Name)
      modifies this
      ensures files == old(files)[n := []] && trace == old(trace) + [files]
    {
      files := files[n := []];
      trace := trace + [files];
    }

    /** A write that may stop after any number of bytes. */
    method Write(n: Name, off: nat, data: seq<byte>)
      requires n in files
      modifies this
      ensures files == old(files)[n := Patch(old(files)[n], off, data)]
      ensures trace == old(trace) + TornWrites(old(files), n, off, data)
    {
      trace := trace + TornWrites(files, n, off, data);
      files := files[n := Patch(files[n], off, data)];
    }

    method Rename(a: Name, b: Name)
      requires a in files
      modifies this
      ensures files == (old(files) - {a})[b := old(files)[a]] && trace == old(trace) + [files]
    {
      files := (files - {a})[b := files[a]];
      trace := trace + [files];
    }

    method Remove(n: Name)
      modifies this
      ensures files == old(files) - {n} && trace == old(trace) + [files]
    {
      files := files - {n};
      trace := trace + [files];
    }

    method QuarantineBadFile(id: seq<byte>, now: u64)
      modifies this
      ensures files == Quarantined(old(files), id, now)
      ensures trace == old(trace) + (if Ring(id) in old(files) then [files] else [])
    {
      if Ring(id) in files {
        Rename(Ring(id), Bad(id, now));
      }
    }

    method ReadRingRecordsLimited(id: seq<byte>, limit: u32, now: u64) returns (out: seq<Bucket>)
      requires Ring(id) in files
      modifies this
      ensures ReadBack(old(files)[Ring(id)], limit).Some? ==>
                out == ReadBack(old(files)[Ring(id)], limit).value && files == old(files) && trace == old(trace)
      ensures ReadBack(old(files)[Ring(id)], limit).None? ==>
                out == [] && files == Quarantined(old(files), id, now) && trace == old(trace) + [files]
    {
      var file := files[Ring(id)];
      if DecodeHeader(file).None? {
        QuarantineBadFile(id, now);
        return [];
      }
      var h := DecodeHeader(file).value;
      if SizeBounds(h).None? || |file| < SizeBounds(h).value.0 || |file| > SizeBounds(h).value.1 {
        QuarantineBadFile(id, now);
        return [];
      }
      var ok: bool;
      ok, out := ScanSlots(file, h, Min(h.validCount, limit));
      if ok {
        ShownIsRead(file, limit, h, out);
      } else {
        QuarantineBadFile(id, now);
        out := [];
      }
    }

    static method ReadSlot(file: seq<byte>, version: u32, position: nat, ghost slot: nat) returns (r: Option<Bucket>)
      requires position == SlotOffset(version, slot) && position + RecordSize(version) <= |file|
      ensures r == RecordAt(file, version, slot)
    {
      r := DecodeRingRecord(file[position..position + RecordSize(version)], version);
    }

    /** One sequential pass with at most one seek, at the wrap. */
    static method ScanSlots(file: seq<byte>, h: Header, count: nat) returns (ok: bool, out: seq<Bucket>)
      requires ValidHeader(h) && SizeFits(file, h) && count <= h.validCount
      ensures ok <==> AllReadable(file, h, count)
      ensures ok ==> |out| == count && Shows(file, h, out)
    {
      var start := RingIndex(h.writePos + h.slotCount - count, h.slotCount);
      assert start == StartSlot(h, count);
      var position := SlotOffset(h.version, start);
      ghost var cursor := start;
      out := [];
      for i := 0 to count
        invariant |out| == i && ShowsPrefix(file, h, count, out)
        invariant cursor == if start + i <= h.slotCount then start + i else start + i - h.slotCount
        invariant position == SlotOffset(h.version, cursor)
      {
        var idx := RingIndex(start + i, h.slotCount);
        if i > 0 && idx == 0 {
          position := SlotOffset(h.version, idx);
          cursor := 0;
        }
        assert cursor == idx == SlotOf(h, count, i);
        SlotInFile(file, h, count, i);
        var record := ReadSlot(file, h.version, position, idx);
        if record.None? {
          return false, [];
        }
        position := position + RecordSize(h.version);
        cursor := cursor + 1;
        ShowsMore(file, h, count, out, record.value);
        out := out + [record.value];
      }
      ok := true;
    }

    /** Writes the converted ring beside the original. */
    method WriteConverted(id: seq<byte>, cap: u32, now: u64, records: seq<Bucket>)
      requires 0 < cap && |records| <= cap && Temp(id, now) !in files
      modifies this
      ensures Temp(id, now) in files && files[Temp(id, now)] == RebuiltFile(cap, records)
      ensures files - {Temp(id, now)} == old(files) && old(trace) <= trace
      ensures OnlyChanges(trace, |old(trace)|, Temp(id, now), old(files))
    {
      var tmp := Temp(id, now);
      Create(tmp);
      var h := RebuiltHeader(cap, |records|);
      AppendTo(tmp, EncodeHeader(h), |old(trace)|, old(files));
      assert files[tmp] == EncodeHeader(h);
      for i := 0 to |records|
        invariant tmp in files && files - {tmp} == old(files) && old(trace) <= trace
        invariant files[tmp] == EncodeHeader(h) + EncodeRecords(records[..i])
        invariant OnlyChanges(trace, |old(trace)|, tmp, old(files))
      {
        var data := EncodeRingRecord(records[i]);
        AppendRecords(EncodeHeader(h), records, i, data);
        AppendTo(tmp, data, |old(trace)|, old(files));
      }
      assert records[..|records|] == records;
    }

    method AppendTo(n: Name, data: seq<byte>, ghost from: nat, ghost rest: Dir)
      requires n in files && files - {n} == rest && OnlyChanges(trace, from, n, rest)
      modifies this
      ensures n in files && files[n] == old(files[n]) + data && files - {n} == rest
      ensures old(trace) <= trace && OnlyChanges(trace, from, n, rest)
    {
      TornElsewhere(files, n, |files[n]|, data, rest);
      Write(n, |files[n]|, data);
    }

    /** The path changes only by the final rename. */
    method Migrate(id: seq<byte>, cap: u32, now: u64, records: seq<Bucket>, ghost content: Option<seq<byte>>)
      requires 0 < cap && |records| <= cap && Temp(id, now) !in files && HoldsOrKeeps(files, id, now, content)
      requires Opened(content, cap) == Some(RebuiltFile(cap, records))
      modifies this
      ensures files == old(files)[Ring(id) := RebuiltFile(cap, records)] && old(trace) <= trace
      ensures forall t :: |old(trace)| <= t < |trace| ==> OpenSafe(trace[t], id, now, content, cap)
    {
      WriteConverted(id, cap, now, records);
      Rename(Temp(id, now), Ring(id));
      forall t | |old(trace)| <= t < |trace|
        ensures OpenSafe(trace[t], id, now, content, cap)
      {
        MigrationStep(trace[t], old(files), files, id, now, content, cap);
      }
    }

    method CreateRing(id: seq<byte>, cap: u32)
      requires 0 < cap && Ring(id) !in files
      modifies this
      ensures files == old(files)[Ring(id) := FreshFile(cap)]
      ensures old(trace) <= trace
      ensures forall t :: |old(trace)| <= t < |trace| ==>
                IsTornFresh(At(trace[t], id), cap) && trace[t] - {Ring(id)} == old(files)
    {
      Create(Ring(id));
      TornFreshStates(files, id, cap, old(files));
      Write(Ring(id), 0, FreshFile(cap));
    }

    /** Moves an unreadable ring aside and starts an empty one. */
    method Recreate(id: seq<byte>, cap: u32, now: u64)
      requires 0 < cap && Ring(id) in files
      modifies this
      ensures files == Quarantined(old(files), id, now)[Ring(id) := FreshFile(cap)]
      ensures old(trace) <= trace
      ensures forall t :: |old(trace)| <= t < |trace| ==>
                Bad(id, now) in trace[t] && trace[t][Bad(id, now)] == old(files)[Ring(id)]
    {
      QuarantineBadFile(id, now);
      label Moved:
      CreateRing(id, cap);
      forall t | |old@Moved(trace)| <= t < |trace|
        ensures Bad(id, now) in trace[t] && trace[t][Bad(id, now)] == old(files)[Ring(id)]
      {
        assert Bad(id, now) in trace[t] - {Ring(id)};
      }
    }

    /** Fails on a capacity of zero, on impossible sizes, and when a conversion finds its temporary name taken. */
    method OpenOrCreateRing(id: seq<byte>, cap: u32, now: u64) returns (ok: bool)
      modifies this
      ensures ok <==> Opened(At(old(files), id), cap).Some? && !Blocked(old(files), id, cap, now)
      ensures !ok ==>
                files == if Blocked(old(files), id, cap, now) then Unblocked(old(files), id, cap, now) else old(files)
      ensures ok ==> At(files, id) == Opened(At(old(files), id), cap)
      ensures OnlyTouches(old(files), files, id, now)
      ensures old(trace) <= trace
      ensures forall t :: |old(trace)| <= t < |trace| ==> OpenSafe(trace[t], id, now, At(old(files), id), cap)
    {
      if cap == 0 {
        return false;
      }
      if Ring(id) !in files {
        CreateRing(id, cap);
        return true;
      }
      var file := files[Ring(id)];
      if DecodeHeader(file).None? {
        Recreate(id, cap, now);
        return true;
      }
      var h := DecodeHeader(file).value;
      if SizeBounds(h).None? {
        return false;
      }
      if |file| < SizeBounds(h).value.0 || |file| > SizeBounds(h).value.1 {
        Recreate(id, cap, now);
        return true;
      }
      ok := true;
      if h.version == 1 || h.slotCount != cap {
        ok := Convert(id, cap, now);
      }
    }

    method DecodeNewest(id: seq<byte>, cap: u32, now: u64) returns (records: seq<Bucket>)
      requires 0 < cap && NeedsConversion(At(files, id), cap)
      modifies this
      ensures |records| <= cap && Opened(At(old(files), id), cap) == Some(RebuiltFile(cap, records))
      ensures HoldsOrKeeps(files, id, now, At(old(files), id))
      ensures Temp(id, now) in files <==> Temp(id, now) in old(files)
      ensures OpenSafe(files - {Temp(id, now)}, id, now, At(old(files), id), cap)
      ensures Temp(id, now) in files ==> ConversionEnds(false, old(files), files - {Temp(id, now)}, id, cap, now)
      ensures Temp(id, now) !in files ==>
                ConversionEnds(true, old(files), files[Ring(id) := RebuiltFile(cap, records)], id, cap, now)
      ensures trace == old(trace) || trace == old(trace) + [files]
      ensures OpenSafe(files, id, now, At(old(files), id), cap)
    {
      ghost var before, file := files, files[Ring(id)];
      records := ReadRingRecordsLimited(id, cap, now);
      ConversionReads(file, cap, records);
      ReadingKeeps(before, files, id, cap, now);
      if Temp(id, now) in before {
        GivenUp(before, files, id, cap, now);
      } else {
        Replaced(before, files, id, cap, now, RebuiltFile(cap, records));
      }
    }

    /**
     * Decodes the newest records before replacing anything. A file that already has the temporary name makes the
     * conversion fail, and is removed.
     */
    method Convert(id: seq<byte>, cap: u32, now: u64) returns (ok: bool)
      requires 0 < cap && NeedsConversion(At(files, id), cap)
      modifies this
      ensures ok <==> Temp(id, now) !in old(files)
      ensures ConversionEnds(ok, old(files), files, id, cap, now) && old(trace) <= trace
      ensures forall t :: |old(trace)| <= t < |trace| ==> OpenSafe(trace[t], id, now, At(old(files), id), cap)
    {
      ghost var file := files[Ring(id)];
      var records := DecodeNewest(id, cap, now);
      if Temp(id, now) in files {
        Remove(Temp(id, now));
        return false;
      }
      Migrate(id, cap, now, records, Some(file));
      ok := true;
    }

    /** Record first, header last; `headerAt` is the crash point where the header starts to be overwritten. */
    method PutInPlace(id: seq<byte>, r: Bucket) returns (ghost headerAt: nat)
      requires Ring(id) in files && DecodeHeader(files[Ring(id)]).Some?
      modifies this
      ensures files == old(files)[Ring(id) := PutRecord(old(files)[Ring(id)], r)]
      ensures old(trace) <= trace && headerAt == |old(trace)| + RECORD_SIZE + 1
      ensures AppendStops(trace, headerAt, id, old(files)[Ring(id)], r)
    {
      ghost var file := files[Ring(id)];
      var h := DecodeHeader(files[Ring(id)]).value;
      var slot := RingIndex(h.writePos, h.slotCount);
      var data := EncodeRingRecord(r);
      Write(Ring(id), SlotOffset(h.version, slot), data);
      headerAt := |trace|;
      var nextPos := RingIndex(slot + 1, h.slotCount);
      var next := h.(writePos := nextPos, validCount := Min(h.validCount + 1, h.slotCount));
      assert next == NextHeader(h);
      Write(Ring(id), 0, EncodeHeader(next));
      StopsOfWrites(old(trace), old(files), id, file, h, r);
    }

    /** The second half of an append, on the ring that opening has left. */
    method PutOpened(id: seq<byte>, r: Bucket, ghost cap: u32, ghost now: u64, ghost content: Option<seq<byte>>)
      returns (ghost headerAt: nat)
      requires At(files, id).Some? && At(files, id) == Opened(content, cap)
      modifies this
      ensures At(files, id) == Appended(content, cap, r) && Appended(content, cap, r).Some?
      ensures OnlyTouches(old(files), files, id, now)
      ensures old(trace) <= trace && headerAt == |old(trace)| + RECORD_SIZE + 1
      ensures AppendStops(trace, headerAt, id, Opened(content, cap).value, r)
      ensures HasRoom(content, cap) ==>
                forall t :: |old(trace)| <= t < headerAt ==> StopIsHarmless(content, cap, At(trace[t], id))
    {
      OpenedDecodes(content, cap);
      ghost var file := files[Ring(id)];
      headerAt := PutInPlace(id, r);
      if HasRoom(content, cap) {
        RecordStopsRead(trace, headerAt, id, file, r, content, cap);
      }
    }

    method AppendRingRecordWithCapacity(id: seq<byte>, r: Bucket, cap: u32, now: u64)
      returns (ok: bool, ghost headerAt: nat)
      modifies this
      ensures ok <==> Appended(At(old(files), id), cap, r).Some? && !Blocked(old(files), id, cap, now)
      ensures ok ==> At(files, id) == Appended(At(old(files), id), cap, r)
      ensures !ok ==>
                files == if Blocked(old(files), id, cap, now) then Unblocked(old(files), id, cap, now) else old(files)
      ensures OnlyTouches(old(files), files, id, now)
      ensures |old(trace)| <= headerAt <= |trace| && old(trace) <= trace
      ensures ok ==> AppendStops(trace, headerAt, id, Opened(At(old(files), id), cap).value, r)
      ensures HasRoom(At(old(files), id), cap) ==>
                forall t :: |old(trace)| <= t < headerAt ==> StopIsHarmless(At(old(files), id), cap, At(trace[t], id))
    {
      ghost var content := At(files, id);
      ok := OpenOrCreateRing(id, cap, now);
      headerAt := |trace|;
      if HasRoom(content, cap) {
        OpenStatesRead(trace, |old(trace)|, id, now, content, cap);
      }
      if ok {
        headerAt := PutOpened(id, r, cap, now, content);
      }
    }
  }

  ghost function TornWrites(d: Dir, n: Name, off: nat, data: seq<byte>): (r: seq<Dir>)
    requires n in d
    ensures |r| == |data| + 1
    ensures forall i :: 0 <= i <= |data| ==> r[i] == d[n := Patch(d[n], off, data[..i])]
  {
    seq(|data| + 1, i requires 0 <= i <= |data| => d[n := Patch(d[n], off, data[..i])])
  }

  lemma TornElsewhere(d: Dir, n: Name, off: nat, data: seq<byte>, rest: Dir)
    requires n in d && d - {n} == rest
    ensures forall i :: 0 <= i <= |data| ==> TornWrites(d, n, off, data)[i] - {n} == rest
  {
    forall i | 0 <= i <= |data|
      ensures TornWrites(d, n, off, data)[i] - {n} == rest
    {
      assert d[n := Patch(d[n], off, data[..i])] - {n} == d - {n};
    }
  }

  lemma AppendRecords(head: seq<byte>, records: seq<Bucket>, i: nat, data: seq<byte>)
    requires i < |records| && data == EncodeRecord(records[i])
    ensures head + EncodeRecords(records[..i]) + data == head + EncodeRecords(records[..i + 1])
  {
    assert records[..i + 1][..i] == records[..i];
    assert head + EncodeRecords(records[..i]) + data == head + (EncodeRecords(records[..i]) + data);
  }

  lemma TornFreshStates(d: Dir, id: seq<byte>, cap: u32, rest: Dir)
    requires 0 < cap && Ring(id) in d && d[Ring(id)] == [] && d - {Ring(id)} == rest
    ensures IsTornFresh(Some([]), cap) && Patch([], 0, FreshFile(cap)) == FreshFile(cap)
    ensures forall i :: 0 <= i <= HEADER_SIZE ==>
              var state := TornWrites(d, Ring(id), 0, FreshFile(cap))[i];
              IsTornFresh(At(state, id), cap) && state - {Ring(id)} == rest
  {
    assert FreshFile(cap)[..0] == [] && FreshFile(cap)[..HEADER_SIZE] == FreshFile(cap);
    TornElsewhere(d, Ring(id), 0, FreshFile(cap), rest);
    forall i: nat | i <= HEADER_SIZE
      ensures Patch([], 0, FreshFile(cap)[..i]) == FreshFile(cap)[..i]
    {
    }
  }

  lemma TornFreshIsEmpty(found: Option<seq<byte>>, cap: u32)
    requires 0 < cap && IsTornFresh(found, cap)
    ensures Returned(found) == []
  {
    var i: nat :| i <= HEADER_SIZE && found == Some(FreshFile(cap)[..i]);
    if i == HEADER_SIZE {
      assert FreshFile(cap)[..i] == FreshFile(cap);
      FreshReadsBack(cap);
    }
  }

  lemma ReadableInPart(file: seq<byte>, limit: u32)
    ensures ReadBack(file, limit).None? ==> Contents(Some(file)).None?
  {
    if ReadBack(file, UNLIMITED).Some? {
      ReadBackLimited(file, limit);
    }
  }

  /** What is read for a conversion is what the converted ring will hold. */
  lemma ConversionReads(file: seq<byte>, cap: u32, records: seq<Bucket>)
    requires 0 < cap && NeedsConversion(Some(file), cap)
    requires records == if ReadBack(file, cap).Some? then ReadBack(file, cap).value else []
    ensures |records| <= cap && Opened(Some(file), cap) == Some(RebuiltFile(cap, records))
  {
  }

  /** Reading for a conversion leaves the ring there or moves it aside, and does not look at the temporary name. */
  lemma ReadingKeeps(before: Dir, after: Dir, id: seq<byte>, cap: u32, now: u64)
    requires 0 < cap && NeedsConversion(At(before, id), cap)
    requires after == if ReadBack(before[Ring(id)], cap).Some? then before else Quarantined(before, id, now)
    ensures Temp(id, now) in after <==> Temp(id, now) in before
    ensures HoldsOrKeeps(after, id, now, At(before, id)) && OpenSafe(after, id, now, At(before, id), cap)
    ensures OpenSafe(after - {Temp(id, now)}, id, now, At(before, id), cap)
  {
    ReadableInPart(before[Ring(id)], cap);
  }

  lemma GivenUp(before: Dir, after: Dir, id: seq<byte>, cap: u32, now: u64)
    requires Blocked(before, id, cap, now)
    requires after == if ReadBack(before[Ring(id)], cap).Some? then before else Quarantined(before, id, now)
    ensures ConversionEnds(false, before, after - {Temp(id, now)}, id, cap, now)
  {
  }

  lemma Replaced(before: Dir, after: Dir, id: seq<byte>, cap: u32, now: u64, file: seq<byte>)
    requires Opened(At(before, id), cap) == Some(file) && (after == before || after == Quarantined(before, id, now))
    ensures ConversionEnds(true, before, after[Ring(id) := file], id, cap, now)
  {
  }

  /** Until its rename a conversion only touches its temporary file. */
  lemma MigrationStep(d: Dir, before: Dir, after: Dir, id: seq<byte>, now: u64, content: Option<seq<byte>>, cap: u32)
    requires d == after || d - {Temp(id, now)} == before
    requires At(after, id) == Opened(content, cap)
    requires HoldsOrKeeps(before, id, now, content)
    ensures OpenSafe(d, id, now, content, cap)
  {
    if d - {Temp(id, now)} == before {
      assert Ring(id) in d <==> Ring(id) in d - {Temp(id, now)};
      assert Bad(id, now) in d <==> Bad(id, now) in d - {Temp(id, now)};
    }
  }

  lemma OpenedDecodes(content: Option<seq<byte>>, cap: u32)
    requires Opened(content, cap).Some?
    ensures DecodeHeader(Opened(content, cap).value).Some?
    ensures DecodeHeader(Opened(content, cap).value).value.version == 2
  {
    var header := if content.None? then None else DecodeHeader(content.value);
    if header.None? || !SizeFits(content.value, header.value) {
      FreshReadsBack(cap);
    } else {
      if header.value.version == 1 || header.value.slotCount != cap {
        var s := if ReadBack(content.value, cap).Some? then ReadBack(content.value, cap).value else [];
        RebuiltReadsBack(cap, s);
      }
    }
  }

  /** Whatever opening had to do, a stop inside the record of a ring that is not full shows the old records. */
  lemma StopReadsSame(content: Option<seq<byte>>, cap: u32, file: seq<byte>, r: Bucket, i: nat)
    requires Opened(content, cap) == Some(file) && i <= RECORD_SIZE
    requires Contents(content).Some? && !Misplaced(content, cap) && |Contents(content).value| < cap
    ensures DecodeHeader(file).Some? && Returned(Some(TornRecord(file, r, i))) == Contents(content).value
  {
    OpenKeepsNewest(content, cap);
    TornAppendReadsSame(file, DecodeHeader(file).value, EncodeRecord(r)[..i]);
  }

  lemma RecordStopsRead(
    trace: seq<Dir>, headerAt: nat, id: seq<byte>, file: seq<byte>, r: Bucket, content: Option<seq<byte>>, cap: u32)
    requires DecodeHeader(file).Some? && AppendStops(trace, headerAt, id, file, r) && Opened(content, cap) == Some(file)
    requires HasRoom(content, cap)
    ensures forall t :: headerAt - RECORD_SIZE - 1 <= t < headerAt ==> StopIsHarmless(content, cap, At(trace[t], id))
  {
    forall t | headerAt - RECORD_SIZE - 1 <= t < headerAt
      ensures StopIsHarmless(content, cap, At(trace[t], id))
    {
      RecordStopIsHarmless(content, cap, file, r, t - (headerAt - RECORD_SIZE - 1));
    }
  }

  lemma RecordStopIsHarmless(content: Option<seq<byte>>, cap: u32, file: seq<byte>, r: Bucket, i: nat)
    requires HasRoom(content, cap) && Opened(content, cap) == Some(file) && DecodeHeader(file).Some? && i <= RECORD_SIZE
    ensures StopIsHarmless(content, cap, Some(TornRecord(file, r, i)))
  {
    assert IsTornRecord(content, cap, Some(TornRecord(file, r, i)));
    if !Misplaced(content, cap) {
      StopReadsSame(content, cap, file, r, i);
    }
  }

  lemma StopsOfWrites(before: seq<Dir>, d: Dir, id: seq<byte>, file: seq<byte>, h: Header, r: Bucket)
    requires Ring(id) in d && d[Ring(id)] == file && DecodeHeader(file) == Some(h)
    ensures var off := SlotOffset(h.version, h.writePos);
            var mid := d[Ring(id) := Patch(file, off, EncodeRecord(r))];
            AppendStops(
              before + TornWrites(d, Ring(id), off, EncodeRecord(r))
              + TornWrites(mid, Ring(id), 0, EncodeHeader(NextHeader(h))), |before| + RECORD_SIZE + 1, id, file, r)
  {
    var off := SlotOffset(h.version, h.writePos);
    var mid := d[Ring(id) := Patch(file, off, EncodeRecord(r))];
    var records, headers := TornWrites(d, Ring(id), off, EncodeRecord(r)),
                            TornWrites(mid, Ring(id), 0, EncodeHeader(NextHeader(h)));
    assert EncodeRecord(r)[..RECORD_SIZE] == EncodeRecord(r);
    StopsAreStates(before, records, headers, id, file, r);
  }

  lemma StopsAreStates(
    before: seq<Dir>, records: seq<Dir>, headers: seq<Dir>, id: seq<byte>, file: seq<byte>, r: Bucket)
    requires DecodeHeader(file).Some? && |records| == RECORD_SIZE + 1 && |headers| == HEADER_SIZE + 1
    requires forall i: nat :: i <= RECORD_SIZE ==> At(records[i], id) == Some(TornRecord(file, r, i))
    requires forall i: nat :: i <= HEADER_SIZE ==> At(headers[i], id) == Some(TornHeader(file, r, i))
    ensures AppendStops(before + records + headers, |before| + RECORD_SIZE + 1, id, file, r)
  {
  }

  /** Wherever opening, resizing or migrating stops, the path still shows every record, or the newest `cap` of them. */
  lemma InterruptedOpenKeepsRecords(d: Dir, id: seq<byte>, now: u64, content: Option<seq<byte>>, cap: u32)
    requires 0 < cap && OpenSafe(d, id, now, content, cap) && Contents(content).Some?
    ensures Returned(At(d, id)) == Contents(content).value || Returned(At(d, id)) == LastN(Contents(content).value, cap)
  {
    OpenKeepsNewest(content, cap);
    if content.None? && IsTornFresh(At(d, id), cap) {
      TornFreshIsEmpty(At(d, id), cap);
    }
  }

  lemma OpenStatesRead(
    states: seq<Dir>, from: nat, id: seq<byte>, now: u64, content: Option<seq<byte>>, cap: u32)
    requires HasRoom(content, cap) && forall t :: from <= t < |states| ==> OpenSafe(states[t], id, now, content, cap)
    ensures forall t :: from <= t < |states| ==> StopIsHarmless(content, cap, At(states[t], id))
  {
    forall t | from <= t < |states|
      ensures StopIsHarmless(content, cap, At(states[t], id))
    {
      InterruptedOpenKeepsRecords(states[t], id, now, content, cap);
    }
  }
}
