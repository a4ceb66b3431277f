/** The enumeration hooks: methods that update the state of a handle and write the caller's
    buffer. */
module EnumHooks {
  import opened Optional
  import opened Words
  import opened DirRecords
  import opened EnumFilter
  import opened EnumRequery
  import opened EnumCursor
  import opened EnumSplice
  import opened EnumScan

  // ---- Writing one record ----

  lemma OverwriteTwice(b: seq<byte>, at: nat, x: seq<byte>, k: nat, y: seq<byte>)
    requires at + |x| <= |b| && k + |y| <= |x|
    ensures Overwrite(Overwrite(b, at, x), at + k, y) == Overwrite(b, at, Overwrite(x, k, y))
  {}

  lemma OverwriteJoin(b: seq<byte>, at: nat, x: seq<byte>, y: seq<byte>)
    requires at + |x| + |y| <= |b|
    ensures Overwrite(Overwrite(b, at, x), at + |x|, y) == Overwrite(b, at, x + y)
  {}

  lemma StoredWord(b: seq<byte>, at: nat, v: u32)
    requires at + 4 <= |b|
    ensures PutU32(b, at, v) == Overwrite(b, at, U32Bytes(v))
  {}

  lemma ZeroLink(n: nat)
    requires n >= 4
    ensures PutU32(Zeros(n), 0, 0) == Zeros(n)
  {}

  /** `memset` and `memcpy` into the buffer. */
  method CopyBytes(buffer: array<byte>, at: nat, r: seq<byte>)
    requires at + |r| <= buffer.Length
    modifies buffer
    ensures buffer[..] == Overwrite(old(buffer[..]), at, r)
  {
    forall i | 0 <= i < |r| {
      buffer[at + i] := r[i];
    }
    assert buffer[at..at + |r|] == r;
    assert buffer[..at] == old(buffer[..at]) && buffer[at + |r|..] == old(buffer[at + |r|..]);
  }

  /** Fills in what is known of the backing file; the bytes `r` of a record are at `at`. */
  method FillOverlayDirRecordMetadata(buffer: array<byte>, at: nat, infoClass: nat, stat: Option<Stat>,
                                      ghost b: seq<byte>, ghost r: seq<byte>)
    requires TryGetDirInfoLayout(infoClass).Some? && |r| >= TryGetDirInfoLayout(infoClass).value.nameOff
    requires at + |r| <= |b| && buffer[..] == Overwrite(b, at, r)
    modifies buffer
    ensures buffer[..] == Overwrite(b, at, Filled(r, infoClass, stat))
  {
    hide Overwrite;
    if infoClass == 12 || stat == None {
      return;
    }
    OverwriteTwice(b, at, r, 8, stat.value.fixed);
    CopyBytes(buffer, at + 8, stat.value.fixed);
    ghost var s := Overwrite(r, 8, stat.value.fixed);
    if infoClass == 37 {
      OverwriteTwice(b, at, s, 96, stat.value.id);
      CopyBytes(buffer, at + 96, stat.value.id);
    } else if infoClass == 38 {
      OverwriteTwice(b, at, s, 72, stat.value.id);
      CopyBytes(buffer, at + 72, stat.value.id);
    }
  }

  method WriteRecord(buffer: array<byte>, at: nat, infoClass: nat, name: Name, stat: Option<Stat>)
    requires TryGetDirInfoLayout(infoClass).Some? && |name| <= MAX_COMPONENT
    requires at + RecordSize(TryGetDirInfoLayout(infoClass).value, name) <= buffer.Length
    modifies buffer
    ensures buffer[..] == Overwrite(old(buffer[..]), at, RecordBytes(infoClass, name, stat))
  {
    hide TryGetDirInfoLayout, Overwrite, PutU32, U32Bytes, Zeros, WideBytes, Filled;
    ghost var b := buffer[..];
    var l := TryGetDirInfoLayout(infoClass).value;
    ghost var z := Zeros(l.nameOff);
    CopyBytes(buffer, at, Zeros(l.nameOff));
    WordInside(b, at, z, 0, 0);
    ZeroLink(l.nameOff);
    StoreU32(buffer, at, 0);
    WordInside(b, at, z, l.nameLenOff, 2 * |name|);
    StoreU32(buffer, at + l.nameLenOff, 2 * |name|);
    ghost var h := PutU32(z, l.nameLenOff, 2 * |name|);
    OverwriteJoin(b, at, h, WideBytes(name));
    CopyBytes(buffer, at + l.nameOff, WideBytes(name));
    FillOverlayDirRecordMetadata(buffer, at, infoClass, stat, b, h + WideBytes(name));
  }

  lemma WordInside(b: seq<byte>, at: nat, x: seq<byte>, k: nat, v: u32)
    requires at + |x| <= |b| && k + 4 <= |x|
    ensures PutU32(Overwrite(b, at, x), at + k, v) == Overwrite(b, at, PutU32(x, k, v))
  {
    hide Overwrite, PutU32, U32Bytes;
    StoredWord(Overwrite(b, at, x), at + k, v);
    StoredWord(x, k, v);
    OverwriteTwice(b, at, x, k, U32Bytes(v));
  }

  // ---- The splice loop ----

  predicate Short(ns: seq<Name>) {
    forall n <- ns :: |n| <= MAX_COMPONENT
  }

  lemma NothingShort()
    ensures Short([])
  {}

  lemma ShortFrom(ns: seq<Name>, c: nat)
    requires Short(ns) && c <= |ns|
    ensures Short(ns[c..])
  {}

  /** What holds of the loop's variables: `e` is what has been written and `used` how many
      snapshot entries that took; `more` until the buffer is full. */
  ghost predicate Splicing(b: seq<byte>, cur: seq<byte>, infoClass: nat, ns: seq<Name>, filter: Pattern, compare: Compare,
                           single: bool, stat: Name -> Option<Stat>, e: seq<Name>, used: nat, writeOff: nat, prev: Option<nat>, more: bool)
    requires TryGetDirInfoLayout(infoClass).Some?
  {
    var l := TryGetDirInfoLayout(infoClass).value;
    && Room(l, e, |b|) && cur == Written(b, infoClass, e, stat) && writeOff == OffsetAfter(l, e) && prev == LastOffset(l, e)
    && used <= |ns| && Short(ns)
    && var all, rest := Take(ns, filter, compare, l, |b|, 0, single), Take(ns[used..], filter, compare, l, |b|, writeOff, single);
    all == if more then (e + rest.0, used + rest.1) else (e, used)
  }

  lemma SplicingStarts(b: seq<byte>, infoClass: nat, ns: seq<Name>, filter: Pattern, compare: Compare,
                       single: bool, stat: Name -> Option<Stat>)
    requires TryGetDirInfoLayout(infoClass).Some? && Short(ns) && |b| <= 0xFFFF_FFF8
    ensures Splicing(b, b, infoClass, ns, filter, compare, single, stat, [], 0, 0, None, true)
  {
    hide TryGetDirInfoLayout, Take;
    assert ns[0..] == ns;
    var all := Take(ns, filter, compare, TryGetDirInfoLayout(infoClass).value, |b|, 0, single);
    assert [] + all.0 == all.0;
  }

  lemma SplicingSkips(b: seq<byte>, cur: seq<byte>, infoClass: nat, ns: seq<Name>, filter: Pattern, compare: Compare,
                      single: bool, stat: Name -> Option<Stat>, e: seq<Name>, used: nat, writeOff: nat, prev: Option<nat>)
    requires TryGetDirInfoLayout(infoClass).Some? && used < |ns|
    requires Splicing(b, cur, infoClass, ns, filter, compare, single, stat, e, used, writeOff, prev, true)
    ensures !compare.NameMatchesFilter(ns[used], filter)
            ==> Splicing(b, cur, infoClass, ns, filter, compare, single, stat, e, used + 1, writeOff, prev, true)
    ensures compare.NameMatchesFilter(ns[used], filter) && writeOff + RecordSize(TryGetDirInfoLayout(infoClass).value, ns[used]) > |b|
            ==> Splicing(b, cur, infoClass, ns, filter, compare, single, stat, e, used, writeOff, prev, false)
  {
    hide TryGetDirInfoLayout, Written, Room, OffsetAfter, LastOffset, Short;
    assert ns[used..][0] == ns[used] && ns[used..][1..] == ns[used + 1..];
    assert e + [] == e;
  }

  lemma SplicingEmits(b: seq<byte>, cur: seq<byte>, infoClass: nat, ns: seq<Name>, filter: Pattern, compare: Compare,
                      single: bool, stat: Name -> Option<Stat>, e: seq<Name>, used: nat, writeOff: nat, prev: Option<nat>)
    requires TryGetDirInfoLayout(infoClass).Some? && used < |ns|
    requires Splicing(b, cur, infoClass, ns, filter, compare, single, stat, e, used, writeOff, prev, true)
    requires compare.NameMatchesFilter(ns[used], filter)
    requires writeOff + RecordSize(TryGetDirInfoLayout(infoClass).value, ns[used]) <= |b|
    ensures |b| <= 0xFFFF_FFF8 && |cur| == |b| && |ns[used]| <= MAX_COMPONENT
    ensures prev.Some? ==> prev.value + 4 <= writeOff
    ensures var size, r := RecordSize(TryGetDirInfoLayout(infoClass).value, ns[used]), RecordBytes(infoClass, ns[used], stat(ns[used]));
            Splicing(b, Append(cur, prev, writeOff, r), infoClass, ns, filter, compare, single, stat,
                     e + [ns[used]], used + 1, AlignUp8(writeOff + size), Some(writeOff), !single)
  {
    hide TryGetDirInfoLayout, Append, RecordBytes, AlignUp8, RecordSize, Take, Compare.NameMatchesFilter;
    var l := TryGetDirInfoLayout(infoClass).value;
    LastBefore(l, e, |b|);
    RoomLimit(l, e, |b|);
    assert ns[used] in ns;
    assert ns[used..][0] == ns[used] && ns[used..][1..] == ns[used + 1..];
    assert (e + [ns[used]])[..|e|] == e;
    TakeOne(ns, filter, compare, l, |b|, single, e, used, writeOff);
  }

  lemma TakeOne(ns: seq<Name>, filter: Pattern, compare: Compare, l: Layout, length: nat, single: bool, e: seq<Name>, used: nat, writeOff: nat)
    requires used < |ns| && compare.NameMatchesFilter(ns[used], filter) && writeOff + RecordSize(l, ns[used]) <= length
    ensures var r, t := Take(ns[used..], filter, compare, l, length, writeOff, single),
                        Take(ns[used + 1..], filter, compare, l, length, AlignUp8(writeOff + RecordSize(l, ns[used])), single);
            (e + r.0, used + r.1) == if single then (e + [ns[used]], used + 1) else ((e + [ns[used]]) + t.0, used + 1 + t.1)
  {
    hide AlignUp8, RecordSize;
    assert ns[used..][0] == ns[used] && ns[used..][1..] == ns[used + 1..];
    var t := Take(ns[used + 1..], filter, compare, l, length, AlignUp8(writeOff + RecordSize(l, ns[used])), single);
    assert e + ([ns[used]] + t.0) == (e + [ns[used]]) + t.0;
  }

  lemma SplicingEnds(b: seq<byte>, cur: seq<byte>, infoClass: nat, ns: seq<Name>, filter: Pattern, compare: Compare,
                     single: bool, stat: Name -> Option<Stat>, e: seq<Name>, used: nat, writeOff: nat, prev: Option<nat>, more: bool)
    requires TryGetDirInfoLayout(infoClass).Some?
    requires Splicing(b, cur, infoClass, ns, filter, compare, single, stat, e, used, writeOff, prev, more)
    requires more ==> used == |ns|
    ensures var l := TryGetDirInfoLayout(infoClass).value;
            && Take(ns, filter, compare, l, |b|, 0, single) == (e, used)
            && Room(l, e, |b|) && cur == Written(b, infoClass, e, stat)
            && (e == [] ==> cur == b)
            && (e != [] ==> Listed(cur, l) == e && prev == Some(Offsets(l, e)[|e| - 1]))
  {
    hide TryGetDirInfoLayout, Listed, OffsetAfter, RecordSize;
    var l := TryGetDirInfoLayout(infoClass).value;
    assert e + [] == e;
    if e != [] {
      WrittenReads(b, infoClass, e, stat);
      LastBefore(l, e, |b|);
    }
  }

  /** The first entry from `c` on that matches. */
  function FirstMatch(ns: seq<Name>, c: nat, filter: Pattern, compare: Compare): nat
    requires c <= |ns|
  {
    c + Unmatched(ns[c..], filter, compare)
  }

  lemma FirstMatchStep(ns: seq<Name>, c: nat, filter: Pattern, compare: Compare)
    requires c <= |ns|
    ensures FirstMatch(ns, c, filter, compare)
            == if c == |ns| || compare.NameMatchesFilter(ns[c], filter) then c else FirstMatch(ns, c + 1, filter, compare)
  {
    if c < |ns| { assert ns[c..][1..] == ns[c + 1..] && ns[c..][0] == ns[c]; }
  }

  lemma FindNextIs(h: Handle, d: Directory, compare: Compare)
    requires h.Valid()
    ensures var g := h.Ensure(d, compare);
            var k := FirstMatch(g.snapshot, g.cursor, g.filter, compare);
            k <= |g.snapshot| && FindNext(h, d, compare) ==
              if k == |g.snapshot| then (g.(cursor := k), None) else (g.(cursor := k + 1), Some(g.snapshot[k]))
  {
    hide SnapshotOf, Unmatched;
  }

  lemma SpliceIs(h: Handle, q: Query, compare: Compare)
    requires h.Valid()
    ensures TryGetDirInfoLayout(q.infoClass) == None || (q.dir.named && !q.dir.isDirectory) ==> Splice(h, q, compare) == (h, [])
    ensures TryGetDirInfoLayout(q.infoClass).Some? && !(q.dir.named && !q.dir.isDirectory) ==>
              var g := (if q.restart then h.Restarted() else h).Ensure(q.dir, compare);
              var r := Take(g.snapshot[g.cursor..], g.filter, compare, TryGetDirInfoLayout(q.infoClass).value, q.length, 0, q.single);
              && (g.cursor == |g.snapshot| ==> r == ([], 0))
              && Splice(h, q, compare) == if Exhausted(q.status) then (g.(cursor := g.cursor + r.1), r.0) else (g, [])
  {
    hide TryGetDirInfoLayout, SnapshotOf;
  }

  lemma ShortSnapshot(h: Handle, d: Directory, compare: Compare)
    requires Short(h.snapshot) && Short(d.children)
    ensures Short(h.Ensure(d, compare).snapshot)
  {
    hide SortNames, Visible;
    if d.named && d.isDirectory {
      SnapshotHas(d, compare);
    }
  }

  // ---- The handle ----

  /** Names are emitted only for a known layout and after the real scan. */
  lemma SpliceEmits(h: Handle, q: Query, compare: Compare)
    requires h.Valid()
    ensures Splice(h, q, compare).1 != [] ==> TryGetDirInfoLayout(q.infoClass).Some? && !NtSuccess(q.status)
  {
    hide Take, SnapshotOf;
  }

  /** What one intercepted query leaves behind: status, buffer and state. */
  ghost predicate Serves(sc: Scan, s: State, a: Ask, result: NtStatus, read: seq<byte>, t: State)
    requires TryGetDirInfoLayout(sc.infoClass).Some? ==> AllGood(sc.batches, TryGetDirInfoLayout(sc.infoClass).value)
    requires s.position <= |sc.batches| && s.handle.Valid()
  {
    var (b, next) := NextSeen(sc.batches, if a.restart then 0 else s.position, sc.infoClass, sc.visible, sc.hooks.filter && !s.reported);
    var status := if b == None then sc.exhausted else STATUS_SUCCESS;
    var (h, e) := Spliced(sc, s, a, status);
    && t == State(next, h, s.reported || (NtSuccess(result) && sc.hooks.reporting))
    && (e == [] ==> result == status && (b.Some? ==> read == b.value))
    && (e != [] ==> b == None && result == STATUS_SUCCESS && TryGetDirInfoLayout(sc.infoClass).Some?
                    && Listed(read, TryGetDirInfoLayout(sc.infoClass).value) == e)
  }

  /** That is the answer that whole scans are made of. */
  lemma ServesAnswer(sc: Scan, s: State, a: Ask, result: NtStatus, read: seq<byte>, t: State)
    requires sc.Valid() && s.position <= |sc.batches| && s.handle.Valid() && Serves(sc, s, a, result, read, t)
    ensures Answer(sc, s, a) == (t, if NtSuccess(result) then Some(Listed(read, sc.Layout())) else None)
  {
    hide NextSeen, Spliced, Listed, AllGood, TryGetDirInfoLayout;
  }

  /** The overlay's part of it, or none. */
  lemma SplicedIs(sc: Scan, s: State, a: Ask)
    requires s.handle.Valid()
    ensures s.reported || !sc.hooks.overlay ==> forall status {:trigger Spliced(sc, s, a, status)} :: Spliced(sc, s, a, status) == (s.handle, [])
    ensures !s.reported && sc.hooks.overlay ==>
              s.handle.Captured(a.pattern, a.restart).Valid()
              && forall status {:trigger Spliced(sc, s, a, status)} ::
                   Spliced(sc, s, a, status) == Splice(s.handle.Captured(a.pattern, a.restart), QueryOf(sc, a, status), sc.compare)
                   && (Spliced(sc, s, a, status).1 != [] ==> TryGetDirInfoLayout(sc.infoClass).Some? && !NtSuccess(status))
  {
    hide Splice, TryGetDirInfoLayout;
    if !s.reported && sc.hooks.overlay {
      CapturedValid(s.handle, a.pattern, a.restart);
      forall status ensures Spliced(sc, s, a, status).1 != [] ==> TryGetDirInfoLayout(sc.infoClass).Some? && !NtSuccess(status) {
        SpliceEmits(s.handle.Captured(a.pattern, a.restart), QueryOf(sc, a, status), sc.compare);
      }
    }
  }

  lemma CapturedValid(h: Handle, pattern: Option<Pattern>, restart: bool)
    requires h.Valid()
    ensures h.Captured(pattern, restart).Valid()
  {}

  class HandleOverlay {
    const compare: Compare
    var started: bool
    var cursor: nat
    var snapshot: seq<Name>
    var filter: Pattern
    var filterSet: bool
    var enumerationHasBeenReported: bool

    function Value(): Handle
      reads this
    {
      Handle(started, cursor, snapshot, filter, filterSet)
    }

    constructor (compare: Compare)
      ensures this.compare == compare && Value() == Handle(false, 0, [], [], false) && !enumerationHasBeenReported
    {
      this.compare := compare;
      started, cursor, snapshot, filter, filterSet := false, 0, [], [], false;
      enumerationHasBeenReported := false;
    }

    /** Remember the wildcard of a scan: the first one given, until a restart. */
    method CaptureOverlayEnumFilter(pattern: Option<Pattern>, restart: bool)
      modifies this`filter, this`filterSet
      ensures Value() == old(Value()).Captured(pattern, restart)
    {
      if restart {
        filterSet, filter := false, [];
      }
      if !filterSet && pattern.Some? && |pattern.value| > 0 {
        filter, filterSet := pattern.value, true;
      }
    }

    method EnsureOverlayEnumSnapshot(d: Directory)
      modifies this`started, this`snapshot
      ensures Value() == old(Value()).Ensure(d, compare)
    {
      if started {
        return;
      }
      snapshot := [];
      if d.named && !d.isDirectory {
        started := true;
        return;
      }
      if d.named {
        var names := d.children;
        var kept: seq<Name> := [];
        var i := 0;
        while i < |names|
          invariant i <= |names| && kept == Visible(names[..i], d.OffDisk())
        {
          assert names[..i + 1][..i] == names[..i];
          if !d.onDisk(names[i]) {
            kept := kept + [names[i]];
          }
          i := i + 1;
        }
        assert names[..i] == names;
        snapshot := SortNames(kept, compare);
      }
      started := true;
    }

    /** The next entry for `FindNextFile`, once the real entries are done. */
    method NextOverlayFindDataW(d: Directory) returns (name: Option<Name>)
      requires Value().Valid()
      modifies this`started, this`snapshot, this`cursor
      ensures (Value(), name) == FindNext(old(Value()), d, compare)
    {
      hide FirstMatch, SnapshotOf, Compare.NameMatchesFilter, FindNext;
      FindNextIs(Value(), d, compare);
      EnsureOverlayEnumSnapshot(d);
      ghost var first := FirstMatch(snapshot, cursor, filter, compare);
      FirstMatchStep(snapshot, cursor, filter, compare);
      while cursor < |snapshot| && !compare.NameMatchesFilter(snapshot[cursor], filter)
        invariant cursor <= |snapshot| && FirstMatch(snapshot, cursor, filter, compare) == first
        modifies this`cursor
      {
        FirstMatchStep(snapshot, cursor, filter, compare);
        cursor := cursor + 1;
      }
      FirstMatchStep(snapshot, cursor, filter, compare);
      if cursor >= |snapshot| {
        return None;
      }
      name := Some(snapshot[cursor]);
      cursor := cursor + 1;
    }

    /** The loop of the splice: one record after the other from the start of the buffer. */
    method EmitRecords(buffer: array<byte>, infoClass: nat, single: bool, stat: Name -> Option<Stat>) returns (information: Option<nat>)
      requires TryGetDirInfoLayout(infoClass).Some? && cursor <= |snapshot| && buffer.Length <= 0xFFFF_FFF8 && Short(snapshot)
      modifies this`cursor, buffer
      ensures var l := TryGetDirInfoLayout(infoClass).value;
              var r := Take(snapshot[old(cursor)..], filter, compare, l, buffer.Length, 0, single);
              && cursor == old(cursor) + r.1
              && (r.0 == [] ==> information == None && buffer[..] == old(buffer[..]))
              && (r.0 != [] ==> && Room(l, r.0, buffer.Length) && buffer[..] == Written(old(buffer[..]), infoClass, r.0, stat)
                                && information == Some(Offsets(l, r.0)[|r.0| - 1] + RecordSize(l, r.0[|r.0| - 1]))
                                && Listed(buffer[..], l) == r.0)
    {
      hide TryGetDirInfoLayout, Written, Room, OffsetAfter, Offsets, Take, RecordBytes, Listed, Splicing, Overwrite, PutU32, Compare.NameMatchesFilter;
      var l := TryGetDirInfoLayout(infoClass).value;
      ghost var b, ns, start := buffer[..], snapshot[cursor..], cursor;
      ghost var e: seq<Name> := [];
      var writeOff: nat, prevOff: Option<nat>, lastEnd, more := 0, None, 0, true;
      ShortFrom(snapshot, cursor);
      SplicingStarts(b, infoClass, ns, filter, compare, single, stat);
      while more && cursor < |snapshot|
        invariant start <= cursor <= |snapshot| && |b| == buffer.Length
        invariant Splicing(b, buffer[..], infoClass, ns, filter, compare, single, stat, e, cursor - start, writeOff, prevOff, more)
        invariant e == [] <==> prevOff == None
        invariant prevOff.Some? ==> lastEnd == prevOff.value + RecordSize(l, e[|e| - 1])
        decreases |snapshot| - cursor, more
      {
        ghost var used := cursor - start;
        assert snapshot[cursor] == ns[used];
        SplicingSkips(b, buffer[..], infoClass, ns, filter, compare, single, stat, e, used, writeOff, prevOff);
        var nm := snapshot[cursor];
        if !compare.NameMatchesFilter(nm, filter) {
          cursor := cursor + 1;
        } else {
          var size := RecordSize(l, nm);
          if writeOff + size > buffer.Length {
            more := false;
          } else {
            SplicingEmits(b, buffer[..], infoClass, ns, filter, compare, single, stat, e, used, writeOff, prevOff);
            WriteRecord(buffer, writeOff, infoClass, nm, stat(nm));
            if prevOff.Some? {
              StoreU32(buffer, prevOff.value, writeOff - prevOff.value);
            }
            prevOff, lastEnd := Some(writeOff), writeOff + size;
            cursor := cursor + 1;
            e := e + [nm];
            writeOff := AlignUp8(writeOff + size);
            more := !single;
          }
        }
      }
      SplicingEnds(b, buffer[..], infoClass, ns, filter, compare, single, stat, e, cursor - start, writeOff, prevOff, more);
      information := if prevOff.Some? then Some(lastEnd) else None;
    }

    /** Once the real scan is done, writes the next entries into the caller's buffer and
        rewrites the status; else leaves both as they are. */
    method InsertOverlayEntries(buffer: array<byte>, infoClass: nat, single: bool, restart: bool, d: Directory,
                                stat: Name -> Option<Stat>, status: NtStatus) returns (result: NtStatus, information: Option<nat>)
      requires Value().Valid() && buffer.Length <= 0xFFFF_FFF8 && Short(snapshot) && Short(d.children)
      modifies this`started, this`snapshot, this`cursor, buffer
      ensures var (h, e) := Splice(old(Value()), Query(d, infoClass, buffer.Length, single, restart, status), compare);
              && Value() == h
              && (e == [] ==> result == status && information == None && buffer[..] == old(buffer[..]))
              && (e != [] ==> var l := TryGetDirInfoLayout(infoClass).value;
                              && result == STATUS_SUCCESS
                              && Room(l, e, buffer.Length) && buffer[..] == Written(old(buffer[..]), infoClass, e, stat)
                              && information == Some(Offsets(l, e)[|e| - 1] + RecordSize(l, e[|e| - 1]))
                              && Listed(buffer[..], l) == e)
    {
      hide TryGetDirInfoLayout, Splice, SnapshotOf, Take, Written, Room, Offsets, Listed, Short;
      result, information := status, None;
      ghost var h := Value();
      SpliceIs(h, Query(d, infoClass, buffer.Length, single, restart, status), compare);
      var layout := TryGetDirInfoLayout(infoClass);
      if layout == None || (d.named && !d.isDirectory) {
        return;
      }
      if restart {
        started, cursor, snapshot := false, 0, [];
        NothingShort();
      }
      ShortSnapshot(Value(), d, compare);
      EnsureOverlayEnumSnapshot(d);
      if snapshot == [] || cursor >= |snapshot| || NtSuccess(status) || !Exhausted(status) {
        return;
      }
      information := EmitRecords(buffer, infoClass, single, stat);
      if information.Some? {
        result := STATUS_SUCCESS;
      }
    }

    /** The handle's part of the state of a scan. */
    function Now(position: nat): State
      reads this
    {
      State(position, Value(), enumerationHasBeenReported)
    }

    /** The overlay's part of a query: the pattern, then the splice. */
    method CaptureAndInsert(buffer: array<byte>, infoClass: nat, single: bool, restart: bool, pattern: Option<Pattern>, d: Directory,
                            stat: Name -> Option<Stat>, hooks: Hooks, status: NtStatus, ghost sc: Scan, ghost position: nat)
      returns (result: NtStatus, information: Option<nat>)
      requires Value().Valid() && buffer.Length <= 0xFFFF_FFF8 && Short(snapshot) && Short(d.children)
      requires sc.infoClass == infoClass && sc.length == buffer.Length && sc.dir == d && sc.compare == compare && sc.hooks == hooks
      modifies this`started, this`snapshot, this`cursor, this`filter, this`filterSet, buffer
      ensures var (h, e) := Spliced(sc, old(Now(position)), Ask(single, restart, pattern), status);
              && Value() == h
              && (e == [] ==> result == status && buffer[..] == old(buffer[..]))
              && (e != [] ==> !NtSuccess(status) && result == STATUS_SUCCESS && TryGetDirInfoLayout(infoClass).Some?
                              && Listed(buffer[..], TryGetDirInfoLayout(infoClass).value) == e)
    {
      hide TryGetDirInfoLayout, Spliced, Splice, Short, Listed, Written, Room, Offsets, Handle.Captured, Handle.Valid, NtSuccess;
      SplicedIs(sc, Now(position), Ask(single, restart, pattern));
      result, information := status, None;
      if hooks.overlay && !enumerationHasBeenReported {
        CaptureOverlayEnumFilter(pattern, restart);
        result, information := InsertOverlayEntries(buffer, infoClass, single, restart, d, stat, status);
      }
    }

    /** One intercepted query of a directory handle: the real one, the filter over it, and the
        splice once the real scan is done. A handle whose enumeration was reported already is
        passed through. */
    method DetouredNtQueryDirectoryFile(scan: DirectoryScan, buffer: array<byte>, infoClass: nat, single: bool, flags: bv32,
                                        pattern: Option<Pattern>, visible: Name -> bool, hooks: Hooks, d: Directory,
                                        stat: Name -> Option<Stat>) returns (result: NtStatus, information: Option<nat>)
      requires TryGetDirInfoLayout(infoClass).Some? ==> AllGood(scan.batches, TryGetDirInfoLayout(infoClass).value)
      requires (forall b <- scan.batches :: |b| == buffer.Length) && !NtSuccess(scan.exhausted) && scan.position <= |scan.batches|
      requires Value().Valid() && buffer.Length <= 0xFFFF_FFF8 && Short(snapshot) && Short(d.children)
      modifies scan`position, this, buffer
      ensures Serves(Scan(scan.batches, scan.exhausted, infoClass, buffer.Length, visible, d, compare, hooks), old(Now(scan.position)),
                     Ask(single, Restarts(flags), pattern), result, buffer[..], Now(scan.position))
    {
      hide TryGetDirInfoLayout, NextSeen, Spliced, AllGood, Short, Listed, Restarts, NtSuccess, Handle.Valid;
      ghost var sc := Scan(scan.batches, scan.exhausted, infoClass, buffer.Length, visible, d, compare, hooks);
      ghost var position := scan.position;
      Successful();
      result := QuerySeen(scan, buffer, infoClass, flags, visible, hooks.filter && !enumerationHasBeenReported);
      result, information := CaptureAndInsert(buffer, infoClass, single, Restarts(flags), pattern, d, stat, hooks, result, sc, position);
      enumerationHasBeenReported := enumerationHasBeenReported || (NtSuccess(result) && hooks.reporting);
    }
  }
}
