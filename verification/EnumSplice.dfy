/** Overlay entries as packed records spliced into the caller's buffer, and the enumeration
    state of an open handle. */
module EnumSplice {
  import opened Optional
  import opened Words
  import opened DirRecords
  import opened EnumFilter
  import opened EnumRequery
  import opened EnumCursor

  // ---- One record ----

  type Fixed = s: seq<byte> | |s| == 52 witness seq(52, _ => 0 as byte)
  type FileId = s: seq<byte> | |s| == 8 witness seq(8, _ => 0 as byte)

  /** What the backing file's attributes give: times, sizes and attributes, and the file id. */
  datatype Stat = Stat(fixed: Fixed, id: FileId)

  /** Twice as many bytes still fit a length word. */
  const MAX_COMPONENT := 0x7FFF_FFFF

  /** The same bytes with those of `r` at `at`. */
  function Overwrite(b: seq<byte>, at: nat, r: seq<byte>): (s: seq<byte>)
    requires at + |r| <= |b|
    ensures |s| == |b|
  {
    b[..at] + r + b[at + |r|..]
  }

  /** The metadata of the backing file, where its layout has room for it. */
  function Filled(r: seq<byte>, infoClass: nat, stat: Option<Stat>): (s: seq<byte>)
    requires TryGetDirInfoLayout(infoClass).Some? && |r| >= TryGetDirInfoLayout(infoClass).value.nameOff
    ensures |s| == |r|
  {
    if infoClass == 12 || stat == None then r
    else
      var s := Overwrite(r, 8, stat.value.fixed);
      if infoClass == 37 then Overwrite(s, 96, stat.value.id)
      else if infoClass == 38 then Overwrite(s, 72, stat.value.id)
      else s
  }

  function RecordBytes(infoClass: nat, name: Name, stat: Option<Stat>): (r: seq<byte>)
    requires TryGetDirInfoLayout(infoClass).Some? && |name| <= MAX_COMPONENT
    ensures |r| == RecordSize(TryGetDirInfoLayout(infoClass).value, name)
  {
    var l := TryGetDirInfoLayout(infoClass).value;
    Filled(PutU32(Zeros(l.nameOff), l.nameLenOff, 2 * |name|) + WideBytes(name), infoClass, stat)
  }

  /** In each of the six layouts the metadata leaves link, length and name alone. */
  lemma FilledFrame(r: seq<byte>, infoClass: nat, stat: Option<Stat>)
    requires TryGetDirInfoLayout(infoClass).Some? && |r| >= TryGetDirInfoLayout(infoClass).value.nameOff
    ensures var l, s := TryGetDirInfoLayout(infoClass).value, Filled(r, infoClass, stat);
            && s[..4] == r[..4]
            && s[l.nameLenOff..l.nameLenOff + 4] == r[l.nameLenOff..l.nameLenOff + 4]
            && s[l.nameOff..] == r[l.nameOff..]
  {
    hide Overwrite;
    var l, s := TryGetDirInfoLayout(infoClass).value, Filled(r, infoClass, stat);
    if infoClass != 12 && stat.Some? {
      var m := Overwrite(r, 8, stat.value.fixed);
      forall lo: nat, hi: nat | lo <= hi <= |r| && (hi <= 8 || 60 <= lo) ensures m[lo..hi] == r[lo..hi] {
        OverwriteKeeps(r, 8, stat.value.fixed, lo, hi);
      }
      var at := if infoClass == 37 then 96 else 72;
      if infoClass == 37 || infoClass == 38 {
        OverwriteKeeps(m, at, stat.value.id, 0, 4);
        OverwriteKeeps(m, at, stat.value.id, 60, 64);
        OverwriteKeeps(m, at, stat.value.id, l.nameOff, |r|);
      }
    }
    assert s[..4] == s[0..4] && r[..4] == r[0..4] && s[l.nameOff..] == s[l.nameOff..|s|] && r[l.nameOff..] == r[l.nameOff..|r|];
  }

  lemma OverwriteReads(b: seq<byte>, at: nat, r: seq<byte>)
    requires at + |r| <= |b|
    ensures Overwrite(b, at, r)[at..at + |r|] == r
  {}

  /** And it puts times, sizes and attributes from the creation time up to the name's length, and
      the id where a class has one; a names-only record has neither. */
  lemma FilledReads(r: seq<byte>, infoClass: nat, stat: Stat)
    requires TryGetDirInfoLayout(infoClass).Some? && |r| >= TryGetDirInfoLayout(infoClass).value.nameOff
    ensures FieldsOf(infoClass).Some? && TryGetDirInfoLayout(infoClass).value.nameOff <= 104
    ensures var fs, s := FieldsOf(infoClass).value, Filled(r, infoClass, Some(stat));
            && (infoClass == 12 ==> s == r)
            && (infoClass != 12 ==>
                  var at, end := OffsetOf(fs, Some(CreationTime), 0), OffsetOf(fs, Some(FileNameLength), 0);
                  at <= end <= |s| && s[at..end] == stat.fixed)
            && (infoClass in {37, 38} ==>
                  var at := OffsetOf(fs, Some(FileId), 0); at + 8 <= |s| && s[at..at + 8] == stat.id)
  {
    hide Overwrite, OffsetOf, Basic;
    forall rest: Fields
      ensures OffsetOf(Basic(rest), Some(CreationTime), 0) == 8 && OffsetOf(Basic(rest), Some(FileNameLength), 0) == 60
      ensures OffsetOf(Basic(rest), Some(FileId), 0) == OffsetOf(rest, Some(FileId), 64)
    {
      BasicOffset(rest, Some(CreationTime));
      BasicOffset(rest, Some(FileNameLength));
      BasicOffset(rest, Some(FileId));
    }
    RestOffset(Some(FileId));
    if infoClass != 12 {
      var m := Overwrite(r, 8, stat.fixed);
      OverwriteReads(r, 8, stat.fixed);
      if infoClass == 37 || infoClass == 38 {
        var at := if infoClass == 37 then 96 else 72;
        OverwriteReads(m, at, stat.id);
        OverwriteKeeps(m, at, stat.id, 8, 60);
      }
    }
  }

  lemma OverwriteKeeps(b: seq<byte>, at: nat, r: seq<byte>, lo: nat, hi: nat)
    requires at + |r| <= |b| && lo <= hi <= |b| && (hi <= at || at + |r| <= lo)
    ensures Overwrite(b, at, r)[lo..hi] == b[lo..hi]
  {}

  lemma RecordReads(infoClass: nat, name: Name, stat: Option<Stat>)
    requires TryGetDirInfoLayout(infoClass).Some? && |name| <= MAX_COMPONENT
    ensures var l, r := TryGetDirInfoLayout(infoClass).value, RecordBytes(infoClass, name, stat);
            U32At(r, 0) == 0 && U32At(r, l.nameLenOff) == 2 * |name| && r[l.nameOff..] == WideBytes(name)
  {
    hide TryGetDirInfoLayout, Filled, RecordBytes, PutU32, Zeros, WideBytes, U32At;
    var l := TryGetDirInfoLayout(infoClass).value;
    var h := PutU32(Zeros(l.nameOff), l.nameLenOff, 2 * |name|);
    RecordKeeps(infoClass, name, stat);
    HeaderReads(l.nameOff, l.nameLenOff, 2 * |name|);
    PrefixWord(h, WideBytes(name), 0);
    PrefixWord(h, WideBytes(name), l.nameLenOff);
  }

  lemma RecordKeeps(infoClass: nat, name: Name, stat: Option<Stat>)
    requires TryGetDirInfoLayout(infoClass).Some? && |name| <= MAX_COMPONENT
    ensures var l, r := TryGetDirInfoLayout(infoClass).value, RecordBytes(infoClass, name, stat);
            var w := PutU32(Zeros(l.nameOff), l.nameLenOff, 2 * |name|) + WideBytes(name);
            && |r| == |w| == l.nameOff + 2 * |name| && U32At(r, 0) == U32At(w, 0) && U32At(r, l.nameLenOff) == U32At(w, l.nameLenOff)
            && r[l.nameOff..] == WideBytes(name)
  {
    hide TryGetDirInfoLayout, Filled, PutU32, Zeros, WideBytes, U32At;
    var l, r := TryGetDirInfoLayout(infoClass).value, RecordBytes(infoClass, name, stat);
    var h := PutU32(Zeros(l.nameOff), l.nameLenOff, 2 * |name|);
    var w := h + WideBytes(name);
    FilledFrame(w, infoClass, stat);
    assert w[l.nameOff..] == WideBytes(name);
    assert r[0..4] == r[..4] && w[0..4] == w[..4];
    SameSliceWord(r, w, 0);
    SameSliceWord(r, w, l.nameLenOff);
  }

  lemma PrefixWord(h: seq<byte>, t: seq<byte>, at: nat)
    requires at + 4 <= |h|
    ensures U32At(h + t, at) == U32At(h, at)
  {}

  lemma SameSliceWord(a: seq<byte>, b: seq<byte>, at: nat)
    requires at + 4 <= |a| && at + 4 <= |b| && a[at..at + 4] == b[at..at + 4]
    ensures U32At(a, at) == U32At(b, at)
  {
    var x, y := a[at..at + 4], b[at..at + 4];
    assert a[at] == x[0] && a[at + 1] == x[1] && a[at + 2] == x[2] && a[at + 3] == x[3];
    assert b[at] == y[0] && b[at + 1] == y[1] && b[at + 2] == y[2] && b[at + 3] == y[3];
  }

  lemma HeaderReads(n: nat, at: nat, v: u32)
    requires 4 <= at && at + 4 <= n
    ensures U32At(PutU32(Zeros(n), at, v), at) == v && U32At(PutU32(Zeros(n), at, v), 0) == 0
  {
    PutU32At(Zeros(n), at, v);
    hide U32Bytes;
  }

  /** The bytes at `o` are those of a record, whatever its link. */
  ghost predicate RestIs(b: seq<byte>, o: nat, r: seq<byte>) {
    o + |r| <= |b| && forall x :: 4 <= x < |r| ==> b[o + x] == r[x]
  }

  lemma RestReads(b: seq<byte>, o: nat, infoClass: nat, name: Name, stat: Option<Stat>)
    requires TryGetDirInfoLayout(infoClass).Some? && |name| <= MAX_COMPONENT
    requires RestIs(b, o, RecordBytes(infoClass, name, stat))
    ensures var l := TryGetDirInfoLayout(infoClass).value;
            Fits(b, o, l) && NameLen(b, o, l) == 2 * |name| && NameAt(b, o, l) == name
  {
    hide U32At, WideBytes, RecordBytes;
    var l, r := TryGetDirInfoLayout(infoClass).value, RecordBytes(infoClass, name, stat);
    RecordReads(infoClass, name, stat);
    SameWordAt(b, o, r, l.nameLenOff);
    forall i | 0 <= i < |name| ensures WideAt(b, o + l.nameOff + 2 * i) == name[i] {
      WideBytesAt(name, i);
      assert r[l.nameOff..][2 * i] == r[l.nameOff + 2 * i] && r[l.nameOff..][2 * i + 1] == r[l.nameOff + 2 * i + 1];
    }
  }

  lemma SameWordAt(b: seq<byte>, o: nat, r: seq<byte>, at: nat)
    requires RestIs(b, o, r) && 4 <= at && at + 4 <= |r|
    ensures U32At(b, o + at) == U32At(r, at)
  {
    assert b[o + at] == r[at] && b[o + (at + 1)] == r[at + 1] && b[o + (at + 2)] == r[at + 2] && b[o + (at + 3)] == r[at + 3];
  }

  // ---- A chain of records ----

  /** Where the next record goes. */
  function OffsetAfter(l: Layout, e: seq<Name>): nat {
    if e == [] then 0 else AlignUp8(OffsetAfter(l, e[..|e| - 1]) + RecordSize(l, e[|e| - 1]))
  }

  function Offsets(l: Layout, e: seq<Name>): (ks: seq<nat>)
    ensures |ks| == |e|
  {
    if e == [] then [] else Offsets(l, e[..|e| - 1]) + [OffsetAfter(l, e[..|e| - 1])]
  }

  /** The records of these names fit into `length` bytes. */
  ghost predicate Room(l: Layout, e: seq<Name>, length: nat) {
    length <= 0xFFFF_FFF8 && (e == [] ||
      (Room(l, e[..|e| - 1], length) && |e[|e| - 1]| <= MAX_COMPONENT
       && OffsetAfter(l, e[..|e| - 1]) + RecordSize(l, e[|e| - 1]) <= length))
  }

  /** Records neither overlap nor leave the buffer, and start at multiples of 8. */
  ghost predicate Apart(l: Layout, e: seq<Name>, ks: seq<nat>, after: nat, length: nat)
    requires |ks| == |e|
  {
    && (forall i {:trigger ks[i]} :: 0 <= i < |e| ==> ks[i] + RecordSize(l, e[i]) <= after && ks[i] + RecordSize(l, e[i]) <= length
                                                      && ks[i] % 8 == 0 && |e[i]| <= MAX_COMPONENT)
    && (forall i, j {:trigger ks[i], ks[j]} :: 0 <= i < j < |e| ==> ks[i] + RecordSize(l, e[i]) <= ks[j])
    && (e != [] ==> ks[0] == 0)
  }

  lemma {:induction false} OffsetsApart(l: Layout, e: seq<Name>, length: nat)
    requires Room(l, e, length)
    ensures Apart(l, e, Offsets(l, e), OffsetAfter(l, e), length)
    ensures OffsetAfter(l, e) % 8 == 0
  {
    hide AlignUp8, RecordSize, Apart;
    if e != [] {
      var n := |e| - 1;
      OffsetsApart(l, e[..n], length);
      ApartMore(l, e, Offsets(l, e[..n]), OffsetAfter(l, e[..n]), OffsetAfter(l, e), length);
      Align8(OffsetAfter(l, e[..n]) + RecordSize(l, e[n]));
    } else {
      NoneApart(l, length);
    }
  }

  lemma NoneApart(l: Layout, length: nat)
    ensures Apart(l, [], [], 0, length)
  {}

  lemma Align8(v: nat)
    requires v <= 0xFFFF_FFF8
    ensures AlignUp8(v) % 8 == 0 && v <= AlignUp8(v)
  {}

  lemma ApartMore(l: Layout, e: seq<Name>, ks: seq<nat>, at: nat, after: nat, length: nat)
    requires e != [] && |ks| == |e| - 1 && Apart(l, e[..|e| - 1], ks, at, length) && at % 8 == 0
    requires at + RecordSize(l, e[|e| - 1]) <= after && at + RecordSize(l, e[|e| - 1]) <= length && |e[|e| - 1]| <= MAX_COMPONENT
    requires |e| == 1 ==> at == 0
    ensures Apart(l, e, ks + [at], after, length)
  {
    hide RecordSize;
    var front, m := e[..|e| - 1], ks + [at];
    forall i | 0 <= i < |ks| ensures m[i] == ks[i] && e[i] == front[i] {}
  }

  /** Write a record at `at` and link the one before it to it. */
  function Append(b: seq<byte>, prev: Option<nat>, at: nat, r: seq<byte>): (s: seq<byte>)
    requires at + |r| <= |b| <= 0xFFFF_FFF8 && (prev.Some? ==> prev.value + 4 <= at)
    ensures |s| == |b|
  {
    var s := Overwrite(b, at, r);
    if prev == None then s else PutU32(s, prev.value, at - prev.value)
  }

  lemma AppendKeeps(b: seq<byte>, prev: Option<nat>, at: nat, r: seq<byte>, i: nat)
    requires at + |r| <= |b| <= 0xFFFF_FFF8 && (prev.Some? ==> prev.value + 4 <= at)
    requires i < at && (prev.Some? ==> !(prev.value <= i < prev.value + 4))
    ensures Append(b, prev, at, r)[i] == b[i]
  {}

  lemma AppendWrites(b: seq<byte>, prev: Option<nat>, at: nat, r: seq<byte>)
    requires at + |r| <= |b| <= 0xFFFF_FFF8 && (prev.Some? ==> prev.value + 4 <= at)
    ensures Append(b, prev, at, r)[at..at + |r|] == r
    ensures prev.Some? ==> U32At(Append(b, prev, at, r), prev.value) == at - prev.value
  {
    hide U32At, U32Bytes;
    var s := Overwrite(b, at, r);
    assert s[at..at + |r|] == r;
    if prev.Some? {
      PutU32At(s, prev.value, at - prev.value);
    }
  }

  function LastOffset(l: Layout, e: seq<Name>): Option<nat> {
    if e == [] then None else Some(OffsetAfter(l, e[..|e| - 1]))
  }

  lemma LastBefore(l: Layout, e: seq<Name>, length: nat)
    requires Room(l, e, length) && Sound(l)
    ensures LastOffset(l, e).Some? ==> LastOffset(l, e).value + 4 <= OffsetAfter(l, e)
    ensures e != [] ==> LastOffset(l, e) == Some(Offsets(l, e)[|e| - 1])
  {
    if e != [] {
      Align8(OffsetAfter(l, e[..|e| - 1]) + RecordSize(l, e[|e| - 1]));
    }
  }

  /** The buffer once the records of these names are in it. */
  function Written(b: seq<byte>, infoClass: nat, e: seq<Name>, stat: Name -> Option<Stat>): (r: seq<byte>)
    requires TryGetDirInfoLayout(infoClass).Some? && Room(TryGetDirInfoLayout(infoClass).value, e, |b|)
    ensures |r| == |b|
  {
    if e == [] then b
    else
      var l, n := TryGetDirInfoLayout(infoClass).value, |e| - 1;
      LastBefore(l, e[..n], |b|);
      Append(Written(b, infoClass, e[..n], stat), LastOffset(l, e[..n]), OffsetAfter(l, e[..n]),
             RecordBytes(infoClass, e[n], stat(e[n])))
  }

  function LinkOf(ks: seq<nat>, i: nat): int
    requires i < |ks|
  {
    var here: int := ks[i];
    if i == |ks| - 1 then 0 else ks[i + 1] - here
  }

  /** The record at `ks[i]` links to the next one and holds the bytes of its name. */
  ghost predicate HoldsAt(b: seq<byte>, infoClass: nat, e: seq<Name>, ks: seq<nat>, stat: Name -> Option<Stat>, i: nat)
    requires TryGetDirInfoLayout(infoClass).Some? && |ks| == |e| && i < |e|
  {
    |e[i]| <= MAX_COMPONENT && RestIs(b, ks[i], RecordBytes(infoClass, e[i], stat(e[i]))) && ks[i] + 4 <= |b| && U32At(b, ks[i]) == LinkOf(ks, i)
  }

  ghost predicate Holds(b: seq<byte>, infoClass: nat, e: seq<Name>, ks: seq<nat>, stat: Name -> Option<Stat>)
    requires TryGetDirInfoLayout(infoClass).Some? && |ks| == |e|
  {
    forall i {:trigger HoldsAt(b, infoClass, e, ks, stat, i)} {:trigger ks[i]} :: 0 <= i < |e| ==> HoldsAt(b, infoClass, e, ks, stat, i)
  }

  /** The record just written. */
  lemma HoldsLast(b: seq<byte>, infoClass: nat, e: seq<Name>, ks: seq<nat>, stat: Name -> Option<Stat>, prev: Option<nat>)
    requires TryGetDirInfoLayout(infoClass).Some? && e != [] && |ks| == |e| && |e[|e| - 1]| <= MAX_COMPONENT && |b| <= 0xFFFF_FFF8
    requires ks[|e| - 1] + RecordSize(TryGetDirInfoLayout(infoClass).value, e[|e| - 1]) <= |b|
    requires prev.Some? ==> prev.value + 4 <= ks[|e| - 1]
    ensures HoldsAt(Append(b, prev, ks[|e| - 1], RecordBytes(infoClass, e[|e| - 1], stat(e[|e| - 1]))), infoClass, e, ks, stat, |e| - 1)
  {
    hide U32At, RecordBytes, Append, TryGetDirInfoLayout, RestIs;
    var n := |e| - 1;
    var r := RecordBytes(infoClass, e[n], stat(e[n]));
    AppendWrites(b, prev, ks[n], r);
    RecordReads(infoClass, e[n], stat(e[n]));
    SameStart(Append(b, prev, ks[n], r), ks[n], r);
  }

  /** One more record leaves the earlier ones as they are, and the last of them linked to it. */
  lemma HoldsStill(b: seq<byte>, infoClass: nat, e: seq<Name>, ks: seq<nat>, stat: Name -> Option<Stat>, at: nat, r: seq<byte>, i: nat)
    requires TryGetDirInfoLayout(infoClass).Some? && |e| > 1 && |ks| == |e| && at == ks[|e| - 1] && at + |r| <= |b| <= 0xFFFF_FFF8
    requires forall j :: 0 <= j < |e| - 1 ==> ks[j] + RecordSize(TryGetDirInfoLayout(infoClass).value, e[j]) <= ks[j + 1]
    requires i < |e| - 1 && HoldsAt(b, infoClass, e[..|e| - 1], ks[..|e| - 1], stat, i)
    requires i < |e| - 2 ==> ks[i + 1] <= ks[|e| - 2]
    ensures ks[|e| - 2] + 4 <= at && HoldsAt(Append(b, Some(ks[|e| - 2]), at, r), infoClass, e, ks, stat, i)
  {
    hide U32At, RecordBytes, Append, TryGetDirInfoLayout;
    var n, rec := |e| - 1, RecordBytes(infoClass, e[i], stat(e[i]));
    var w := Append(b, Some(ks[n - 1]), at, r);
    assert ks[..n][i] == ks[i] && e[..n][i] == e[i];
    assert ks[i] + |rec| <= ks[i + 1];
    forall x | 4 <= x < |rec| ensures w[ks[i] + x] == rec[x] {
      assert b[ks[i] + x] == rec[x];
      AppendKeeps(b, Some(ks[n - 1]), at, r, ks[i] + x);
    }
    if i == n - 1 {
      AppendWrites(b, Some(ks[n - 1]), at, r);
    } else {
      assert ks[..n][i + 1] == ks[i + 1];
      forall x | ks[i] <= x < ks[i] + 4 ensures w[x] == b[x] {
        AppendKeeps(b, Some(ks[n - 1]), at, r, x);
      }
      SameWord(w, b, ks[i]);
    }
  }

  lemma SameStart(w: seq<byte>, at: nat, r: seq<byte>)
    requires at + |r| <= |w| && w[at..at + |r|] == r && |r| >= 4
    ensures RestIs(w, at, r) && U32At(w, at) == U32At(r, 0)
  {
    forall x | 0 <= x < |r| ensures w[at + x] == r[x] {
      assert w[at..at + |r|][x] == r[x];
    }
    assert w[at + 0] == r[0];
  }

  lemma {:induction false} WrittenHolds(b: seq<byte>, infoClass: nat, e: seq<Name>, stat: Name -> Option<Stat>)
    requires TryGetDirInfoLayout(infoClass).Some? && Room(TryGetDirInfoLayout(infoClass).value, e, |b|)
    ensures Holds(Written(b, infoClass, e, stat), infoClass, e, Offsets(TryGetDirInfoLayout(infoClass).value, e), stat)
  {
    hide HoldsAt, Append, RestIs, RecordBytes, RecordSize, AlignUp8, TryGetDirInfoLayout;
    if e != [] {
      var l, n := TryGetDirInfoLayout(infoClass).value, |e| - 1;
      var ks := Offsets(l, e);
      WrittenHolds(b, infoClass, e[..n], stat);
      OffsetsApart(l, e, |b|);
      LastBefore(l, e[..n], |b|);
      var f := Written(b, infoClass, e[..n], stat);
      HoldsLast(f, infoClass, e, ks, stat, LastOffset(l, e[..n]));
      forall i | 0 <= i < n ensures HoldsAt(Written(b, infoClass, e, stat), infoClass, e, ks, stat, i) {
        assert HoldsAt(f, infoClass, e[..n], ks[..n], stat, i);
        HoldsStill(f, infoClass, e, ks, stat, ks[n], RecordBytes(infoClass, e[n], stat(e[n])), i);
      }
    }
  }

  // ---- What a reader finds ----

  lemma {:induction false} ChainWellFormed(b: seq<byte>, l: Layout, ks: seq<nat>, i: nat)
    requires Sound(l) && i < |ks| && Links(b, ks) && forall j :: 0 <= j < |ks| ==> Fits(b, ks[j], l)
    requires forall j :: 0 <= j < |ks| ==> U32At(b, ks[j]) == LinkOf(ks, j)
    requires forall j, k :: 0 <= j < k < |ks| ==> ks[j] + l.nameOff + NameLen(b, ks[j], l) <= ks[k]
    ensures WellFormed(b, ks[i], l)
    decreases |ks| - i
  {
    hide U32At, NameLen, Fits, WellFormed;
    assert U32At(b, ks[i]) == LinkOf(ks, i);
    if i < |ks| - 1 {
      ChainWellFormed(b, l, ks, i + 1);
      assert ks[i] + l.nameOff + NameLen(b, ks[i], l) <= ks[i + 1] < 0x1_0000_0000;
    }
    WellFormedStep(b, ks[i], l);
  }

  lemma WellFormedStep(b: seq<byte>, o: nat, l: Layout)
    requires o + 4 <= |b| && Fits(b, o, l)
    requires U32At(b, o) != 0 ==> U32At(b, o) >= l.nameOff + NameLen(b, o, l) && o + U32At(b, o) < 0x1_0000_0000 && WellFormed(b, o + U32At(b, o), l)
    ensures WellFormed(b, o, l)
  {
    hide U32At, NameLen, Fits;
  }

  /** Following the links from the start of the buffer gives exactly the names written, in
      order, and the chain is well formed. */
  lemma WrittenReads(b: seq<byte>, infoClass: nat, e: seq<Name>, stat: Name -> Option<Stat>)
    requires TryGetDirInfoLayout(infoClass).Some? && Room(TryGetDirInfoLayout(infoClass).value, e, |b|) && e != []
    ensures var l, w := TryGetDirInfoLayout(infoClass).value, Written(b, infoClass, e, stat);
            GoodChain(w, l) && Walk(w, 0, l) == Offsets(l, e) && Listed(w, l) == e
  {
    hide *;
    var l, w := TryGetDirInfoLayout(infoClass).value, Written(b, infoClass, e, stat);
    var ks := Offsets(l, e);
    WrittenHolds(b, infoClass, e, stat);
    OffsetsApart(l, e, |b|);
    RoomLimit(l, e, |b|);
    HeldChain(w, infoClass, e, ks, stat, OffsetAfter(l, e));
    LinksFollowed(w, ks, l);
    ChainWellFormed(w, l, ks, 0);
    ChainListed(w, l, e, ks);
  }

  lemma LinksFollowed(b: seq<byte>, ks: seq<nat>, l: Layout)
    requires ks != [] && Links(b, ks) && forall j :: 0 <= j < |ks| ==> Fits(b, ks[j], l)
    requires forall j :: 0 <= j < |ks| ==> U32At(b, ks[j]) == LinkOf(ks, j)
    ensures Walk(b, ks[0], l) == ks[0..]
  {
    hide U32At, Walk;
    LinksWalk(b, ks, l, 0);
  }

  lemma RoomLimit(l: Layout, e: seq<Name>, length: nat)
    requires Room(l, e, length)
    ensures length <= 0xFFFF_FFF8
  {}

  lemma HeldChain(w: seq<byte>, infoClass: nat, e: seq<Name>, ks: seq<nat>, stat: Name -> Option<Stat>, after: nat)
    requires TryGetDirInfoLayout(infoClass).Some? && |ks| == |e| && e != [] && |w| <= 0xFFFF_FFF8
    requires Holds(w, infoClass, e, ks, stat) && Apart(TryGetDirInfoLayout(infoClass).value, e, ks, after, |w|)
    ensures var l := TryGetDirInfoLayout(infoClass).value;
            && Sound(l) && Links(w, ks) && ks[0] == 0
            && (forall j :: 0 <= j < |ks| ==> Fits(w, ks[j], l) && NameAt(w, ks[j], l) == e[j])
            && (forall j :: 0 <= j < |ks| ==> U32At(w, ks[j]) == LinkOf(ks, j))
            && (forall j, k :: 0 <= j < k < |ks| ==> ks[j] + l.nameOff + NameLen(w, ks[j], l) <= ks[k])
  {
    hide U32At, RecordBytes, NameLen, NameAt, RestIs, TryGetDirInfoLayout;
    var l := TryGetDirInfoLayout(infoClass).value;
    forall j | 0 <= j < |ks| ensures Fits(w, ks[j], l) && NameLen(w, ks[j], l) == 2 * |e[j]| && NameAt(w, ks[j], l) == e[j] {
      assert HoldsAt(w, infoClass, e, ks, stat, j);
      RestReads(w, ks[j], infoClass, e[j], stat(e[j]));
    }
  }

  lemma ChainListed(w: seq<byte>, l: Layout, e: seq<Name>, ks: seq<nat>)
    requires |e| == |ks| && ks != [] && ks[0] == 0 && Walk(w, 0, l) == ks[0..] && WellFormed(w, 0, l) && Sound(l) && |w| <= 0xFFFF_FFF8
    requires forall j :: 0 <= j < |ks| ==> Fits(w, ks[j], l) && NameAt(w, ks[j], l) == e[j]
    ensures GoodChain(w, l) && Walk(w, 0, l) == ks && Listed(w, l) == e
  {
    hide Fits, NameAt, WellFormed, Walk;
    assert ks[0..] == ks;
  }
}
