/** Packed directory records: a chain of variable-length records linked by NextEntryOffset, as
    in section 2.4 of [MS-FSCC]. */
module DirRecords {
  import opened Optional
  import opened Words

  /** Byte offsets of the FileNameLength and FileName fields of a record. */
  datatype Layout = Layout(nameLenOff: nat, nameOff: nat)

  function TryGetDirInfoLayout(infoClass: nat): (l: Option<Layout>)
    ensures l.Some? ==> 8 <= l.value.nameLenOff && l.value.nameLenOff + 4 <= l.value.nameOff <= 104
  {
    match infoClass
    case 1 => Some(Layout(60, 64))
    case 2 => Some(Layout(60, 68))
    case 3 => Some(Layout(60, 94))
    case 12 => Some(Layout(8, 12))
    case 37 => Some(Layout(60, 104))
    case 38 => Some(Layout(60, 80))
    case _ => None
  }

  // ---- The records' fields ----

  datatype Kind = NextEntryOffset | FileIndex | CreationTime | LastAccessTime | LastWriteTime | ChangeTime | EndOfFile
                | AllocationSize | FileAttributes | FileNameLength | EaSize | ShortNameLength | ShortName | FileId

  /** The fields of a record in order, the name last. */
  datatype Fields = FileName | Field(kind: Kind, rest: Fields)

  /** The size of a field in bytes, and what it is aligned to. */
  function SizeOf(k: Kind): (nat, nat) {
    match k
    case NextEntryOffset | FileIndex | FileAttributes | FileNameLength | EaSize => (4, 4)
    case CreationTime | LastAccessTime | LastWriteTime | ChangeTime | EndOfFile | AllocationSize | FileId => (8, 8)
    case ShortNameLength => (1, 1)
    case ShortName => (24, 2)
  }

  function Basic(rest: Fields): Fields {
    Field(NextEntryOffset, Field(FileIndex, Field(CreationTime, Field(LastAccessTime, Field(LastWriteTime, Field(ChangeTime,
      Field(EndOfFile, Field(AllocationSize, Field(FileAttributes, Field(FileNameLength, rest))))))))))
  }

  /** The directory, full, both, names, id-both and id-full classes. */
  function FieldsOf(infoClass: nat): Option<Fields> {
    match infoClass
    case 1 => Some(Basic(FileName))
    case 2 => Some(Basic(Field(EaSize, FileName)))
    case 3 => Some(Basic(Field(EaSize, Field(ShortNameLength, Field(ShortName, FileName)))))
    case 12 => Some(Field(NextEntryOffset, Field(FileIndex, Field(FileNameLength, FileName))))
    case 37 => Some(Basic(Field(EaSize, Field(ShortNameLength, Field(ShortName, Field(FileId, FileName))))))
    case 38 => Some(Basic(Field(EaSize, Field(FileId, FileName))))
    case _ => None
  }

  function Aligned(at: nat, to: nat): nat {
    if to == 8 then (at + 7) / 8 * 8
    else if to == 4 then (at + 3) / 4 * 4
    else if to == 2 then (at + 1) / 2 * 2
    else at
  }

  /** Where natural alignment puts a field, or the name, that comes at byte `at` or later. */
  function OffsetOf(fields: Fields, k: Option<Kind>, at: nat): nat {
    match fields
    case FileName => Aligned(at, 2)
    case Field(kind, rest) =>
      var here := Aligned(at, SizeOf(kind).1);
      if k == Some(kind) then here else OffsetOf(rest, k, here + SizeOf(kind).0)
  }

  lemma OffsetStep(kind: Kind, rest: Fields, k: Option<Kind>, at: nat, here: nat)
    requires here == Aligned(at, SizeOf(kind).1)
    ensures OffsetOf(Field(kind, rest), k, at) == if k == Some(kind) then here else OffsetOf(rest, k, here + SizeOf(kind).0)
  {}

  lemma NameStep(k: Option<Kind>, at: nat)
    ensures OffsetOf(FileName, k, at) == Aligned(at, 2)
  {}

  /** The common fields fill 64 bytes: times, sizes and attributes from byte 8 up to the length of
      the name at byte 60. */
  lemma BasicOffset(rest: Fields, k: Option<Kind>)
    requires k in {None, Some(CreationTime), Some(FileNameLength), Some(FileId)}
    ensures OffsetOf(Basic(rest), k, 0)
            == if k == Some(CreationTime) then 8 else if k == Some(FileNameLength) then 60 else OffsetOf(rest, k, 64)
  {
    hide OffsetOf;
    var f10 := Field(FileNameLength, rest);
    var f9 := Field(FileAttributes, f10);
    var f8 := Field(AllocationSize, f9);
    var f7 := Field(EndOfFile, f8);
    var f6 := Field(ChangeTime, f7);
    var f5 := Field(LastWriteTime, f6);
    var f4 := Field(LastAccessTime, f5);
    var f3 := Field(CreationTime, f4);
    OffsetStep(NextEntryOffset, Field(FileIndex, f3), k, 0, 0);
    OffsetStep(FileIndex, f3, k, 4, 4);
    OffsetStep(CreationTime, f4, k, 8, 8);
    OffsetStep(LastAccessTime, f5, k, 16, 16);
    OffsetStep(LastWriteTime, f6, k, 24, 24);
    OffsetStep(ChangeTime, f7, k, 32, 32);
    OffsetStep(EndOfFile, f8, k, 40, 40);
    OffsetStep(AllocationSize, f9, k, 48, 48);
    OffsetStep(FileAttributes, f10, k, 56, 56);
    OffsetStep(FileNameLength, rest, k, 60, 60);
  }

  /** Behind them come the short name and the file id, where a class has them. */
  lemma RestOffset(k: Option<Kind>)
    requires k in {None, Some(FileId)}
    ensures OffsetOf(FileName, k, 64) == 64 && OffsetOf(Field(EaSize, FileName), k, 64) == 68
    ensures OffsetOf(Field(EaSize, Field(ShortNameLength, Field(ShortName, FileName))), k, 64) == 94
    ensures OffsetOf(Field(EaSize, Field(ShortNameLength, Field(ShortName, Field(FileId, FileName)))), k, 64) == if k == None then 104 else 96
    ensures OffsetOf(Field(EaSize, Field(FileId, FileName)), k, 64) == if k == None then 80 else 72
  {
    hide OffsetOf;
    NameStep(k, 64);
    NameStep(k, 68);
    NameStep(k, 94);
    NameStep(k, 104);
    NameStep(k, 80);
    var id := Field(FileId, FileName);
    OffsetStep(EaSize, FileName, k, 64, 64);
    forall rest | rest in {FileName, id} ensures OffsetOf(Field(EaSize, Field(ShortNameLength, Field(ShortName, rest))), k, 64) == OffsetOf(rest, k, 94) {
      OffsetStep(EaSize, Field(ShortNameLength, Field(ShortName, rest)), k, 64, 64);
      OffsetStep(ShortNameLength, Field(ShortName, rest), k, 68, 68);
      OffsetStep(ShortName, rest, k, 69, 70);
    }
    OffsetStep(FileId, FileName, k, 94, 96);
    OffsetStep(EaSize, id, k, 64, 64);
    OffsetStep(FileId, FileName, k, 68, 72);
  }

  lemma NamesOffset(k: Option<Kind>)
    requires k in {None, Some(FileNameLength)}
    ensures OffsetOf(Field(NextEntryOffset, Field(FileIndex, Field(FileNameLength, FileName))), k, 0) == if k == None then 12 else 8
  {
    hide OffsetOf;
    OffsetStep(NextEntryOffset, Field(FileIndex, Field(FileNameLength, FileName)), k, 0, 0);
    OffsetStep(FileIndex, Field(FileNameLength, FileName), k, 4, 4);
    OffsetStep(FileNameLength, FileName, k, 8, 8);
    NameStep(k, 12);
  }

  /** The table of offsets is the natural layout of the fields: the name's length and the name
      are where the fields before them put them. */
  lemma LayoutOfFields(infoClass: nat)
    ensures TryGetDirInfoLayout(infoClass)
            == match FieldsOf(infoClass)
               case None => None
               case Some(fs) => Some(Layout(OffsetOf(fs, Some(FileNameLength), 0), OffsetOf(fs, None, 0)))
  {
    hide OffsetOf, Basic;
    forall rest: Fields ensures OffsetOf(Basic(rest), Some(FileNameLength), 0) == 60 && OffsetOf(Basic(rest), None, 0) == OffsetOf(rest, None, 64) {
      BasicOffset(rest, Some(FileNameLength));
      BasicOffset(rest, None);
    }
    RestOffset(None);
    NamesOffset(Some(FileNameLength));
    NamesOffset(None);
  }

  /** The name-length field lies between the link and the name. */
  ghost predicate Sound(l: Layout) {
    8 <= l.nameLenOff && l.nameLenOff + 4 <= l.nameOff
  }

  /** The fixed part of a record at `o` lies within the bytes. */
  predicate Fits(b: seq<byte>, o: nat, l: Layout) {
    o + l.nameOff <= |b| && o + l.nameLenOff + 4 <= |b| && o + 4 <= |b|
  }

  /** The bytes of the name, clamped to what is there. */
  function NameLen(b: seq<byte>, o: nat, l: Layout): (n: nat)
    requires Fits(b, o, l)
    ensures o + l.nameOff + n <= |b|
  {
    var n := U32At(b, o + l.nameLenOff);
    if n > |b| - o - l.nameOff then |b| - o - l.nameOff else n
  }

  function NameAt(b: seq<byte>, o: nat, l: Layout): Name
    requires Fits(b, o, l)
  {
    seq(NameLen(b, o, l) / 2, i requires 0 <= i < NameLen(b, o, l) / 2 => WideAt(b, o + l.nameOff + 2 * i))
  }

  /** A record cut off by the end of the bytes gives as much of its name as is left of it. */
  lemma NameTruncated(b: seq<byte>, k: nat, o: nat, l: Layout)
    requires k <= |b| && Fits(b[..k], o, l) && Fits(b, o, l)
    ensures var whole, left, cut := NameAt(b, o, l), (k - o - l.nameOff) / 2, NameAt(b[..k], o, l);
            cut == if |whole| <= left then whole else whole[..left]
  {
    var c := b[..k];
    assert U32At(c, o + l.nameLenOff) == U32At(b, o + l.nameLenOff);
    forall i: nat | i < |NameAt(c, o, l)| ensures NameAt(c, o, l)[i] == WideAt(b, o + l.nameOff + 2 * i) {
      assert WideAt(c, o + l.nameOff + 2 * i) == WideAt(b, o + l.nameOff + 2 * i);
    }
  }

  /** The offsets met by following links from `o`. */
  function Walk(b: seq<byte>, o: nat, l: Layout): seq<nat>
    decreases |b| - o
  {
    if !Fits(b, o, l) then []
    else [o] + (if U32At(b, o) == 0 then [] else Walk(b, o + U32At(b, o), l))
  }

  /** No record reaches into the next one, and no link wraps 32 bits. The chain may be cut
      short by the end of the bytes. */
  ghost predicate WellFormed(b: seq<byte>, o: nat, l: Layout)
    decreases |b| - o
  {
    Fits(b, o, l) && U32At(b, o) != 0 ==>
      && U32At(b, o) >= l.nameOff + NameLen(b, o, l) && o + U32At(b, o) < 0x1_0000_0000
      && (U32At(b, o) > 0 ==> WellFormed(b, o + U32At(b, o), l))
  }

  /** Links are long enough not to reach back into the word they stand in, and none wraps 32 bits. */
  ghost predicate Linked(b: seq<byte>, o: nat, l: Layout)
    decreases |b| - o
  {
    Fits(b, o, l) && U32At(b, o) != 0 ==>
      && U32At(b, o) >= 4 && o + U32At(b, o) < 0x1_0000_0000
      && Linked(b, o + U32At(b, o), l)
  }

  lemma {:induction false} WellFormedLinked(b: seq<byte>, o: nat, l: Layout)
    requires Sound(l) && WellFormed(b, o, l)
    ensures Linked(b, o, l)
    decreases |b| - o
  {
    hide U32At, NameLen;
    if Fits(b, o, l) && U32At(b, o) != 0 {
      WellFormedLinked(b, o + U32At(b, o), l);
    }
  }

  /** The same bytes with the word at `at` replaced. */
  function PutU32(b: seq<byte>, at: nat, v: u32): (r: seq<byte>)
    requires at + 4 <= |b|
    ensures |r| == |b|
  {
    b[..at] + U32Bytes(v) + b[at + 4..]
  }

  lemma PutU32At(b: seq<byte>, at: nat, v: u32)
    requires at + 4 <= |b|
    ensures U32At(PutU32(b, at, v), at) == v
  {
    hide U32Bytes, U32At;
    var r := PutU32(b, at, v);
    assert r[at..at + 4] == U32Bytes(v);
    U32RoundTrip(v, r, at);
  }

  /** Two byte strings agree from `lo` up to `hi`. */
  ghost predicate Agree(a: seq<byte>, b: seq<byte>, lo: nat, hi: nat) {
    |a| == |b| && hi <= |a| && forall i :: lo <= i < hi ==> a[i] == b[i]
  }

  /** A record reads the same when its bytes after the link do. */
  lemma SameRecord(a: seq<byte>, b: seq<byte>, o: nat, l: Layout)
    requires Sound(l) && Fits(b, o, l) && Agree(a, b, o + 4, o + l.nameOff)
    ensures Fits(a, o, l) && NameLen(a, o, l) == NameLen(b, o, l)
    ensures Agree(a, b, o + 4, o + l.nameOff + NameLen(b, o, l)) ==> NameAt(a, o, l) == NameAt(b, o, l)
  {
    assert a[o + l.nameLenOff..o + l.nameLenOff + 4] == b[o + l.nameLenOff..o + l.nameLenOff + 4];
  }

  // ---- Relinking the records that are kept ----

  function Keep(b: seq<byte>, w: seq<nat>, l: Layout, visible: Name -> bool): (ks: seq<nat>)
    requires forall o <- w :: Fits(b, o, l)
    ensures forall k <- ks :: k in w
  {
    if w == [] then []
    else
      var front, o := w[..|w| - 1], w[|w| - 1];
      var ks := Keep(b, front, l, visible);
      if visible(NameAt(b, o, l)) then ks + [o] else ks
  }

  /** Increasing offsets whose records do not overlap. */
  ghost predicate Spaced(b: seq<byte>, w: seq<nat>, l: Layout) {
    && (forall i :: 0 <= i < |w| ==> Fits(b, w[i], l))
    && (forall i, j :: 0 <= i < j < |w| ==> w[i] + l.nameOff + NameLen(b, w[i], l) <= w[j])
  }

  /** Offsets of separate link words. */
  ghost predicate Links(b: seq<byte>, ks: seq<nat>) {
    && (forall i :: 0 <= i < |ks| ==> ks[i] + 4 <= |b| && ks[i] < 0x1_0000_0000)
    && (forall i, j :: 0 <= i < j < |ks| ==> ks[i] + 4 <= ks[j])
  }

  /** Each offset but the last links to the next one. */
  function Relink(b: seq<byte>, ks: seq<nat>): (r: seq<byte>)
    requires Links(b, ks)
    ensures |r| == |b|
  {
    if |ks| <= 1 then b
    else PutU32(Relink(b, ks[..|ks| - 1]), ks[|ks| - 2], ks[|ks| - 1] - ks[|ks| - 2])
  }

  /** The last offset ends the chain. */
  function Relinked(b: seq<byte>, ks: seq<nat>): (r: seq<byte>)
    requires Links(b, ks)
    ensures |r| == |b|
  {
    if ks == [] then b else PutU32(Relink(b, ks), ks[|ks| - 1], 0)
  }

  /** Nothing but the links of the kept records is written. */
  lemma {:induction false} RelinkOnlyLinks(b: seq<byte>, ks: seq<nat>, i: nat)
    requires Links(b, ks)
    requires i < |b| && forall j :: 0 <= j < |ks| - 1 ==> !(ks[j] <= i < ks[j] + 4)
    ensures Relink(b, ks)[i] == b[i]
  {
    if |ks| > 1 {
      RelinkOnlyLinks(b, ks[..|ks| - 1], i);
    }
  }

  lemma RelinkedOnlyLinks(b: seq<byte>, ks: seq<nat>, i: nat)
    requires Links(b, ks)
    requires i < |b| && forall j :: 0 <= j < |ks| ==> !(ks[j] <= i < ks[j] + 4)
    ensures Relinked(b, ks)[i] == b[i]
  {
    RelinkOnlyLinks(b, ks, i);
  }

  /** The links after relinking. */
  lemma {:induction false} RelinkLinks(b: seq<byte>, ks: seq<nat>, i: nat)
    requires Links(b, ks)
    requires i < |ks| - 1
    ensures U32At(Relink(b, ks), ks[i]) == ks[i + 1] - ks[i]
  {
    hide U32Bytes, U32At;
    var n := |ks| - 1;
    var front := ks[..n];
    PutU32At(Relink(b, front), ks[n - 1], ks[n] - ks[n - 1]);
    if i < n - 1 {
      RelinkLinks(b, front, i);
      SameWord(Relink(b, front), Relink(b, ks), ks[i]);
    }
  }

  lemma SameWord(a: seq<byte>, b: seq<byte>, at: nat)
    requires Agree(a, b, at, at + 4)
    ensures U32At(a, at) == U32At(b, at)
  {}

  lemma RelinkedLinks(b: seq<byte>, ks: seq<nat>, i: nat)
    requires Links(b, ks)
    requires i < |ks|
    ensures U32At(Relinked(b, ks), ks[i]) == if i == |ks| - 1 then 0 else ks[i + 1] - ks[i]
  {
    hide U32Bytes, U32At;
    PutU32At(Relink(b, ks), ks[|ks| - 1], 0);
    if i < |ks| - 1 {
      RelinkLinks(b, ks, i);
      SameWord(Relink(b, ks), Relinked(b, ks), ks[i]);
    }
  }

  // ---- What the walk sees ----

  /** All the offsets lie in a range that links cannot leave. */
  ghost predicate Within(w: seq<nat>, lo: nat, hi: nat) {
    forall i :: 0 <= i < |w| ==> lo <= w[i] < hi
  }

  lemma SpacedCons(b: seq<byte>, o: nat, w: seq<nat>, l: Layout, lo: nat, hi: nat)
    requires Fits(b, o, l) && Spaced(b, w, l) && Within(w, lo, hi) && o < hi && o + l.nameOff + NameLen(b, o, l) <= lo
    ensures Spaced(b, [o] + w, l) && Within([o] + w, o, hi)
  {
    hide Fits, NameLen;
    var v := [o] + w;
    forall i, j | 0 <= i < j < |v| ensures Fits(b, v[i], l) && v[i] + l.nameOff + NameLen(b, v[i], l) <= v[j] {
      assert v[j] == w[j - 1];
      if i > 0 { assert v[i] == w[i - 1]; }
    }
    forall i | 0 <= i < |v| ensures Fits(b, v[i], l) && o <= v[i] < hi {
      if i > 0 { assert v[i] == w[i - 1]; }
    }
  }

  lemma {:induction false} WalkSpaced(b: seq<byte>, o: nat, l: Layout)
    requires Sound(l) && WellFormed(b, o, l) && o < 0x1_0000_0000
    ensures Spaced(b, Walk(b, o, l), l) && Within(Walk(b, o, l), o, 0x1_0000_0000)
    ensures Fits(b, o, l) <==> Walk(b, o, l) != []
    ensures Walk(b, o, l) != [] ==> Walk(b, o, l)[0] == o
    decreases |b| - o
  {
    hide U32At, Spaced, Within, NameLen;
    if Fits(b, o, l) {
      if U32At(b, o) == 0 {
        NoneAfter(b, o, l);
        SpacedCons(b, o, [], l, o + l.nameOff + NameLen(b, o, l), 0x1_0000_0000);
        assert [o] + [] == [o];
      } else {
        var n := o + U32At(b, o);
        WalkSpaced(b, n, l);
        LowerWithin(Walk(b, n, l), o + l.nameOff + NameLen(b, o, l), n, 0x1_0000_0000);
        SpacedCons(b, o, Walk(b, n, l), l, o + l.nameOff + NameLen(b, o, l), 0x1_0000_0000);
      }
    } else {
      NoneAfter(b, o, l);
    }
  }

  lemma NoneAfter(b: seq<byte>, o: nat, l: Layout)
    ensures Spaced(b, [], l) && forall lo: nat, hi: nat :: Within([], lo, hi)
  {}

  lemma LowerWithin(w: seq<nat>, lo: nat, mid: nat, hi: nat)
    requires Within(w, mid, hi) && lo <= mid
    ensures Within(w, lo, hi)
  {}

  lemma LinksCons(b: seq<byte>, o: nat, w: seq<nat>)
    requires Links(b, w) && o + 4 <= |b| && o < 0x1_0000_0000 && (w != [] ==> o + 4 <= w[0])
    ensures Links(b, [o] + w)
  {
    var v := [o] + w;
    forall i, j | 0 <= i < j < |v| ensures v[i] + 4 <= v[j] {
      assert v[j] == w[j - 1];
    }
  }

  lemma {:induction false} WalkLinks(b: seq<byte>, o: nat, l: Layout)
    requires Linked(b, o, l) && o < 0x1_0000_0000
    ensures Links(b, Walk(b, o, l))
    ensures Walk(b, o, l) != [] ==> Walk(b, o, l)[0] == o
    decreases |b| - o
  {
    hide U32At, Links;
    NoLinks(b);
    if Fits(b, o, l) {
      if U32At(b, o) == 0 {
        LinksCons(b, o, []);
        assert [o] + [] == [o];
      } else {
        WalkLinks(b, o + U32At(b, o), l);
        LinksCons(b, o, Walk(b, o + U32At(b, o), l));
      }
    }
  }

  lemma NoLinks(b: seq<byte>)
    ensures Links(b, [])
  {}

  /** A chain of links is what the walk follows. */
  lemma {:induction false} LinksWalk(b: seq<byte>, ks: seq<nat>, l: Layout, i: nat)
    requires i < |ks| && Links(b, ks) && forall j :: 0 <= j < |ks| ==> Fits(b, ks[j], l)
    requires forall j :: 0 <= j < |ks| ==> U32At(b, ks[j]) == if j == |ks| - 1 then 0 else ks[j + 1] - ks[j]
    ensures Walk(b, ks[i], l) == ks[i..]
    decreases |ks| - i
  {
    hide U32At;
    assert Fits(b, ks[i], l);
    assert ks[i..] == [ks[i]] + ks[i + 1..];
    if i < |ks| - 1 {
      assert ks[i] < ks[i + 1];
      LinksWalk(b, ks, l, i + 1);
    }
  }

  /** The kept records, relinked, read as before and form the chain from the first of them. */
  lemma KeptChain(b: seq<byte>, ks: seq<nat>, l: Layout)
    requires Sound(l) && Spaced(b, ks, l) && ks != []
    requires Links(b, ks)
    ensures Walk(Relinked(b, ks), ks[0], l) == ks
    ensures forall k <- ks :: Fits(Relinked(b, ks), k, l) && NameAt(Relinked(b, ks), k, l) == NameAt(b, k, l)
  {
    hide U32At, U32Bytes, Relinked;
    var r := Relinked(b, ks);
    forall i | 0 <= i < |ks| ensures U32At(r, ks[i]) == if i == |ks| - 1 then 0 else ks[i + 1] - ks[i] {
      RelinkedLinks(b, ks, i);
    }
    forall i | 0 <= i < |ks| ensures Fits(r, ks[i], l) && NameAt(r, ks[i], l) == NameAt(b, ks[i], l) {
      KeptName(b, ks, l, i);
    }
    LinksWalk(r, ks, l, 0);
    assert ks[0..] == ks;
  }

  lemma KeptName(b: seq<byte>, ks: seq<nat>, l: Layout, i: nat)
    requires Sound(l) && Spaced(b, ks, l) && i < |ks|
    requires Links(b, ks)
    ensures Fits(Relinked(b, ks), ks[i], l) && NameAt(Relinked(b, ks), ks[i], l) == NameAt(b, ks[i], l)
  {
    hide U32At, U32Bytes, Relinked;
    var r, o := Relinked(b, ks), ks[i];
    forall x | o + 4 <= x < o + l.nameOff + NameLen(b, o, l) ensures r[x] == b[x] {
      forall j | 0 <= j < |ks| ensures !(ks[j] <= x < ks[j] + 4) {
        if j < i { assert ks[j] + l.nameOff + NameLen(b, ks[j], l) <= ks[i]; }
        if j > i { assert ks[i] + l.nameOff + NameLen(b, ks[i], l) <= ks[j]; }
      }
      RelinkedOnlyLinks(b, ks, x);
    }
    SameRecord(r, b, o, l);
  }
}
