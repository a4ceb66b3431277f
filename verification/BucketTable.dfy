/** The open-addressing bucket table of a manifest node, as slots holding the index of a
    child and the two chain flags, and the flag-guided probe that reads it. */
module BucketTable {

  datatype Slot = Empty | Full(child: nat, start: bool, cont: bool)

  /** `floor(count / 0.7)` buckets: never fewer than there are children. */
  function BucketCount(count: nat): (b: nat)
    ensures 7 * b <= 10 * count < 7 * b + 7
    ensures b >= count
    ensures b == 0 <==> count == 0
  {
    count * 10 / 7
  }

  /** The slot a hash starts at. */
  function Home(hash: nat, size: nat): (h: nat)
    requires size > 0
    ensures h < size
  {
    hash % size
  }

  function Next(i: nat, size: nat): (j: nat)
    requires i < size
    ensures j < size
  {
    (i + 1) % size
  }

  /** The slot `k` steps after `h`. */
  function Step(h: nat, k: nat, size: nat): (j: nat)
    requires h < size && k < size
    ensures j < size
  {
    if h + k < size then h + k else h + k - size
  }

  lemma NextIsStep(h: nat, k: nat, size: nat)
    requires h < size && k + 1 < size
    ensures Next(Step(h, k, size), size) == Step(h, k + 1, size)
  {
    var i := Step(h, k, size);
    if i + 1 < size {
      assert (i + 1) % size == i + 1;
    } else {
      assert (i + 1) % size == 0;
    }
  }

  lemma NextWraps(h: nat, size: nat)
    requires h < size
    ensures Next(Step(h, size - 1, size), size) == h
  {
    if h > 0 {
      assert h % size == h;
    } else {
      assert size % size == 0;
    }
  }

  ghost predicate HasRoom(slots: seq<Slot>) {
    exists i :: 0 <= i < |slots| && slots[i].Empty?
  }

  /** From slot `i`, flag the full slots as continuing the chain and put `child` in the
      first empty one; `fuel` bounds the walk. */
  function Chain(slots: seq<Slot>, i: nat, child: nat, fuel: nat): (r: seq<Slot>)
    requires i < |slots|
    ensures |r| == |slots|
    decreases fuel
  {
    if slots[i].Empty? then slots[i := Full(child, false, false)]
    else if fuel == 0 then slots
    else Chain(slots[i := slots[i].(cont := true)], Next(i, |slots|), child, fuel - 1)
  }

  /** Insert `child` at its home slot, or else down the collision chain. */
  function Place(slots: seq<Slot>, home: nat, child: nat): (r: seq<Slot>)
    requires home < |slots|
    ensures |r| == |slots|
  {
    if slots[home].Empty? then slots[home := Full(child, false, false)]
    else Chain(slots[home := slots[home].(start := true)], Next(home, |slots|), child, |slots|)
  }

  /** Child `c` sits `k` steps from its home slot, and the flags lead there. */
  ghost predicate LeadsTo(slots: seq<Slot>, home: nat, k: nat, c: nat)
    requires home < |slots| && k < |slots|
  {
    && slots[Step(home, k, |slots|)].Full?
    && slots[Step(home, k, |slots|)].child == c
    && (k > 0 ==> slots[home].Full? && slots[home].start)
    && (forall j :: 0 < j < k ==> slots[Step(home, j, |slots|)].Full? && slots[Step(home, j, |slots|)].cont)
  }

  ghost predicate Reachable(slots: seq<Slot>, home: nat, c: nat)
    requires home < |slots|
  {
    exists k: nat :: k < |slots| && LeadsTo(slots, home, k, c)
  }

  /** `slots` holds exactly the children `0..n`, each reachable from its home; a flagged
      slot is followed by a full one; some full slot carries no continuation flag. */
  ghost predicate Holds(slots: seq<Slot>, homes: seq<nat>, n: nat)
    requires n <= |homes|
  {
    && (forall c :: 0 <= c < n ==> homes[c] < |slots| && Reachable(slots, homes[c], c))
    && (forall i :: 0 <= i < |slots| && slots[i].Full? ==> slots[i].child < n)
    && (forall i :: 0 <= i < |slots| && slots[i].Full? && (slots[i].start || slots[i].cont)
          ==> slots[Next(i, |slots|)].Full?)
    && (n > 0 ==> exists i :: 0 <= i < |slots| && slots[i].Full? && !slots[i].cont)
  }

  /** The number of full slots. */
  function Used(slots: seq<Slot>): (u: nat)
    ensures u <= |slots|
  {
    if slots == [] then 0 else (if slots[0].Full? then 1 else 0) + Used(slots[1..])
  }

  lemma {:induction false} UsedUpdate(slots: seq<Slot>, i: nat, s: Slot)
    requires i < |slots|
    ensures Used(slots[i := s]) == Used(slots) - (if slots[i].Full? then 1 else 0) + (if s.Full? then 1 else 0)
  {
    if i == 0 {
      assert slots[i := s][1..] == slots[1..];
    } else {
      assert slots[i := s][1..] == slots[1..][i - 1 := s];
      UsedUpdate(slots[1..], i - 1, s);
    }
  }

  lemma {:induction false} RoomWhenNotFull(slots: seq<Slot>)
    requires Used(slots) < |slots|
    ensures HasRoom(slots)
  {
    if slots[0].Full? {
      RoomWhenNotFull(slots[1..]);
      var i :| 0 <= i < |slots[1..]| && slots[1..][i].Empty?;
      assert slots[i + 1].Empty?;
    } else {
      assert slots[0].Empty?;
    }
  }

  /** What a walk of `Chain` from `h` does: the first empty slot is `k` steps away. */
  lemma {:induction false} ChainEffect(slots: seq<Slot>, h: nat, m: nat, k: nat, child: nat, fuel: nat)
    requires h < |slots| && m <= k < |slots| && k - m <= fuel
    requires slots[Step(h, k, |slots|)].Empty?
    requires forall j :: m <= j < k ==> slots[Step(h, j, |slots|)].Full?
    ensures var r := Chain(slots, Step(h, m, |slots|), child, fuel);
            && r[Step(h, k, |slots|)] == Full(child, false, false)
            && (forall j :: m <= j < k ==> r[Step(h, j, |slots|)] == slots[Step(h, j, |slots|)].(cont := true))
            && (forall i :: 0 <= i < |slots| && (forall j :: m <= j <= k ==> i != Step(h, j, |slots|)) ==> r[i] == slots[i])
    decreases k - m
  {
    var i := Step(h, m, |slots|);
    if m < k {
      var slots' := slots[i := slots[i].(cont := true)];
      NextIsStep(h, m, |slots|);
      ChainEffect(slots', h, m + 1, k, child, fuel - 1);
    }
  }

  /** The distance from `h` to the first empty slot. */
  lemma FirstEmpty(slots: seq<Slot>, h: nat) returns (k: nat)
    requires h < |slots| && HasRoom(slots)
    ensures k < |slots| && slots[Step(h, k, |slots|)].Empty?
    ensures forall j :: 0 <= j < k ==> slots[Step(h, j, |slots|)].Full?
  {
    var e :| 0 <= e < |slots| && slots[e].Empty?;
    var d := if e >= h then e - h else e + |slots| - h;
    assert Step(h, d, |slots|) == e;
    k := 0;
    while slots[Step(h, k, |slots|)].Full?
      invariant k <= d
      invariant forall j :: 0 <= j < k ==> slots[Step(h, j, |slots|)].Full?
      decreases d - k
    {
      k := k + 1;
    }
  }

  /** The whole effect of one insertion: it fills the first empty slot at or after home, sets
      flags on the slots before it, and changes no other slot. */
  lemma PlaceEffect(slots: seq<Slot>, home: nat, child: nat, k: nat)
    requires home < |slots| && k < |slots|
    requires slots[Step(home, k, |slots|)].Empty?
    requires forall j :: 0 <= j < k ==> slots[Step(home, j, |slots|)].Full?
    ensures var r := Place(slots, home, child);
            && r[Step(home, k, |slots|)] == Full(child, false, false)
            && (k > 0 ==> r[home] == slots[home].(start := true))
            && (forall j :: 0 < j < k ==> r[Step(home, j, |slots|)] == slots[Step(home, j, |slots|)].(cont := true))
            && (forall i :: 0 <= i < |slots| && (forall j :: 0 <= j <= k ==> i != Step(home, j, |slots|)) ==> r[i] == slots[i])
  {
    assert Step(home, 0, |slots|) == home;
    if k > 0 {
      var slots' := slots[home := slots[home].(start := true)];
      NextIsStep(home, 0, |slots|);
      ChainEffect(slots', home, 1, k, child, |slots|);
    }
  }

  /** Every slot is some number of steps from `h`. */
  lemma Distance(h: nat, i: nat, size: nat) returns (k: nat)
    requires h < size && i < size
    ensures k < size && Step(h, k, size) == i
  {
    k := if i >= h then i - h else i + size - h;
  }

  /** What one insertion did to one slot. */
  lemma PlaceAt(slots: seq<Slot>, home: nat, child: nat, k: nat, i: nat)
    requires home < |slots| && k < |slots| && i < |slots|
    requires slots[Step(home, k, |slots|)].Empty?
    requires forall j :: 0 <= j < k ==> slots[Step(home, j, |slots|)].Full?
    ensures var r := Place(slots, home, child);
            if i == Step(home, k, |slots|) then r[i] == Full(child, false, false)
            else && r[i].Full? == slots[i].Full?
                 && (r[i].Full? ==> r[i].child == slots[i].child
                                    && (slots[i].start ==> r[i].start) && (slots[i].cont ==> r[i].cont))
  {
    PlaceEffect(slots, home, child, k);
    var d := Distance(home, i, |slots|);
    if d > k {
      forall j | 0 <= j <= k ensures i != Step(home, j, |slots|) {}
    }
  }

  lemma PlaceUsed(slots: seq<Slot>, home: nat, child: nat, k: nat)
    requires home < |slots| && k < |slots|
    requires slots[Step(home, k, |slots|)].Empty?
    requires forall j :: 0 <= j < k ==> slots[Step(home, j, |slots|)].Full?
    ensures Used(Place(slots, home, child)) == Used(slots) + 1
  {
    var r := Place(slots, home, child);
    var e := Step(home, k, |slots|);
    forall i | 0 <= i < |slots| ensures r[e := Slot.Empty][i] == Slot.Empty <==> slots[i] == Slot.Empty {
      PlaceAt(slots, home, child, k, i);
    }
    SameUsed(r[e := Empty], slots);
    UsedUpdate(r, e, Empty);
    PlaceAt(slots, home, child, k, e);
  }

  lemma {:induction false} SameUsed(a: seq<Slot>, b: seq<Slot>)
    requires |a| == |b| && forall i :: 0 <= i < |a| ==> a[i].Full? == b[i].Full?
    ensures Used(a) == Used(b)
  {
    if a != [] {
      SameUsed(a[1..], b[1..]);
    }
  }

  /** Inserting one more child keeps everything reachable and loses nothing. */
  lemma PlaceHolds(slots: seq<Slot>, homes: seq<nat>, n: nat)
    requires n < |homes| && homes[n] < |slots|
    requires Holds(slots, homes, n) && Used(slots) == n < |slots|
    ensures var r := Place(slots, homes[n], n);
            Holds(r, homes, n + 1) && Used(r) == n + 1
  {
    var size, home := |slots|, homes[n];
    var r := Place(slots, home, n);
    RoomWhenNotFull(slots);
    var k := FirstEmpty(slots, home);
    PlaceUsed(slots, home, n, k);
    PlaceEffect(slots, home, n, k);
    assert Step(home, 0, size) == home;
    assert LeadsTo(r, home, k, n);
    forall c | 0 <= c < n ensures Reachable(r, homes[c], c) {
      var kc: nat :| kc < size && LeadsTo(slots, homes[c], kc, c);
      PlaceKeepsLeads(slots, home, n, k, homes[c], kc, c);
    }
    forall i | 0 <= i < size && r[i].Full? ensures r[i].child < n + 1 {
      PlaceAt(slots, home, n, k, i);
    }
    forall i | 0 <= i < size && r[i].Full? && (r[i].start || r[i].cont) ensures r[Next(i, size)].Full? {
      PlaceFlagsFollowed(slots, home, n, k, i);
    }
    var e := Step(home, k, size);
    assert r[e].Full? && !r[e].cont;
  }

  lemma PlaceKeepsLeads(slots: seq<Slot>, home: nat, child: nat, k: nat, h: nat, kc: nat, c: nat)
    requires home < |slots| && k < |slots| && h < |slots| && kc < |slots|
    requires slots[Step(home, k, |slots|)].Empty?
    requires forall j :: 0 <= j < k ==> slots[Step(home, j, |slots|)].Full?
    requires LeadsTo(slots, h, kc, c)
    ensures LeadsTo(Place(slots, home, child), h, kc, c)
  {
    PlaceAt(slots, home, child, k, Step(h, kc, |slots|));
    PlaceAt(slots, home, child, k, h);
    forall j | 0 < j < kc
      ensures Place(slots, home, child)[Step(h, j, |slots|)].Full? && Place(slots, home, child)[Step(h, j, |slots|)].cont
    {
      PlaceAt(slots, home, child, k, Step(h, j, |slots|));
    }
  }

  lemma PlaceFlagsFollowed(slots: seq<Slot>, home: nat, child: nat, k: nat, i: nat)
    requires home < |slots| && k < |slots| && i < |slots|
    requires slots[Step(home, k, |slots|)].Empty?
    requires forall j :: 0 <= j < k ==> slots[Step(home, j, |slots|)].Full?
    requires slots[i].Full? && (slots[i].start || slots[i].cont) ==> slots[Next(i, |slots|)].Full?
    requires var r := Place(slots, home, child); r[i].Full? && (r[i].start || r[i].cont)
    ensures Place(slots, home, child)[Next(i, |slots|)].Full?
  {
    var size := |slots|;
    var d := Distance(home, i, size);
    PlaceEffect(slots, home, child, k);
    PlaceAt(slots, home, child, k, Next(i, size));
    if d < k {
      NextIsStep(home, d, size);
      PlaceAt(slots, home, child, k, Step(home, d + 1, size));
    } else if d > k {
      assert forall j :: 0 <= j <= k ==> i != Step(home, j, size);
    }
  }

  /** The table after inserting children `0..n` in order. */
  function Fill(homes: seq<nat>, n: nat, size: nat): (slots: seq<Slot>)
    requires n <= |homes|
    requires forall c :: 0 <= c < |homes| ==> homes[c] < size
    ensures |slots| == size
  {
    if n == 0 then seq(size, _ => Empty) else Place(Fill(homes, n - 1, size), homes[n - 1], n - 1)
  }

  /** Insertion moves no child. */
  lemma {:induction false} ChainKeeps(slots: seq<Slot>, i: nat, child: nat, fuel: nat, j: nat)
    requires i < |slots| && j < |slots| && slots[j].Full?
    ensures Chain(slots, i, child, fuel)[j].Full? && Chain(slots, i, child, fuel)[j].child == slots[j].child
    decreases fuel
  {
    if slots[i].Full? && fuel > 0 {
      ChainKeeps(slots[i := slots[i].(cont := true)], Next(i, |slots|), child, fuel - 1, j);
    }
  }

  /** So the first child stays where it went: in the slot its hash starts at. */
  lemma {:induction false} FirstStays(homes: seq<nat>, n: nat, size: nat)
    requires 0 < n <= |homes|
    requires forall c :: 0 <= c < |homes| ==> homes[c] < size
    ensures Fill(homes, n, size)[homes[0]].Full? && Fill(homes, n, size)[homes[0]].child == 0
  {
    if n > 1 {
      FirstStays(homes, n - 1, size);
      var slots, h := Fill(homes, n - 1, size), homes[n - 1];
      if slots[h].Full? {
        ChainKeeps(slots[h := slots[h].(start := true)], Next(h, size), n - 1, size, homes[0]);
      }
    }
  }

  lemma {:induction false} NoneUsed(slots: seq<Slot>)
    requires forall i :: 0 <= i < |slots| ==> slots[i].Empty?
    ensures Used(slots) == 0
  {
    if slots != [] {
      NoneUsed(slots[1..]);
    }
  }

  /** With no more children than buckets every insertion finds a free slot, so all the
      children end up in the table. */
  lemma {:induction false} FillHolds(homes: seq<nat>, n: nat, size: nat)
    requires n <= |homes| <= size
    requires forall c :: 0 <= c < |homes| ==> homes[c] < size
    ensures Holds(Fill(homes, n, size), homes, n) && Used(Fill(homes, n, size)) == n
  {
    if n == 0 {
      NoneUsed(Fill(homes, 0, size));
    } else {
      FillHolds(homes, n - 1, size);
      PlaceHolds(Fill(homes, n - 1, size), homes, n - 1);
    }
  }

  /** How a probe of the table ends: `Broken` is a null child where the flags promised one,
      `Lost` is more steps than there are buckets. */
  datatype Probe = Hit(child: nat) | Miss | Broken | Lost

  /** Step on from slot `i` while slots carry the continuation flag. */
  function ProbeChain(slots: seq<Slot>, i: nat, wanted: nat -> bool, fuel: nat): Probe
    requires i < |slots|
    decreases fuel
  {
    if fuel == 0 then Lost
    else
      var j := Next(i, |slots|);
      if slots[j].Empty? then Broken
      else if wanted(slots[j].child) then Hit(slots[j].child)
      else if slots[j].cont then ProbeChain(slots, j, wanted, fuel - 1)
      else Miss
  }

  /** Look in the home slot, then down the chain if the home slot starts one. */
  function FindSlot(slots: seq<Slot>, home: nat, wanted: nat -> bool): Probe
    requires home < |slots|
  {
    if slots[home].Empty? then Miss
    else if wanted(slots[home].child) then Hit(slots[home].child)
    else if !slots[home].start then Miss
    else ProbeChain(slots, home, wanted, |slots|)
  }

  /** The probe stops within the table: it meets an unflagged slot, or a wanted child. */
  lemma {:induction false} ProbeChainStops(slots: seq<Slot>, homes: seq<nat>, n: nat, h: nat, k: nat, wanted: nat -> bool)
    requires n <= |homes| && Holds(slots, homes, n) && n > 0
    requires h < |slots| && k < |slots|
    requires slots[Step(h, k, |slots|)].Full? && (slots[Step(h, k, |slots|)].start || slots[Step(h, k, |slots|)].cont)
    requires forall j :: 0 < j <= k ==> slots[Step(h, j, |slots|)].Full? && slots[Step(h, j, |slots|)].cont
    ensures var p := ProbeChain(slots, Step(h, k, |slots|), wanted, |slots| - k);
            p.Miss? || (p.Hit? && p.child < n && wanted(p.child))
    decreases |slots| - k
  {
    var size := |slots|;
    var i := Step(h, k, size);
    if k + 1 < size {
      NextIsStep(h, k, size);
      var j := Step(h, k + 1, size);
      if !wanted(slots[j].child) && slots[j].cont {
        ProbeChainStops(slots, homes, n, h, k + 1, wanted);
      }
    } else {
      NextWraps(h, size);
      var e :| 0 <= e < size && slots[e].Full? && !slots[e].cont;
      var d := Distance(h, e, size);
      assert d == 0;
    }
  }

  /** Following the flags from home reaches a child that is the only wanted one. */
  lemma {:induction false} ProbeChainFinds(slots: seq<Slot>, h: nat, m: nat, k: nat, c: nat, wanted: nat -> bool)
    requires h < |slots| && m < k < |slots|
    requires LeadsTo(slots, h, k, c)
    requires wanted(c) && forall d: nat :: wanted(d) ==> d == c
    ensures ProbeChain(slots, Step(h, m, |slots|), wanted, |slots| - m) == Hit(c)
    decreases k - m
  {
    NextIsStep(h, m, |slots|);
    if m + 1 < k && slots[Step(h, m + 1, |slots|)].child != c {
      ProbeChainFinds(slots, h, m + 1, k, c, wanted);
    }
  }

  /** The flag-guided probe agrees with the set of children: it finds a wanted child that is
      there (looked up from its home), reports a miss exactly when none is wanted, and never
      meets a null child or runs past the table. */
  lemma FindSlotAgrees(slots: seq<Slot>, homes: seq<nat>, n: nat, home: nat, wanted: nat -> bool)
    requires n <= |homes| && Holds(slots, homes, n) && home < |slots|
    requires forall c: nat, d: nat :: wanted(c) && wanted(d) ==> c == d
    requires forall c :: 0 <= c < n && wanted(c) ==> homes[c] == home
    ensures forall c :: 0 <= c < n && wanted(c) ==> FindSlot(slots, home, wanted) == Hit(c)
    ensures (forall c :: 0 <= c < n ==> !wanted(c)) ==> FindSlot(slots, home, wanted) == Miss
  {
    assert Step(home, 0, |slots|) == home;
    forall c | 0 <= c < n && wanted(c) ensures FindSlot(slots, home, wanted) == Hit(c) {
      var k: nat :| k < |slots| && LeadsTo(slots, home, k, c);
      if k > 0 {
        ProbeChainFinds(slots, home, 0, k, c, wanted);
      }
    }
    if slots[home].Full? && slots[home].start && forall c :: 0 <= c < n ==> !wanted(c) {
      ProbeChainStops(slots, homes, n, home, 0, wanted);
    }
  }
}
