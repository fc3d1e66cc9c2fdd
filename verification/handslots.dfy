/** The browser client's hand display: six fixed slots per owner, each either
    shown or hidden, reconciled after every state update so that the number
    of shown pieces of each size matches the count the server reports. The
    client tags owners 'A' and 'B'; the meshes are reduced to their
    `visible` flag. */
module HandSlots {
  import opened Wrappers

  datatype Hand = A | B {
    /** The key under which the client looks the owner up. */
    function Tag(): string {
      if this == A then "A" else "B"
    }
  }

  datatype HandSize = Large | Medium | Small

  datatype HandSlot = HandSlot(size: HandSize, slotId: int, visible: bool)

  /** The fixed slot order of each owner's hand. */
  const Layout: seq<HandSize> := [Large, Large, Medium, Medium, Small, Small]

  /** One owner's six slots, numbered 0 to 5, all hidden. */
  function FreshSlots(): (s: seq<HandSlot>)
    ensures |s| == |Layout| == 6
    ensures forall i :: 0 <= i < 6 ==> s[i] == HandSlot(Layout[i], i, false)
  {
    seq(6, i requires 0 <= i < 6 => HandSlot(Layout[i], i, false))
  }

  /** The piece counts of one player as the client reads them; an absent
      count reads as zero. */
  datatype Counts = Counts(large: nat, medium: nat, small: nat) {
    function Count(sz: HandSize): nat {
      match sz
      case Large => large
      case Medium => medium
      case Small => small
    }
  }

  /** The client's hand state: whether the slots were built, both owners'
      slots, the slot tag the server assigned, and the hand slot the local
      player last played from. */
  datatype Client = Client(
    initialized: bool,
    slotsA: seq<HandSlot>,
    slotsB: seq<HandSlot>,
    mySlot: Option<string>,
    lastPlayed: Option<int>)
  {
    function Slots(h: Hand): seq<HandSlot> {
      if h == A then slotsA else slotsB
    }

    function WithSlots(h: Hand, s: seq<HandSlot>): (c: Client)
      ensures c.Slots(h) == s && c.Slots(if h == A then B else A) == Slots(if h == A then B else A)
      ensures c.initialized == initialized && c.mySlot == mySlot && c.lastPlayed == lastPlayed
    {
      if h == A then this.(slotsA := s) else this.(slotsB := s)
    }
  }

  const InitialClient: Client := Client(false, [], [], None, None)

  /** Builds both owners' slots once; later calls change nothing. */
  function InitHandSlots(c: Client): (r: Client)
    ensures r.initialized
    ensures c.initialized ==> r == c
    ensures !c.initialized ==> forall h :: r.Slots(h) == c.Slots(h) + FreshSlots()
    ensures r.mySlot == c.mySlot && r.lastPlayed == c.lastPlayed
  {
    if c.initialized then c
    else c.(slotsA := c.slotsA + FreshSlots(), slotsB := c.slotsB + FreshSlots(), initialized := true)
  }

  /** From the client's starting state, each owner gets exactly six hidden
      slots (large, large, medium, medium, small, small, numbered 0 to 5),
      and a second call leaves everything as it is. */
  lemma InitHandSlotsLayout(h: Hand)
    ensures var c := InitHandSlots(InitialClient);
      && |c.Slots(h)| == 6
      && (forall i :: 0 <= i < 6 ==> c.Slots(h)[i] == HandSlot(Layout[i], i, false))
      && InitHandSlots(c) == c
  {
    assert [] + FreshSlots() == FreshSlots();
  }

  // ------------------------------------------------------------ counting

  /** Slots of size `sz`. */
  function SizeCount(s: seq<HandSlot>, sz: HandSize): nat {
    if s == [] then 0 else (if s[0].size == sz then 1 else 0) + SizeCount(s[1..], sz)
  }

  /** Shown slots of size `sz`. */
  function VisibleCount(s: seq<HandSlot>, sz: HandSize): nat {
    if s == [] then 0 else (if s[0].size == sz && s[0].visible then 1 else 0) + VisibleCount(s[1..], sz)
  }

  lemma {:induction false} CountsConcat(a: seq<HandSlot>, b: seq<HandSlot>, sz: HandSize)
    ensures SizeCount(a + b, sz) == SizeCount(a, sz) + SizeCount(b, sz)
    ensures VisibleCount(a + b, sz) == VisibleCount(a, sz) + VisibleCount(b, sz)
    decreases |a|
  {
    if a == [] {
      assert a + b == b;
    } else {
      assert (a + b)[1..] == a[1..] + b;
      CountsConcat(a[1..], b, sz);
    }
  }

  lemma {:induction false} VisibleAtMostSize(s: seq<HandSlot>, sz: HandSize)
    ensures VisibleCount(s, sz) <= SizeCount(s, sz)
    decreases |s|
  {
    if s != [] {
      VisibleAtMostSize(s[1..], sz);
    }
  }

  /** `r` differs from `s` at most in the visibility of slots of size `sz`. */
  ghost predicate OnlySizeVisibility(s: seq<HandSlot>, r: seq<HandSlot>, sz: HandSize) {
    && |r| == |s|
    && forall i :: 0 <= i < |s| ==>
         && r[i].size == s[i].size && r[i].slotId == s[i].slotId
         && (s[i].size != sz ==> r[i] == s[i])
  }

  /** Touching only slots of size `sz` leaves the counts of other sizes alone. */
  lemma {:induction false} OtherSizesUnchanged(s: seq<HandSlot>, r: seq<HandSlot>, sz: HandSize, other: HandSize)
    requires OnlySizeVisibility(s, r, sz)
    ensures SizeCount(r, other) == SizeCount(s, other)
    ensures other != sz ==> VisibleCount(r, other) == VisibleCount(s, other)
    decreases |s|
  {
    if s != [] {
      assert OnlySizeVisibility(s[1..], r[1..], sz);
      OtherSizesUnchanged(s[1..], r[1..], sz, other);
    }
  }

  // ------------------------------------------------------------ hiding and showing

  /** Hides up to `k` shown slots of size `sz`, highest index first. */
  function HideFromEnd(s: seq<HandSlot>, sz: HandSize, k: nat): (r: seq<HandSlot>)
    ensures |r| == |s|
    decreases |s|
  {
    if s == [] || k == 0 then s
    else
      var last := s[|s| - 1];
      if last.size == sz && last.visible then HideFromEnd(s[..|s| - 1], sz, k - 1) + [last.(visible := false)]
      else HideFromEnd(s[..|s| - 1], sz, k) + [last]
  }

  /** Hiding touches only slots of size `sz`, never shows a slot, and hides
      exactly `k` of the shown ones, or all of them when fewer are shown. */
  lemma {:induction false} HideFromEndSpec(s: seq<HandSlot>, sz: HandSize, k: nat)
    ensures var r := HideFromEnd(s, sz, k);
      && OnlySizeVisibility(s, r, sz)
      && (forall i :: 0 <= i < |s| ==> r[i].visible ==> s[i].visible)
      && VisibleCount(r, sz) == VisibleCount(s, sz) - Min(k, VisibleCount(s, sz))
    decreases |s|
  {
    if s != [] && k > 0 {
      var init := s[..|s| - 1];
      var last := s[|s| - 1];
      var drop := last.size == sz && last.visible;
      var k' := if drop then k - 1 else k;
      var hidden := if drop then last.(visible := false) else last;
      assert s == init + [last];
      CountsConcat(init, [last], sz);
      HideFromEndSpec(init, sz, k');
      var ri := HideFromEnd(init, sz, k');
      var r := HideFromEnd(s, sz, k);
      assert r == ri + [hidden];
      CountsConcat(ri, [hidden], sz);
      assert forall i :: 0 <= i < |init| ==> r[i] == ri[i] && s[i] == init[i];
    }
  }

  /** Shows up to `k` hidden slots of size `sz`, lowest index first. */
  function ShowFromStart(s: seq<HandSlot>, sz: HandSize, k: nat): (r: seq<HandSlot>)
    ensures |r| == |s|
    decreases |s|
  {
    if s == [] || k == 0 then s
    else if s[0].size == sz && !s[0].visible then
      [s[0].(visible := true)] + ShowFromStart(s[1..], sz, k - 1)
    else
      [s[0]] + ShowFromStart(s[1..], sz, k)
  }

  /** Showing touches only slots of size `sz`, never hides a slot, and shows
      exactly `k` of the hidden ones, or all of them when fewer are hidden. */
  lemma {:induction false} ShowFromStartSpec(s: seq<HandSlot>, sz: HandSize, k: nat)
    ensures var r := ShowFromStart(s, sz, k);
      && OnlySizeVisibility(s, r, sz)
      && (forall i :: 0 <= i < |s| ==> s[i].visible ==> r[i].visible)
      && VisibleCount(r, sz) == VisibleCount(s, sz) + Min(k, SizeCount(s, sz) - VisibleCount(s, sz))
    decreases |s|
  {
    VisibleAtMostSize(s, sz);
    if s != [] && k > 0 {
      var take := s[0].size == sz && !s[0].visible;
      var k' := if take then k - 1 else k;
      ShowFromStartSpec(s[1..], sz, k');
      VisibleAtMostSize(s[1..], sz);
      var r := ShowFromStart(s, sz, k);
      var rt := ShowFromStart(s[1..], sz, k');
      assert r[1..] == rt;
      assert forall i :: 1 <= i < |s| ==> r[i] == rt[i - 1] && s[i] == s[1..][i - 1];
    }
  }

  /** Hiding takes the highest-numbered shown slots: a shown slot is hidden
      only if every shown slot of that size after it is hidden too. */
  lemma {:induction false} HideTakesHighest(s: seq<HandSlot>, sz: HandSize, k: nat, i: int, j: int)
    requires 0 <= i < j < |s|
    requires s[i].size == sz && s[i].visible && s[j].size == sz && s[j].visible
    requires !HideFromEnd(s, sz, k)[i].visible
    ensures !HideFromEnd(s, sz, k)[j].visible
    decreases |s|
  {
    var init := s[..|s| - 1];
    var last := s[|s| - 1];
    if j < |s| - 1 {
      if last.size == sz && last.visible {
        assert HideFromEnd(s, sz, k) == HideFromEnd(init, sz, k - 1) + [last.(visible := false)];
        HideTakesHighest(init, sz, k - 1, i, j);
      } else {
        assert HideFromEnd(s, sz, k) == HideFromEnd(init, sz, k) + [last];
        HideTakesHighest(init, sz, k, i, j);
      }
    }
  }

  /** One step of ShowFromStart: the head is shown if it is a hidden slot of
      the size, and the tail is treated with the remaining budget. */
  lemma ShowFromStartStep(s: seq<HandSlot>, sz: HandSize, k: nat)
    requires s != [] && k > 0
    ensures var take := s[0].size == sz && !s[0].visible;
      var r := ShowFromStart(s, sz, k);
      && r[0] == (if take then s[0].(visible := true) else s[0])
      && r[1..] == ShowFromStart(s[1..], sz, if take then k - 1 else k)
  {
  }

  /** Showing takes the lowest-numbered hidden slots: a hidden slot is shown
      only if every hidden slot of that size before it is shown too. */
  lemma {:induction false} ShowTakesLowest(s: seq<HandSlot>, sz: HandSize, k: nat, i: int, j: int)
    requires 0 <= i < j < |s|
    requires s[i].size == sz && !s[i].visible && s[j].size == sz && !s[j].visible
    requires ShowFromStart(s, sz, k)[j].visible
    ensures ShowFromStart(s, sz, k)[i].visible
    decreases |s|
  {
    if k > 0 {
      ShowFromStartStep(s, sz, k);
      if i > 0 {
        var k' := if s[0].size == sz && !s[0].visible then k - 1 else k;
        var t := s[1..];
        var r := ShowFromStart(s, sz, k);
        var rt := ShowFromStart(t, sz, k');
        assert t[i - 1] == s[i] && t[j - 1] == s[j];
        assert rt == r[1..];
        assert rt[j - 1] == r[j];
        ShowTakesLowest(t, sz, k', i - 1, j - 1);
        assert rt[i - 1] == r[i];
      }
    }
  }

  /** The first shown slot of size `sz` whose id is `id`. */
  function FindVisible(s: seq<HandSlot>, sz: HandSize, id: int): (r: Option<nat>)
    ensures r.Some? ==> r.value < |s| && s[r.value] == HandSlot(sz, id, true)
    ensures r.Some? ==> forall j :: 0 <= j < r.value ==> s[j] != HandSlot(sz, id, true)
    ensures r.None? ==> forall j :: 0 <= j < |s| ==> s[j] != HandSlot(sz, id, true)
    decreases |s|
  {
    if s == [] then None
    else if s[0] == HandSlot(sz, id, true) then Some(0)
    else
      var r := FindVisible(s[1..], sz, id);
      if r.Some? then Some(r.value + 1) else None
  }

  lemma {:induction false} HideOne(s: seq<HandSlot>, sz: HandSize, t: nat)
    requires t < |s| && s[t].size == sz && s[t].visible
    ensures OnlySizeVisibility(s, s[t := s[t].(visible := false)], sz)
    ensures VisibleCount(s[t := s[t].(visible := false)], sz) == VisibleCount(s, sz) - 1
    decreases |s|
  {
    var s1 := s[t := s[t].(visible := false)];
    if t > 0 {
      assert s1[1..] == s[1..][t - 1 := s[t].(visible := false)];
      HideOne(s[1..], sz, t - 1);
    } else {
      assert s1[1..] == s[1..];
    }
  }

  // ------------------------------------------------------------ reconciliation

  datatype Synced = Synced(slots: seq<HandSlot>, lastPlayed: Option<int>)

  /** Whether the slot the local player last played from is a shown slot of
      size `sz`, when `mine` says this hand is the local player's. */
  function PlayedTarget(s: seq<HandSlot>, sz: HandSize, mine: bool, lastPlayed: Option<int>): Option<nat> {
    if mine && lastPlayed.Some? then FindVisible(s, sz, lastPlayed.value) else None
  }

  /** Reconciles one owner's slots of one size with the server's count. Too
      many shown: hide the last-played slot first (clearing the record of it),
      then the highest-numbered shown slots. Too few: show the lowest-numbered
      hidden slots. */
  function SyncSize(s: seq<HandSlot>, sz: HandSize, serverCount: nat, mine: bool, lastPlayed: Option<int>): (r: Synced)
    ensures OnlySizeVisibility(s, r.slots, sz)
    ensures VisibleCount(r.slots, sz) == Min(serverCount, SizeCount(s, sz))
    ensures VisibleCount(s, sz) > serverCount ==> forall i :: 0 <= i < |s| ==> r.slots[i].visible ==> s[i].visible
    ensures VisibleCount(s, sz) <= serverCount ==> forall i :: 0 <= i < |s| ==> s[i].visible ==> r.slots[i].visible
    ensures var t := PlayedTarget(s, sz, mine, lastPlayed);
      if VisibleCount(s, sz) > serverCount && t.Some? then
        r.lastPlayed.None? && !r.slots[t.value].visible
      else
        r.lastPlayed == lastPlayed
  {
    var vis := VisibleCount(s, sz);
    VisibleAtMostSize(s, sz);
    if vis > serverCount then
      var diff := vis - serverCount;
      var t := PlayedTarget(s, sz, mine, lastPlayed);
      if t.Some? then
        var s1 := s[t.value := s[t.value].(visible := false)];
        HideOne(s, sz, t.value);
        HideFromEndSpec(s1, sz, diff - 1);
        var r := HideFromEnd(s1, sz, diff - 1);
        Synced(r, None)
      else
        (HideFromEndSpec(s, sz, diff);
         Synced(HideFromEnd(s, sz, diff), lastPlayed))
    else if vis < serverCount then
      (ShowFromStartSpec(s, sz, serverCount - vis);
       Synced(ShowFromStart(s, sz, serverCount - vis), lastPlayed))
    else
      Synced(s, lastPlayed)
  }

  /** When slots must be hidden, apart from the last-played slot they are
      taken highest-numbered first; when slots must be shown, they are taken
      lowest-numbered first. */
  lemma SyncSizeOrder(s: seq<HandSlot>, sz: HandSize, serverCount: nat, mine: bool, lastPlayed: Option<int>, i: int, j: int)
    requires 0 <= i < j < |s| && s[i].size == sz && s[j].size == sz
    ensures var r := SyncSize(s, sz, serverCount, mine, lastPlayed).slots;
      var t := PlayedTarget(s, sz, mine, lastPlayed);
      && (s[i].visible && s[j].visible && !r[i].visible && t != Some(i) ==> !r[j].visible)
      && (!s[i].visible && !s[j].visible && r[j].visible ==> r[i].visible)
  {
    var r := SyncSize(s, sz, serverCount, mine, lastPlayed).slots;
    var t := PlayedTarget(s, sz, mine, lastPlayed);
    var vis := VisibleCount(s, sz);
    if vis > serverCount {
      if s[i].visible && s[j].visible && !r[i].visible && t != Some(i) {
        if t.Some? {
          var s1 := s[t.value := s[t.value].(visible := false)];
          if t != Some(j) {
            HideTakesHighest(s1, sz, vis - serverCount - 1, i, j);
          }
        } else {
          HideTakesHighest(s, sz, vis - serverCount, i, j);
        }
      }
    } else if vis < serverCount {
      if !s[i].visible && !s[j].visible && r[j].visible {
        ShowTakesLowest(s, sz, serverCount - vis, i, j);
      }
    }
  }

  /** Reconciles all three sizes of one owner whose entry is present. */
  function SyncOwner(c: Client, h: Hand, counts: Counts): Client {
    var mine := c.mySlot == Some(h.Tag());
    var r1 := SyncSize(c.Slots(h), Large, counts.large, mine, c.lastPlayed);
    var r2 := SyncSize(r1.slots, Medium, counts.medium, mine, r1.lastPlayed);
    var r3 := SyncSize(r2.slots, Small, counts.small, mine, r2.lastPlayed);
    c.WithSlots(h, r3.slots).(lastPlayed := r3.lastPlayed)
  }

  /** After one owner is reconciled, each size shows exactly as many pieces
      as the server reports (capped by the slots of that size), and the other
      owner's slots are untouched. */
  lemma SyncOwnerReconciles(c: Client, h: Hand, counts: Counts)
    ensures var r := SyncOwner(c, h, counts);
      && |r.Slots(h)| == |c.Slots(h)|
      && (forall sz :: VisibleCount(r.Slots(h), sz) == Min(counts.Count(sz), SizeCount(c.Slots(h), sz)))
      && r.Slots(if h == A then B else A) == c.Slots(if h == A then B else A)
      && r.initialized == c.initialized && r.mySlot == c.mySlot
  {
    var mine := c.mySlot == Some(h.Tag());
    var s0 := c.Slots(h);
    var r1 := SyncSize(s0, Large, counts.large, mine, c.lastPlayed);
    var r2 := SyncSize(r1.slots, Medium, counts.medium, mine, r1.lastPlayed);
    var r3 := SyncSize(r2.slots, Small, counts.small, mine, r2.lastPlayed);
    forall sz
      ensures VisibleCount(r3.slots, sz) == Min(counts.Count(sz), SizeCount(s0, sz))
    {
      OtherSizesUnchanged(s0, r1.slots, Large, sz);
      OtherSizesUnchanged(r1.slots, r2.slots, Medium, sz);
      OtherSizesUnchanged(r2.slots, r3.slots, Small, sz);
    }
  }

  /** The client's hand rendering: build the slots if needed; with no player
      data stop there; otherwise reconcile owner A, then owner B, each only
      if the data has an entry for it. */
  function RenderHands3D(c: Client, players: Option<map<string, Counts>>): Client {
    var c0 := InitHandSlots(c);
    if players.None? then c0
    else
      var c1 := if A.Tag() in players.value then SyncOwner(c0, A, players.value[A.Tag()]) else c0;
      if B.Tag() in players.value then SyncOwner(c1, B, players.value[B.Tag()]) else c1
  }

  /** After rendering, an owner with an entry shows, per size, the server's
      count capped by its slots of that size; without player data, or for an
      owner with no entry, no slot changes beyond the one-time build. */
  lemma RenderHandsReconciles(c: Client, players: Option<map<string, Counts>>, h: Hand)
    ensures var r := RenderHands3D(c, players);
      var built := InitHandSlots(c);
      && r.initialized
      && (players.None? ==> r == built)
      && (players.Some? && h.Tag() !in players.value ==> r.Slots(h) == built.Slots(h))
      && (players.Some? && h.Tag() in players.value ==>
            forall sz :: VisibleCount(r.Slots(h), sz) == Min(players.value[h.Tag()].Count(sz), SizeCount(built.Slots(h), sz)))
  {
    var c0 := InitHandSlots(c);
    if players.Some? {
      var p := players.value;
      var c1 := if A.Tag() in p then SyncOwner(c0, A, p[A.Tag()]) else c0;
      if A.Tag() in p {
        SyncOwnerReconciles(c0, A, p[A.Tag()]);
      }
      if B.Tag() in p {
        SyncOwnerReconciles(c1, B, p[B.Tag()]);
      }
    }
  }

  /** The server keys its player data by "Blue" and "Orange", so with a map
      holding only those keys the reconciliation leaves every slot as built. */
  lemma ServerKeysLeaveSlotsAlone(c: Client, counts: map<string, Counts>, h: Hand)
    requires counts.Keys <= {"Blue", "Orange"}
    ensures RenderHands3D(c, Some(counts)).Slots(h) == InitHandSlots(c).Slots(h)
  {
    assert A.Tag() !in counts && B.Tag() !in counts;
  }
}
