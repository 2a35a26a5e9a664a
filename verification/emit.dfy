/** The uinput report of one heatmap (ipts.c:495-525): six multitouch slots,
    each carrying the contact whose id is the slot number plus one, the
    single-touch fallback when exactly one contact is valid, and a sync. */
module Emit {
  import opened Clusters
  import opened Tracking

  /** Device units per heatmap cell (`SCALE`). */
  const Scale: real := 16.0

  /** The number of multitouch slots reported (ipts.c:503). */
  const Slots: int := 6

  /** The events ipts.c writes, one constructor per (type, code) pair. */
  datatype Event =
    | Slot(slot: int)            // EV_ABS ABS_MT_SLOT
    | PositionX(value: int)      // EV_ABS ABS_MT_POSITION_X
    | PositionY(value: int)      // EV_ABS ABS_MT_POSITION_Y
    | TouchMajor(value: int)     // EV_ABS ABS_MT_TOUCH_MAJOR
    | TrackingId(value: int)     // EV_ABS ABS_MT_TRACKING_ID
    | AbsX(value: int)           // EV_ABS ABS_X
    | AbsY(value: int)           // EV_ABS ABS_Y
    | Touch(down: bool)          // EV_KEY BTN_TOUCH
    | Sync                       // EV_SYN SYN_REPORT

  /** C's conversion of a float argument to an `int` parameter: toward zero. */
  function Trunc(r: real): (t: int)
    ensures 0.0 <= r ==> t as real <= r < t as real + 1.0
    ensures r < 0.0 ==> t as real - 1.0 < r <= t as real
  {
    if r >= 0.0 then r.Floor else -((-r).Floor)
  }

  /** The position and size events of one contact, and the single-touch
      events when it is the only valid contact. */
  function ContactEvents(c: Cluster, validCount: int): seq<Event> {
    [PositionX(Trunc(c.centreX * Scale)), PositionY(Trunc(c.centreY * Scale)), TouchMajor(Trunc(c.diameter * Scale))]
    + (if validCount == 1 then [AbsX(Trunc(c.centreX * Scale)), AbsY(Trunc(c.centreY * Scale)), Touch(true)] else [])
  }

  /** A record reported in slot s. */
  predicate InSlot(c: Cluster, s: int) {
    c.id == s + 1 && c.valid
  }

  /** The inner loop of ipts.c:506-518 over records [i, n) for slot s. */
  function SlotContacts(cs: seq<Cluster>, n: int, s: int, i: int, validCount: int): seq<Event>
    requires 0 <= i <= n <= |cs|
    decreases n - i
  {
    if i == n then []
    else (if InSlot(cs[i], s) then ContactEvents(cs[i], validCount) else []) + SlotContacts(cs, n, s, i + 1, validCount)
  }

  /** `tracking_id` as that loop leaves it, starting from `tid` at record i. */
  function SlotTrackingFrom(cs: seq<Cluster>, n: int, s: int, i: int, tid: int): int
    requires 0 <= i <= n <= |cs|
    decreases n - i
  {
    if i == n then tid
    else SlotTrackingFrom(cs, n, s, i + 1, if InSlot(cs[i], s) then cs[i].id else tid)
  }

  function SlotBlock(cs: seq<Cluster>, n: int, s: int, validCount: int): seq<Event>
    requires 0 <= n <= |cs|
  {
    [Slot(s)] + SlotContacts(cs, n, s, 0, validCount) + [TrackingId(SlotTrackingFrom(cs, n, s, 0, -1))]
  }

  /** The slot loop of ipts.c:503-520 from slot s on. */
  function SlotsFrom(cs: seq<Cluster>, n: int, s: int, validCount: int): seq<Event>
    requires 0 <= n <= |cs| && 0 <= s <= Slots
    decreases Slots - s
  {
    if s == Slots then [] else SlotBlock(cs, n, s, validCount) + SlotsFrom(cs, n, s + 1, validCount)
  }

  /** Everything ipts.c writes to uinput for one heatmap with n started records. */
  function Events(cs: seq<Cluster>, n: int): seq<Event>
    requires 0 <= n <= |cs|
  {
    var validCount := CountValid(cs, n);
    SlotsFrom(cs, n, 0, validCount) + (if validCount != 1 then [Touch(false)] else []) + [Sync]
  }

  predicate HasSlotContact(cs: seq<Cluster>, n: int, s: int, i: int)
    requires 0 <= i <= n <= |cs|
  {
    exists j :: i <= j < n && InSlot(cs[j], s)
  }

  lemma {:induction false} SlotTrackingSpec(cs: seq<Cluster>, n: int, s: int, i: int, tid: int)
    requires 0 <= i <= n <= |cs|
    requires tid == -1 || tid == s + 1
    ensures SlotTrackingFrom(cs, n, s, i, tid) == if HasSlotContact(cs, n, s, i) then s + 1 else tid
    decreases n - i
  {
    if i < n {
      SlotTrackingSpec(cs, n, s, i + 1, if InSlot(cs[i], s) then cs[i].id else tid);
    }
  }

  /** Slot s reports tracking id s + 1 exactly when a valid contact holds
      that id, and -1 (slot released) otherwise. */
  lemma SlotTrackingId(cs: seq<Cluster>, n: int, s: int)
    requires 0 <= n <= |cs|
    ensures SlotTrackingFrom(cs, n, s, 0, -1) ==
      if exists j :: 0 <= j < n && cs[j].valid && cs[j].id == s + 1 then s + 1 else -1
  {
    SlotTrackingSpec(cs, n, s, 0, -1);
  }

  lemma {:induction false} ContactsTouch(cs: seq<Cluster>, n: int, s: int, i: int, validCount: int)
    requires 0 <= i <= n <= |cs|
    ensures Touch(false) !in SlotContacts(cs, n, s, i, validCount)
    ensures Touch(true) in SlotContacts(cs, n, s, i, validCount) <==> validCount == 1 && HasSlotContact(cs, n, s, i)
    decreases n - i
  {
    if i < n {
      ContactsTouch(cs, n, s, i + 1, validCount);
      var head := if InSlot(cs[i], s) then ContactEvents(cs[i], validCount) else [];
      assert SlotContacts(cs, n, s, i, validCount) == head + SlotContacts(cs, n, s, i + 1, validCount);
      if InSlot(cs[i], s) && validCount == 1 {
        assert head[5] == Touch(true);
      }
    }
  }

  /** A valid record reported in some slot from s on. */
  predicate ReportedFrom(cs: seq<Cluster>, n: int, s: int)
    requires 0 <= n <= |cs|
  {
    exists j :: 0 <= j < n && cs[j].valid && s + 1 <= cs[j].id <= Slots
  }

  lemma {:induction false} SlotsTouch(cs: seq<Cluster>, n: int, s: int, validCount: int)
    requires 0 <= n <= |cs| && 0 <= s <= Slots
    ensures Touch(false) !in SlotsFrom(cs, n, s, validCount)
    ensures Touch(true) in SlotsFrom(cs, n, s, validCount) <==> validCount == 1 && ReportedFrom(cs, n, s)
    decreases Slots - s
  {
    if s < Slots {
      SlotsTouch(cs, n, s + 1, validCount);
      ContactsTouch(cs, n, s, 0, validCount);
      var block := SlotBlock(cs, n, s, validCount);
      assert SlotsFrom(cs, n, s, validCount) == block + SlotsFrom(cs, n, s + 1, validCount);
      assert Touch(true) in block <==> Touch(true) in SlotContacts(cs, n, s, 0, validCount);
      assert Touch(false) !in block;
      if ReportedFrom(cs, n, s) {
        var j :| 0 <= j < n && cs[j].valid && s + 1 <= cs[j].id <= Slots;
        if cs[j].id == s + 1 {
          assert HasSlotContact(cs, n, s, 0);
        } else {
          assert ReportedFrom(cs, n, s + 1);
        }
      }
      if HasSlotContact(cs, n, s, 0) {
        var j :| 0 <= j < n && InSlot(cs[j], s);
        assert ReportedFrom(cs, n, s);
      }
      if ReportedFrom(cs, n, s + 1) {
        var j :| 0 <= j < n && cs[j].valid && s + 2 <= cs[j].id <= Slots;
        assert ReportedFrom(cs, n, s);
      }
    }
  }

  /** BTN_TOUCH is released exactly when the number of valid contacts is not
      one, and pressed exactly when one valid contact has an id of a reported
      slot (1..6). */
  lemma TouchButton(cs: seq<Cluster>, n: int)
    requires 0 <= n <= |cs|
    ensures Touch(false) in Events(cs, n) <==> CountValid(cs, n) != 1
    ensures Touch(true) in Events(cs, n) <==>
      CountValid(cs, n) == 1 && exists j :: 0 <= j < n && cs[j].valid && 1 <= cs[j].id <= Slots
  {
    var validCount := CountValid(cs, n);
    SlotsTouch(cs, n, 0, validCount);
    var tail := (if validCount != 1 then [Touch(false)] else []) + [Sync];
    assert Events(cs, n) == SlotsFrom(cs, n, 0, validCount) + tail;
    assert Touch(true) !in tail;
    assert Touch(false) in tail <==> validCount != 1;
  }

  /** The only valid contact carries an id above 6 (possible once ids 1..6 are
      taken by earlier contacts that have since lifted or merged): the report
      neither presses nor releases BTN_TOUCH. */
  lemma LoneHighIdIsSilent(cs: seq<Cluster>, n: int, k: int)
    requires 0 <= k < n <= |cs|
    requires forall j :: 0 <= j < n ==> (cs[j].valid <==> j == k)
    requires cs[k].id > Slots
    ensures Touch(true) !in Events(cs, n) && Touch(false) !in Events(cs, n)
  {
    OnlyOneValid(cs, n, k);
    TouchButton(cs, n);
  }

  lemma {:induction false} OnlyOneValid(cs: seq<Cluster>, n: int, k: int)
    requires 0 <= k < n <= |cs|
    requires forall j :: 0 <= j < n ==> (cs[j].valid <==> j == k)
    ensures CountValid(cs, n) == 1
  {
    ZeroValid(cs, k);
    if k + 1 < n {
      NoneValidAfter(cs, n, k + 1);
    }
  }

  lemma {:induction false} ZeroValid(cs: seq<Cluster>, m: int)
    requires 0 <= m <= |cs| && forall j :: 0 <= j < m ==> !cs[j].valid
    ensures CountValid(cs, m) == 0
  {
    if m > 0 {
      ZeroValid(cs, m - 1);
    }
  }

  lemma {:induction false} NoneValidAfter(cs: seq<Cluster>, n: int, m: int)
    requires 0 < m <= n <= |cs| && forall j :: m <= j < n ==> !cs[j].valid
    ensures CountValid(cs, n) == CountValid(cs, m)
    decreases n - m
  {
    if m < n {
      NoneValidAfter(cs, n - 1, m);
    }
  }

  lemma {:induction false} NoContacts(cs: seq<Cluster>, n: int, s: int, i: int, validCount: int)
    requires 0 <= i <= n <= |cs|
    requires forall j :: 0 <= j < n ==> !cs[j].valid
    ensures SlotContacts(cs, n, s, i, validCount) == []
    ensures SlotTrackingFrom(cs, n, s, i, -1) == -1
    decreases n - i
  {
    if i < n {
      NoContacts(cs, n, s, i + 1, validCount);
    }
  }

  /** With no valid contact (nothing touching, or a palm rejected) every slot
      is released, BTN_TOUCH goes up, and nothing else is sent. */
  lemma ReleaseAll(cs: seq<Cluster>, n: int)
    requires 0 <= n <= |cs|
    requires forall j :: 0 <= j < n ==> !cs[j].valid
    ensures Events(cs, n) == [
      Slot(0), TrackingId(-1), Slot(1), TrackingId(-1), Slot(2), TrackingId(-1),
      Slot(3), TrackingId(-1), Slot(4), TrackingId(-1), Slot(5), TrackingId(-1),
      Touch(false), Sync]
  {
    ZeroValid(cs, n);
    forall s | 0 <= s < Slots
      ensures SlotBlock(cs, n, s, 0) == [Slot(s), TrackingId(-1)]
    {
      NoContacts(cs, n, s, 0, 0);
    }
    var blocks := SlotsFrom(cs, n, 0, 0);
    assert SlotsFrom(cs, n, 6, 0) == [];
    assert SlotsFrom(cs, n, 5, 0) == [Slot(5), TrackingId(-1)];
    assert SlotsFrom(cs, n, 4, 0) == [Slot(4), TrackingId(-1), Slot(5), TrackingId(-1)];
    assert SlotsFrom(cs, n, 3, 0) == [Slot(3), TrackingId(-1)] + SlotsFrom(cs, n, 4, 0);
    assert SlotsFrom(cs, n, 2, 0) == [Slot(2), TrackingId(-1)] + SlotsFrom(cs, n, 3, 0);
    assert SlotsFrom(cs, n, 1, 0) == [Slot(1), TrackingId(-1)] + SlotsFrom(cs, n, 2, 0);
    assert SlotsFrom(cs, n, 0, 0) == [Slot(0), TrackingId(-1)] + SlotsFrom(cs, n, 1, 0);
  }
}
