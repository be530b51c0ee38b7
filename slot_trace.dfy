/**
 * The bitmap discipline of the digit slots, stated over the sequence of
 * platform calls they make. Acquiring a handle stands for
 * `gbitmap_create_with_resource` + `bitmap_layer_create` + `layer_add_child`;
 * releasing one for `layer_remove_from_parent` + `bitmap_layer_destroy` +
 * `gbitmap_destroy`.
 */
module SlotTrace {

  /** `TOTAL_IMAGE_SLOTS`: one slot per on-screen digit, laid out 0 1 / 2 3. */
  const TotalImageSlots := 4
  /** `NUMBER_OF_IMAGES`: one digit image per decimal digit. */
  const NumberOfImages := 10
  /** `EMPTY_SLOT`. */
  const EmptySlot := -1

  const AllEmpty: seq<int> := [EmptySlot, EmptySlot, EmptySlot, EmptySlot]

  datatype Option<T> = None | Some(value: T)

  /** One acquire or release of a digit bitmap, as seen by the platform. */
  datatype Event = Acquire(slot: int, digit: int) | Release(slot: int)

  predicate IsSlot(n: int) { 0 <= n < TotalImageSlots }

  predicate IsDigit(d: int) { 0 <= d < NumberOfImages }

  /** What `image_slot_state` may hold in one entry. */
  predicate IsSlotState(x: int) { x == EmptySlot || IsDigit(x) }

  /** A well-formed `image_slot_state`. */
  predicate IsTable(slots: seq<int>)
  {
    |slots| == TotalImageSlots && forall k :: 0 <= k < |slots| ==> IsSlotState(slots[k])
  }

  /**
   * The effect of one event on the slot table, or None when the event breaks
   * the discipline: acquiring into an occupied slot (the old handle would be
   * lost) or releasing an empty slot (a double free).
   */
  function Apply(slots: seq<int>, e: Event): (r: Option<seq<int>>)
    requires IsTable(slots)
    ensures r.Some? ==> IsTable(r.value) && IsSlot(e.slot)
    ensures r.Some? && e.Acquire? ==> slots[e.slot] == EmptySlot && r.value == slots[e.slot := e.digit]
    ensures r.Some? && e.Release? ==> slots[e.slot] != EmptySlot && r.value == slots[e.slot := EmptySlot]
  {
    match e
    case Acquire(s, d) =>
      if IsSlot(s) && IsDigit(d) && slots[s] == EmptySlot then Some(slots[s := d]) else None
    case Release(s) =>
      if IsSlot(s) && slots[s] != EmptySlot then Some(slots[s := EmptySlot]) else None
  }

  /**
   * The slot table a sequence of events leaves behind, starting from the
   * all-empty table of program start; None if some event breaks the discipline.
   */
  function Replay(events: seq<Event>): (r: Option<seq<int>>)
    ensures r.Some? ==> IsTable(r.value)
    decreases |events|
  {
    if |events| == 0 then Some(AllEmpty)
    else
      match Replay(events[..|events| - 1])
      case None => None
      case Some(slots) => Apply(slots, events[|events| - 1])
  }

  lemma ReplayAppend(events: seq<Event>, e: Event)
    ensures Replay(events + [e]) == match Replay(events) case None => None case Some(slots) => Apply(slots, e)
  {
    assert (events + [e])[..|events|] == events;
  }

  /**
   * An acquire extends a legal trace legally exactly when its slot is in
   * 0..3, its digit in 0..9 and its slot empty, and it then records the digit.
   */
  lemma AcquireLegalIff(events: seq<Event>, slot: int, digit: int)
    requires Replay(events).Some?
    ensures var slots := Replay(events).value;
      Replay(events + [Acquire(slot, digit)]).Some? <==> IsSlot(slot) && IsDigit(digit) && slots[slot] == EmptySlot
    ensures Replay(events + [Acquire(slot, digit)]).Some? ==>
      Replay(events + [Acquire(slot, digit)]).value == Replay(events).value[slot := digit]
  {
    ReplayAppend(events, Acquire(slot, digit));
  }

  /**
   * A release extends a legal trace legally exactly when its slot is in 0..3
   * and occupied, and it then empties that slot.
   */
  lemma ReleaseLegalIff(events: seq<Event>, slot: int)
    requires Replay(events).Some?
    ensures var slots := Replay(events).value;
      Replay(events + [Release(slot)]).Some? <==> IsSlot(slot) && slots[slot] != EmptySlot
    ensures Replay(events + [Release(slot)]).Some? ==>
      Replay(events + [Release(slot)]).value == Replay(events).value[slot := EmptySlot]
  {
    ReplayAppend(events, Release(slot));
  }

  /** Every prefix of a legal trace is legal. */
  lemma {:induction false} ReplayPrefix(events: seq<Event>, n: nat)
    requires Replay(events).Some? && n <= |events|
    ensures Replay(events[..n]).Some?
    decreases |events|
  {
    if n < |events| {
      assert events[..|events| - 1][..n] == events[..n];
      ReplayPrefix(events[..|events| - 1], n);
    }
    else {
      assert events[..n] == events;
    }
  }

  /** Number of bitmaps acquired in a trace. */
  function Acquires(events: seq<Event>): nat
  {
    if |events| == 0 then 0
    else Acquires(events[..|events| - 1]) + (if events[|events| - 1].Acquire? then 1 else 0)
  }

  /** Number of bitmaps released in a trace. */
  function Releases(events: seq<Event>): nat
  {
    if |events| == 0 then 0
    else Releases(events[..|events| - 1]) + (if events[|events| - 1].Release? then 1 else 0)
  }

  lemma {:induction false} CountsAppend(a: seq<Event>, b: seq<Event>)
    ensures Acquires(a + b) == Acquires(a) + Acquires(b)
    ensures Releases(a + b) == Releases(a) + Releases(b)
    decreases |b|
  {
    if b == [] {
      assert a + b == a;
    } else {
      var b' := b[..|b| - 1];
      assert (a + b)[..|a + b| - 1] == a + b';
      CountsAppend(a, b');
    }
  }

  /** Number of slots that hold a bitmap. */
  function Occupied(slots: seq<int>): nat
  {
    if |slots| == 0 then 0
    else Occupied(slots[..|slots| - 1]) + (if slots[|slots| - 1] != EmptySlot then 1 else 0)
  }

  lemma {:induction false} OccupiedUpdate(slots: seq<int>, k: int, x: int)
    requires 0 <= k < |slots|
    ensures Occupied(slots[k := x]) + (if slots[k] != EmptySlot then 1 else 0)
         == Occupied(slots) + (if x != EmptySlot then 1 else 0)
    decreases |slots|
  {
    var n := |slots|;
    if k == n - 1 {
      assert slots[k := x][..n - 1] == slots[..n - 1];
    } else {
      assert slots[k := x][..n - 1] == slots[..n - 1][k := x];
      OccupiedUpdate(slots[..n - 1], k, x);
    }
  }

  lemma {:induction false} OccupiedNone(slots: seq<int>)
    requires forall k :: 0 <= k < |slots| ==> slots[k] == EmptySlot
    ensures Occupied(slots) == 0
    decreases |slots|
  {
    if slots != [] {
      OccupiedNone(slots[..|slots| - 1]);
    }
  }

  lemma OccupiedAllEmpty()
    ensures Occupied(AllEmpty) == 0
  {
    OccupiedNone(AllEmpty);
  }

  /**
   * No leak and no double free: along a legal trace the number of live
   * bitmaps (acquired and not yet released) is exactly the number of
   * occupied slots.
   */
  lemma {:induction false} LiveBitmapsEqualOccupiedSlots(events: seq<Event>)
    requires Replay(events).Some?
    ensures Acquires(events) == Releases(events) + Occupied(Replay(events).value)
    decreases |events|
  {
    if events == [] {
      OccupiedAllEmpty();
    } else {
      var prefix := events[..|events| - 1];
      var e := events[|events| - 1];
      assert events == prefix + [e];
      ReplayAppend(prefix, e);
      LiveBitmapsEqualOccupiedSlots(prefix);
      var slots := Replay(prefix).value;
      match e
      case Acquire(s, d) =>
        OccupiedUpdate(slots, s, d);
      case Release(s) =>
        OccupiedUpdate(slots, s, EmptySlot);
    }
  }

  /** At no point of a legal trace has any bitmap been released more often than acquired. */
  lemma NeverMoreReleasesThanAcquires(events: seq<Event>, n: nat)
    requires Replay(events).Some? && n <= |events|
    ensures Releases(events[..n]) <= Acquires(events[..n])
  {
    ReplayPrefix(events, n);
    LiveBitmapsEqualOccupiedSlots(events[..n]);
  }

  /** A legal trace that ends with every slot empty released every bitmap it acquired. */
  lemma EmptyTableMeansAllReleased(events: seq<Event>)
    requires Replay(events) == Some(AllEmpty)
    ensures Acquires(events) == Releases(events)
  {
    LiveBitmapsEqualOccupiedSlots(events);
    OccupiedAllEmpty();
  }

  /** The releases issued by the teardown loop of `app_destroy` over slots 0..n-1, in order. */
  function ReleaseOccupied(slots: seq<int>, n: nat): (r: seq<Event>)
    requires n <= |slots|
  {
    if n == 0 then []
    else ReleaseOccupied(slots, n - 1) + (if slots[n - 1] != EmptySlot then [Release(n - 1)] else [])
  }

  /** One more iteration of the teardown loop appends that slot's release, if any, to the calls so far. */
  lemma ReleaseOccupiedExtend(before: seq<Event>, slots: seq<int>, n: nat)
    requires n < |slots|
    ensures before + ReleaseOccupied(slots, n) + (if slots[n] != EmptySlot then [Release(n)] else [])
      == before + ReleaseOccupied(slots, n + 1)
  {
    var step := if slots[n] != EmptySlot then [Release(n)] else [];
    assert ReleaseOccupied(slots, n + 1) == ReleaseOccupied(slots, n) + step;
    assert before + ReleaseOccupied(slots, n) + step == before + (ReleaseOccupied(slots, n) + step);
  }

  /** Releasing a slot if it is occupied is legal on any legal trace and empties that slot. */
  lemma ReleaseIfOccupiedStep(events: seq<Event>, slot: int)
    requires Replay(events).Some? && IsSlot(slot)
    ensures var slots := Replay(events).value;
      Replay(events + (if slots[slot] != EmptySlot then [Release(slot)] else [])) == Some(slots[slot := EmptySlot])
  {
    var slots := Replay(events).value;
    if slots[slot] != EmptySlot {
      ReplayAppend(events, Release(slot));
    } else {
      assert events + [] == events;
      assert slots[slot := EmptySlot] == slots;
    }
  }

  /**
   * The teardown's releases are legal on any legal trace and leave slots
   * 0..n-1 empty and the others as they were.
   */
  lemma {:induction false} ReleaseOccupiedReplay(events: seq<Event>, slots: seq<int>, n: nat)
    requires Replay(events) == Some(slots) && n <= |slots|
    ensures Replay(events + ReleaseOccupied(slots, n)).Some?
    ensures var table := Replay(events + ReleaseOccupied(slots, n)).value;
      |table| == |slots| && forall k :: 0 <= k < |table| ==> table[k] == if k < n then EmptySlot else slots[k]
  {
    if n == 0 {
      assert events + [] == events;
    } else {
      var prior := events + ReleaseOccupied(slots, n - 1);
      var step := if slots[n - 1] != EmptySlot then [Release(n - 1)] else [];
      ReleaseOccupiedReplay(events, slots, n - 1);
      var table := Replay(prior).value;
      assert table[n - 1] == slots[n - 1];
      ReleaseIfOccupiedStep(prior, n - 1);
      assert Replay(prior + step) == Some(table[n - 1 := EmptySlot]);
      ReleaseOccupiedExtend(events, slots, n - 1);
      assert prior + step == events + ReleaseOccupied(slots, n);
      assert Replay(events + ReleaseOccupied(slots, n)).value == table[n - 1 := EmptySlot];
    }
  }

  /** The teardown issues only releases, each of a slot below n that was occupied. */
  lemma {:induction false} ReleaseOccupiedOnlyReleases(slots: seq<int>, n: nat)
    requires n <= |slots|
    ensures forall i :: 0 <= i < |ReleaseOccupied(slots, n)| ==>
      ReleaseOccupied(slots, n)[i].Release? && 0 <= ReleaseOccupied(slots, n)[i].slot < n &&
      slots[ReleaseOccupied(slots, n)[i].slot] != EmptySlot
  {
    if n > 0 {
      ReleaseOccupiedOnlyReleases(slots, n - 1);
    }
  }

  /** A single event counts once, as what it is. */
  lemma CountsOfOne(e: Event)
    ensures Acquires([e]) == (if e.Acquire? then 1 else 0)
    ensures Releases([e]) == (if e.Release? then 1 else 0)
  {
    assert [e][..0] == [];
  }

  /** The teardown releases exactly one bitmap per occupied slot and acquires none. */
  lemma {:induction false} ReleaseOccupiedCounts(slots: seq<int>, n: nat)
    requires n <= |slots|
    ensures Releases(ReleaseOccupied(slots, n)) == Occupied(slots[..n])
    ensures Acquires(ReleaseOccupied(slots, n)) == 0
  {
    if n > 0 {
      var before := ReleaseOccupied(slots, n - 1);
      ReleaseOccupiedCounts(slots, n - 1);
      assert slots[..n][..n - 1] == slots[..n - 1];
      if slots[n - 1] != EmptySlot {
        CountsAppend(before, [Release(n - 1)]);
        CountsOfOne(Release(n - 1));
      } else {
        assert before + [] == before;
      }
    }
  }
}
