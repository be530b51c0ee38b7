/**
 * The digit-image slot cache: `image_slot_state`, the load and unload of one
 * slot, the two-digit row renderer `display_value`, `display_time`, and the
 * teardown loop of `app_destroy`.
 */
module DigitSlots {
  import opened CTypes
  import opened Clock
  import opened SlotTrace

  /**
   * The blanking rule of `display_value`: a digit is loaded unless zero-prefix
   * is off and it is a 0 in slot 0 (the hours' tens). Every other slot always
   * shows its digit, including the minutes' tens.
   */
  predicate Shows(slot: int, digit: int, zeroPrefix: bool)
  {
    zeroPrefix || digit != 0 || slot != 0
  }

  /** Change detection: a column is redrawn when forced or when its digit differs from the slot. */
  predicate Reloads(held: int, digit: int, changed: bool)
  {
    changed || digit != held
  }

  /**
   * What one column of `display_value` leaves in its slot, given what the
   * slot `held` before. The slot never ends stale: it shows the new digit, or
   * it is blank because the blanking rule suppresses that digit.
   */
  function SlotAfter(held: int, slot: int, digit: int, changed: bool, zeroPrefix: bool): (r: int)
    ensures r == digit || (r == EmptySlot && !Shows(slot, digit, zeroPrefix))
    ensures Shows(slot, digit, zeroPrefix) ==> r == digit
    ensures Reloads(held, digit, changed) && !Shows(slot, digit, zeroPrefix) ==> r == EmptySlot
  {
    if Reloads(held, digit, changed) then
      (if Shows(slot, digit, zeroPrefix) then digit else EmptySlot)
    else held
  }

  /**
   * The platform calls one column of `display_value` makes: a redrawn slot
   * first releases what it holds, then acquires the new digit unless it is
   * blanked; a column that is not redrawn makes no call at all.
   */
  function ColumnEvents(held: int, slot: int, digit: int, changed: bool, zeroPrefix: bool): seq<Event>
  {
    if Reloads(held, digit, changed) then
      (if held != EmptySlot then [Release(slot)] else []) +
      (if Shows(slot, digit, zeroPrefix) then [Acquire(slot, digit)] else [])
    else []
  }

  /**
   * A column makes at most one release and at most one acquire, both of its
   * own slot: a release exactly when it redraws an occupied slot, always
   * before the acquire; an acquire exactly when it redraws a digit the
   * blanking rule lets through. An undrawn column makes no call.
   */
  lemma ColumnEventsCalls(held: int, slot: int, digit: int, changed: bool, zeroPrefix: bool)
    ensures var r := ColumnEvents(held, slot, digit, changed, zeroPrefix);
      && (forall i :: 0 <= i < |r| ==> r[i].slot == slot)
      && (!Reloads(held, digit, changed) ==> r == [])
      && Releases(r) == (if Reloads(held, digit, changed) && held != EmptySlot then 1 else 0)
      && Acquires(r) == (if Reloads(held, digit, changed) && Shows(slot, digit, zeroPrefix) then 1 else 0)
      && (Releases(r) == 1 ==> r[0] == Release(slot))
      && (Acquires(r) == 1 ==> r[|r| - 1] == Acquire(slot, digit))
  {
    if Reloads(held, digit, changed) {
      var release := if held != EmptySlot then [Release(slot)] else [];
      var acquire := if Shows(slot, digit, zeroPrefix) then [Acquire(slot, digit)] else [];
      CountsAppend(release, acquire);
      CountsOfOne(Release(slot));
      CountsOfOne(Acquire(slot, digit));
    }
  }

  /**
   * The calls of one column are legal on any legal trace, and they move the
   * slot table to `SlotAfter` in that column and nowhere else.
   */
  lemma ColumnStep(events: seq<Event>, slot: int, digit: int, changed: bool, zeroPrefix: bool)
    requires Replay(events).Some? && IsSlot(slot) && IsDigit(digit)
    ensures var slots := Replay(events).value;
      Replay(events + ColumnEvents(slots[slot], slot, digit, changed, zeroPrefix))
        == Some(slots[slot := SlotAfter(slots[slot], slot, digit, changed, zeroPrefix)])
  {
    var slots := Replay(events).value;
    var held := slots[slot];
    if !Reloads(held, digit, changed) {
      assert events + [] == events;
      assert slots[slot := held] == slots;
    } else {
      var release := if held != EmptySlot then [Release(slot)] else [];
      var acquire := if Shows(slot, digit, zeroPrefix) then [Acquire(slot, digit)] else [];
      var cleared := slots[slot := EmptySlot];
      ReleaseIfOccupiedStep(events, slot);
      assert events + (release + acquire) == (events + release) + acquire;
      if Shows(slot, digit, zeroPrefix) {
        ReplayAppend(events + release, Acquire(slot, digit));
        assert cleared[slot := digit] == slots[slot := digit];
      } else {
        assert (events + release) + [] == events + release;
      }
    }
  }

  /**
   * The table `display_value` leaves behind: the row's ones slot shows the
   * ones digit, its tens slot is as one column of the renderer leaves it, and
   * the other row is untouched.
   */
  function RowAfter(slots: seq<int>, row: int, value: nat, changed: bool, zeroPrefix: bool): (r: seq<int>)
    requires |slots| == TotalImageSlots && 0 <= row <= 1
    ensures |r| == TotalImageSlots
    ensures r[2 * row + 1] == OnesDigit(value)
    ensures r[2 * row] == SlotAfter(slots[2 * row], 2 * row, TensDigit(value), changed, zeroPrefix)
    ensures r[2 * (1 - row)] == slots[2 * (1 - row)] && r[2 * (1 - row) + 1] == slots[2 * (1 - row) + 1]
  {
    slots[2 * row + 1 := SlotAfter(slots[2 * row + 1], 2 * row + 1, OnesDigit(value), changed, zeroPrefix)]
      [2 * row := SlotAfter(slots[2 * row], 2 * row, TensDigit(value), changed, zeroPrefix)]
  }

  /** The platform calls of `display_value`: the ones column's, then the tens column's. */
  function RowEvents(slots: seq<int>, row: int, value: nat, changed: bool, zeroPrefix: bool): seq<Event>
    requires |slots| == TotalImageSlots && 0 <= row <= 1
  {
    ColumnEvents(slots[2 * row + 1], 2 * row + 1, OnesDigit(value), changed, zeroPrefix)
      + ColumnEvents(slots[2 * row], 2 * row, TensDigit(value), changed, zeroPrefix)
  }

  /** The calls of one row are legal on any legal trace and leave the table `RowAfter` describes. */
  lemma RowStep(events: seq<Event>, row: int, value: nat, changed: bool, zeroPrefix: bool)
    requires Replay(events).Some? && 0 <= row <= 1
    ensures var slots := Replay(events).value;
      Replay(events + RowEvents(slots, row, value, changed, zeroPrefix)) == Some(RowAfter(slots, row, value, changed, zeroPrefix))
  {
    var slots := Replay(events).value;
    var ones := ColumnEvents(slots[2 * row + 1], 2 * row + 1, OnesDigit(value), changed, zeroPrefix);
    var tens := ColumnEvents(slots[2 * row], 2 * row, TensDigit(value), changed, zeroPrefix);
    var onesDone := slots[2 * row + 1 := SlotAfter(slots[2 * row + 1], 2 * row + 1, OnesDigit(value), changed, zeroPrefix)];
    ColumnStep(events, 2 * row + 1, OnesDigit(value), changed, zeroPrefix);
    assert Replay(events + ones) == Some(onesDone);
    assert onesDone[2 * row] == slots[2 * row];
    ColumnStep(events + ones, 2 * row, TensDigit(value), changed, zeroPrefix);
    assert events + ones + tens == events + RowEvents(slots, row, value, changed, zeroPrefix);
  }

  /**
   * The table `display_time` leaves behind: the display hour in row 0 (its
   * tens possibly blanked), the minute in row 1 with both digits shown.
   */
  function TimeAfter(slots: seq<int>, hour: nat, minute: nat, changed: bool, zeroPrefix: bool): (r: seq<int>)
    requires |slots| == TotalImageSlots
    ensures |r| == TotalImageSlots
    ensures r[1] == OnesDigit(hour)
    ensures r[0] == SlotAfter(slots[0], 0, TensDigit(hour), changed, zeroPrefix)
    ensures r[3] == OnesDigit(minute) && r[2] == TensDigit(minute)
  {
    RowAfter(RowAfter(slots, 0, hour, changed, zeroPrefix), 1, minute, changed, zeroPrefix)
  }

  /** The platform calls of `display_time`: the hour row's, then the minute row's. */
  function TimeEvents(slots: seq<int>, hour: nat, minute: nat, changed: bool, zeroPrefix: bool): seq<Event>
    requires |slots| == TotalImageSlots
  {
    RowEvents(slots, 0, hour, changed, zeroPrefix)
      + RowEvents(RowAfter(slots, 0, hour, changed, zeroPrefix), 1, minute, changed, zeroPrefix)
  }

  /**
   * `display_time` visits the columns in the order 1, 0, 3, 2, each as one
   * column of the renderer over what the slot held before the call.
   */
  lemma TimeEventsColumns(slots: seq<int>, hour: nat, minute: nat, changed: bool, zeroPrefix: bool)
    requires |slots| == TotalImageSlots
    ensures TimeEvents(slots, hour, minute, changed, zeroPrefix)
      == ColumnEvents(slots[1], 1, OnesDigit(hour), changed, zeroPrefix)
       + ColumnEvents(slots[0], 0, TensDigit(hour), changed, zeroPrefix)
       + ColumnEvents(slots[3], 3, OnesDigit(minute), changed, zeroPrefix)
       + ColumnEvents(slots[2], 2, TensDigit(minute), changed, zeroPrefix)
  {
    var mid := RowAfter(slots, 0, hour, changed, zeroPrefix);
    assert mid[3] == slots[3] && mid[2] == slots[2];
  }

  class SlotCache {
    /** `image_slot_state`: per slot, `EMPTY_SLOT` or the digit whose bitmap it holds. */
    var imageSlotState: array<int>
    /** Every acquire and release of a digit bitmap so far, in order. */
    ghost var events: seq<Event>

    /**
     * The slot table is exactly what the bitmap calls made so far produced,
     * and those calls never acquired into an occupied slot nor released an
     * empty one.
     */
    ghost predicate Valid()
      reads this, imageSlotState
    {
      imageSlotState.Length == TotalImageSlots && Replay(events) == Some(imageSlotState[..])
    }

    /** Program start: all four slots empty, no bitmap acquired. */
    constructor ()
      ensures Valid() && fresh(imageSlotState)
      ensures imageSlotState[..] == AllEmpty && events == []
    {
      var slots := new int[TotalImageSlots][EmptySlot, EmptySlot, EmptySlot, EmptySlot];
      assert slots[..] == AllEmpty;
      imageSlotState := slots;
      events := [];
    }

    /** Live digit bitmaps match occupied slots, and every entry is `EMPTY_SLOT` or a digit. */
    lemma StateInvariant()
      requires Valid()
      ensures IsTable(imageSlotState[..])
      ensures Acquires(events) == Releases(events) + Occupied(imageSlotState[..])
    {
      LiveBitmapsEqualOccupiedSlots(events);
    }

    /**
     * `load_digit_image_into_slot`: acquires one bitmap and records the digit,
     * but only for a slot in 0..3 that is empty and a digit in 0..9; otherwise
     * (including an occupied slot) nothing happens.
     */
    method LoadDigitImageIntoSlot(slotNumber: int, digitValue: int)
      requires imageSlotState.Length == TotalImageSlots
      modifies this`events, imageSlotState
      ensures IsSlot(slotNumber) && IsDigit(digitValue) && old(imageSlotState[slotNumber]) == EmptySlot ==>
        imageSlotState[..] == old(imageSlotState[..])[slotNumber := digitValue] &&
        events == old(events) + [Acquire(slotNumber, digitValue)]
      ensures !(IsSlot(slotNumber) && IsDigit(digitValue) && old(imageSlotState[slotNumber]) == EmptySlot) ==>
        imageSlotState[..] == old(imageSlotState[..]) && events == old(events)
      ensures old(Valid()) ==> Valid()
    {
      ghost var ev := events;
      if Replay(ev).Some? {
        AcquireLegalIff(ev, slotNumber, digitValue);
      }
      if 0 <= slotNumber < TotalImageSlots {
        if 0 <= digitValue <= 9 {
          if imageSlotState[slotNumber] == EmptySlot {
            imageSlotState[slotNumber] := digitValue;
            events := events + [Acquire(slotNumber, digitValue)];
          }
        }
      }
    }

    /**
     * `unload_digit_image_from_slot`: an occupied slot releases exactly one
     * bitmap; an empty one is left alone. Either way the slot ends empty, so a
     * second call changes nothing.
     */
    method UnloadDigitImageFromSlot(slotNumber: int)
      requires imageSlotState.Length == TotalImageSlots && IsSlot(slotNumber)
      modifies this`events, imageSlotState
      ensures imageSlotState[..] == old(imageSlotState[..])[slotNumber := EmptySlot]
      ensures imageSlotState[slotNumber] == EmptySlot
      ensures forall k :: 0 <= k < TotalImageSlots && k != slotNumber ==> imageSlotState[k] == old(imageSlotState[k])
      ensures events == old(events) + (if old(imageSlotState[slotNumber]) != EmptySlot then [Release(slotNumber)] else [])
      ensures old(Valid()) ==> Valid()
    {
      ghost var ev := events;
      if Replay(ev).Some? {
        ReleaseIfOccupiedStep(ev, slotNumber);
      }
      if imageSlotState[slotNumber] != EmptySlot {
        imageSlotState[slotNumber] := EmptySlot;
        events := events + [Release(slotNumber)];
      } else {
        assert events + [] == events;
        assert imageSlotState[..] == imageSlotState[..][slotNumber := EmptySlot];
      }
    }

    /** One iteration of the column loop of `display_value`. */
    method RedrawColumn(slotNumber: int, digit: int, changed: bool, zeroPrefix: bool)
      requires imageSlotState.Length == TotalImageSlots && IsSlot(slotNumber) && IsDigit(digit)
      modifies this`events, imageSlotState
      ensures imageSlotState[..] == old(imageSlotState[..])[slotNumber :=
        SlotAfter(old(imageSlotState[slotNumber]), slotNumber, digit, changed, zeroPrefix)]
      ensures events == old(events) + ColumnEvents(old(imageSlotState[slotNumber]), slotNumber, digit, changed, zeroPrefix)
    {
      ghost var held := imageSlotState[slotNumber];
      ghost var release := if held != EmptySlot then [Release(slotNumber)] else [];
      ghost var acquire := if Shows(slotNumber, digit, zeroPrefix) then [Acquire(slotNumber, digit)] else [];
      if changed || digit != imageSlotState[slotNumber] {
        assert ColumnEvents(held, slotNumber, digit, changed, zeroPrefix) == release + acquire;
        UnloadDigitImageFromSlot(slotNumber);
        assert events == old(events) + release;
        if zeroPrefix || digit != 0 || slotNumber != 0 {
          LoadDigitImageIntoSlot(slotNumber, digit);
          assert events == old(events) + release + acquire;
        } else {
          assert events == old(events) + release + acquire;
        }
        assert old(events) + release + acquire == old(events) + (release + acquire);
      } else {
        assert events == old(events) + [];
      }
    }

    /**
     * `display_value`: shows `value % 100` in row `rowNumber` (slots
     * 2*row and 2*row + 1), ones column first. Only the slots of that row
     * change, each as one column of the renderer, and a slot that already
     * shows its digit is not touched unless `changed` forces a redraw.
     */
    method DisplayValue(value: Uint16, rowNumber: Uint16, changed: bool, zeroPrefix: bool)
      requires Valid() && rowNumber <= 1
      modifies this`events, imageSlotState
      ensures Valid()
      ensures imageSlotState[..] == RowAfter(old(imageSlotState[..]), rowNumber, value, changed, zeroPrefix)
      ensures events == old(events) + RowEvents(old(imageSlotState[..]), rowNumber, value, changed, zeroPrefix)
    {
      ghost var onesSlot, tensSlot := 2 * rowNumber + 1, 2 * rowNumber;
      ghost var before, slots := events, imageSlotState[..];
      ghost var ones := ColumnEvents(slots[onesSlot], onesSlot, OnesDigit(value), changed, zeroPrefix);
      ghost var tens := ColumnEvents(slots[tensSlot], tensSlot, TensDigit(value), changed, zeroPrefix);
      ghost var onesDone := slots[onesSlot := SlotAfter(slots[onesSlot], onesSlot, OnesDigit(value), changed, zeroPrefix)];
      ghost var bothDone := onesDone[tensSlot := SlotAfter(slots[tensSlot], tensSlot, TensDigit(value), changed, zeroPrefix)];
      var v: int := value % 100;
      var colNumber := 1;
      while colNumber >= 0
        invariant -1 <= colNumber <= 1
        invariant imageSlotState.Length == TotalImageSlots
        invariant colNumber == 1 ==> v % 10 == OnesDigit(value) && v / 10 == value % 100 / 10
        invariant colNumber == 0 ==> v % 10 == TensDigit(value)
        invariant colNumber == 1 ==> imageSlotState[..] == slots && events == before
        invariant colNumber == 0 ==> imageSlotState[..] == onesDone && events == before + ones
        invariant colNumber == -1 ==> imageSlotState[..] == bothDone && events == before + ones + tens
      {
        var slotNumber := rowNumber * 2 + colNumber;
        var digit := v % 10;
        if colNumber == 1 {
          assert slotNumber == onesSlot && digit == OnesDigit(value);
        } else {
          assert slotNumber == tensSlot && digit == TensDigit(value);
        }
        RedrawColumn(slotNumber, digit, changed, zeroPrefix);
        v := v / 10;
        colNumber := colNumber - 1;
      }
      assert before + ones + tens == before + RowEvents(slots, rowNumber, value, changed, zeroPrefix);
      RowStep(before, rowNumber, value, changed, zeroPrefix);
    }

    /**
     * `display_time`: the display hour (per `get_display_hour`) goes to row 0
     * and the minute to row 1; the `struct tm` fields are converted to
     * `unsigned short` as C does.
     */
    method DisplayTime(tmHour: int, tmMin: int, changed: bool, zeroPrefix: bool, is24h: bool)
      requires Valid()
      modifies this`events, imageSlotState
      ensures Valid()
      ensures imageSlotState[..]
        == TimeAfter(old(imageSlotState[..]), GetDisplayHour(ToUint16(tmHour), is24h), ToUint16(tmMin), changed, zeroPrefix)
      ensures events == old(events)
        + TimeEvents(old(imageSlotState[..]), GetDisplayHour(ToUint16(tmHour), is24h), ToUint16(tmMin), changed, zeroPrefix)
    {
      DisplayValue(GetDisplayHour(ToUint16(tmHour), is24h), 0, changed, zeroPrefix);
      DisplayValue(ToUint16(tmMin), 1, changed, zeroPrefix);
    }

    /**
     * The slot loop of `app_destroy`: unloads slots 0..3 in order, releasing
     * one bitmap per occupied slot, so every bitmap ever acquired has been
     * released exactly once.
     */
    method Teardown()
      requires Valid()
      modifies this`events, imageSlotState
      ensures Valid()
      ensures imageSlotState[..] == AllEmpty
      ensures events == old(events) + ReleaseOccupied(old(imageSlotState[..]), TotalImageSlots)
      ensures Acquires(events) == Releases(events)
    {
      ghost var before, slots := events, imageSlotState[..];
      var i := 0;
      while i < TotalImageSlots
        invariant 0 <= i <= TotalImageSlots
        invariant imageSlotState.Length == TotalImageSlots
        invariant forall k :: 0 <= k < i ==> imageSlotState[k] == EmptySlot
        invariant forall k :: i <= k < TotalImageSlots ==> imageSlotState[k] == slots[k]
        invariant events == before + ReleaseOccupied(slots, i)
      {
        UnloadDigitImageFromSlot(i);
        ReleaseOccupiedExtend(before, slots, i);
        i := i + 1;
      }
      assert imageSlotState[..] == AllEmpty;
      ReleaseOccupiedReplay(before, slots, TotalImageSlots);
      assert Replay(events).value == AllEmpty;
      EmptyTableMeansAllReleased(events);
    }
  }
}
