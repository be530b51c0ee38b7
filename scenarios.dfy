/** Worked runs of the slot cache from program start, checked against its contracts. */
module Scenarios {
  import opened SlotTrace
  import opened Clock
  import opened DigitSlots

  /**
   * 14:05 on a 12-hour clock with zero-prefix off, forced: the hours' tens
   * is blank, then 2, 0, 5. The teardown loop then empties every slot.
   */
  method TimeScenario() returns (shown: seq<int>, afterTeardown: seq<int>)
    ensures shown == [EmptySlot, 2, 0, 5]
    ensures afterTeardown == AllEmpty
  {
    var cache := new SlotCache();
    cache.DisplayTime(14, 5, true, false, false);
    assert GetDisplayHour(14, false) == 2;
    shown := cache.imageSlotState[..];
    assert shown == [EmptySlot, 2, 0, 5];
    cache.Teardown();
    afterTeardown := cache.imageSlotState[..];
  }

  /** The value 7 in row 0, forced: slot 0 blank without zero-prefix, showing 0 with it. */
  method LeadingZeroScenario(zeroPrefix: bool) returns (shown: seq<int>)
    ensures shown == [if zeroPrefix then 0 else EmptySlot, 7, EmptySlot, EmptySlot]
  {
    var cache := new SlotCache();
    cache.DisplayValue(7, 0, true, zeroPrefix);
    assert cache.imageSlotState[0] == if zeroPrefix then 0 else EmptySlot;
    assert cache.imageSlotState[1] == 7;
    assert cache.imageSlotState[2] == EmptySlot && cache.imageSlotState[3] == EmptySlot;
    shown := cache.imageSlotState[..];
  }

  /**
   * A minutes row showing 00 moves to 59 on an ordinary tick, releasing and
   * reloading both of its slots, ones first. A second tick with the same value
   * leaves the table as it is and makes no platform call.
   */
  method MinuteTickScenario() returns (shown: seq<int>, repeatedShown: seq<int>)
    ensures shown == [EmptySlot, EmptySlot, 5, 9]
    ensures repeatedShown == shown
  {
    var cache := new SlotCache();
    cache.DisplayValue(0, 1, true, false);
    assert cache.imageSlotState[..] == [EmptySlot, EmptySlot, 0, 0];
    ghost var start := cache.events;
    cache.DisplayValue(59, 1, false, false);
    assert RowEvents([EmptySlot, EmptySlot, 0, 0], 1, 59, false, false)
      == [Release(3), Acquire(3, 9), Release(2), Acquire(2, 5)];
    assert cache.events == start + [Release(3), Acquire(3, 9), Release(2), Acquire(2, 5)];
    shown := cache.imageSlotState[..];
    assert shown == [EmptySlot, EmptySlot, 5, 9];
    ghost var settled := cache.events;
    cache.DisplayValue(59, 1, false, false);
    assert ColumnEvents(9, 3, 9, false, false) == [];
    assert ColumnEvents(5, 2, 5, false, false) == [];
    assert cache.events == settled;
    repeatedShown := cache.imageSlotState[..];
  }
}
