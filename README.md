# CST watch face: the digit-image slot cache

This project models the core of `src/cst.c`, the CST watch face for Pebble,
in Dafny and proves properties of the model.

The screen shows four digits, laid out 0 1 / 2 3. Each digit position is a
slot. A slot owns at most one loaded digit bitmap, and `image_slot_state[4]`
records, per slot, `EMPTY_SLOT` (-1) or the digit it shows. The model covers:

- `load_digit_image_into_slot` and `unload_digit_image_from_slot`;
- the two-digit row renderer `display_value`;
- `display_time` and `get_display_hour`;
- the slot loop of `app_destroy`;
- the power-image index and the `prev_power` / `power_image` state of
  `handle_power_level`.

Layout:

- `ctypes.dfy` (module `CTypes`): `uint8_t`, `unsigned short`, the
  `int` to `unsigned short` conversion, and C's truncating division.
- `clock.dfy` (module `Clock`): `get_display_hour` and the split of a row
  value into its two digits.
- `slot_trace.dfy` (module `SlotTrace`): the bitmap discipline. The
  platform calls are two abstract events. *Acquire* stands for
  `gbitmap_create_with_resource` + `bitmap_layer_create` +
  `layer_add_child`. *Release* stands for `layer_remove_from_parent` +
  `bitmap_layer_destroy` + `gbitmap_destroy`.
  - `Replay` runs a sequence of events from the all-empty table. It yields
    None when an event acquires into an occupied slot (a handle would be
    lost) or releases an empty one (a double free).
  - The counting lemmas show that a legal trace has exactly as many live
    bitmaps as occupied slots.
- `digit_slots.dfy` (module `DigitSlots`): the class `SlotCache`. It holds
  `image_slot_state` as an `array<int>` and a ghost trace `events` of every
  acquire and release so far.
  - `Valid()` says that replaying `events` legally yields exactly the array's
    contents.
  - The load, unload, column, row, time and teardown operations are methods.
    Each states its new array contents and the events it appended.
  - Spec functions give those, one per column (`SlotAfter`, `ColumnEvents`),
    per row (`RowAfter`, `RowEvents`) and per time (`TimeAfter`,
    `TimeEvents`). Pure lemmas prove the appended events legal.
- `battery.dfy` (module `BatteryIndicator`): the power-image index, and the
  indicator state as a value and as the class `PowerIndicator`.
- `scenarios.dfy` (module `Scenarios`): worked runs from program start.

The settings `zero_prefix` and `clock_is_24h_style()` are parameters. So are
`changed`, `show_power` and the battery state.

## Model

| member | source | states |
|---|---|---|
| CTypes.ToUint16 | src/cst.c:185-187 | A `struct tm` field passed as `unsigned short` is reduced modulo 2^16. It is unchanged when already in range. |
| CTypes.TruncDiv | src/cst.c:223 | C's `/` truncates toward zero: the quotient brackets the dividend from below for non-negative dividends and from above for negative ones. |
| Clock.GetDisplayHour | src/cst.c:175-183 | In 24-hour mode the hour is returned unchanged. In 12-hour mode the result is in 1..12 and congruent to the hour modulo 12. |
| Clock.TwelveHourDial | src/cst.c:179-181 | 0 reads as 12, 12 as 12, 13 as 1 and 23 as 11 on the 12-hour dial. |
| Clock.TwelveHourDialIsOnto | src/cst.c:175-183 | Over hours 0..23, each of 1..12 is shown at exactly two hours, h and h + 12. |
| Clock.OnesDigit | src/cst.c:158-164 | The ones column after `value %= 100` is a digit. |
| Clock.TensDigit | src/cst.c:158-171 | The tens column, taken after `value /= 10`, is a digit. |
| Clock.DigitsRecompose | src/cst.c:157-172 | The two columns give back `value % 100`, and so give back any value below 100. |
| SlotTrace.Apply | src/cst.c:113-145 | An acquire is legal only into an in-range, empty slot with a digit 0..9 and records that digit. A release is legal only of an in-range occupied slot and empties it. Legal results are well-formed tables. |
| SlotTrace.Replay | src/cst.c:84-88 | A legal trace from program start always leaves a well-formed table, each entry `EMPTY_SLOT` or 0..9. |
| SlotTrace.AcquireLegalIff | src/cst.c:115-126 | The three guards of `load_digit_image_into_slot` (slot in range, digit in range, slot empty) hold exactly when its acquire is legal. The acquire then records the digit. |
| SlotTrace.ReleaseLegalIff | src/cst.c:139-143 | The guard of `unload_digit_image_from_slot` (slot occupied) holds exactly when its release is legal, for an in-range slot. The release then empties the slot. |
| SlotTrace.ReleaseIfOccupiedStep | src/cst.c:138-145 | Unload's conditional release is legal on any legal trace and leaves the slot empty. |
| SlotTrace.LiveBitmapsEqualOccupiedSlots | src/cst.c:88 | Along every legal trace, acquires = releases + occupied slots: no leak and no double free. |
| SlotTrace.NeverMoreReleasesThanAcquires | src/cst.c:139-143 | No prefix of a legal trace has released more bitmaps than it acquired. |
| SlotTrace.EmptyTableMeansAllReleased | src/cst.c:463-465 | A legal trace ending with all slots empty has released every bitmap it acquired. |
| SlotTrace.ReleaseOccupiedReplay | src/cst.c:463-465 | The teardown's releases over slots 0..n-1 are legal from any legal state. They empty those slots and leave the others. |
| SlotTrace.ReleaseOccupiedOnlyReleases | src/cst.c:463-465 | The teardown issues only releases, each of a slot below n that was occupied. |
| SlotTrace.ReleaseOccupiedCounts | src/cst.c:463-465 | The teardown releases exactly one bitmap per occupied slot and acquires none. |
| DigitSlots.SlotAfter | src/cst.c:165-170 | A column never leaves a stale digit. Its slot ends showing the new digit, or blank when the blanking rule suppresses the digit. A redrawn blanked slot is always blank. |
| DigitSlots.ColumnEventsCalls | src/cst.c:162-170 | A column that is not redrawn makes no call. A redrawn column releases exactly when its slot was occupied, and acquires exactly when the digit is not blanked. Release comes before acquire, and both are in the column's own slot. |
| DigitSlots.ColumnStep | src/cst.c:162-170 | One column's calls are legal on any legal trace. They change the table only in that column, to `SlotAfter`. |
| DigitSlots.RowAfter | src/cst.c:157-172 | After `display_value`, the row's ones slot shows `(v%100)%10`. Its tens slot is as one column leaves it, so it shows `(v%100)/10%10` except the blanked 0 in slot 0. The other row is untouched. |
| DigitSlots.RowStep | src/cst.c:157-172 | A row's calls, ones then tens, are legal on any legal trace and produce `RowAfter`. |
| DigitSlots.TimeAfter | src/cst.c:185-188 | After `display_time`, slot 1 shows the hour's ones and slot 0 is as one column leaves it. Slots 3 and 2 show both digits of the minute. |
| DigitSlots.TimeEventsColumns | src/cst.c:185-188 | `display_time` redraws columns in the order 1, 0, 3, 2, each against what the slot held before the call. |
| DigitSlots.SlotCache.constructor | src/cst.c:88 | Program start: all four slots are empty and no bitmap has been acquired. |
| DigitSlots.SlotCache.StateInvariant | src/cst.c:88 | In every valid state, every entry is `EMPTY_SLOT` or 0..9, and live bitmaps equal occupied slots. |
| DigitSlots.SlotCache.LoadDigitImageIntoSlot | src/cst.c:113-130 | With the slot in range, the digit in 0..9 and the slot empty, exactly one acquire happens and the slot records the digit. Otherwise nothing changes, including for an occupied slot. A valid cache stays valid. |
| DigitSlots.SlotCache.UnloadDigitImageFromSlot | src/cst.c:138-145 | An occupied slot releases exactly one bitmap and an empty one is left alone. Either way the slot ends empty and the others are unchanged, so a second call changes nothing. A valid cache stays valid. |
| DigitSlots.SlotCache.RedrawColumn | src/cst.c:163-170 | One loop iteration of `display_value` moves its slot to `SlotAfter` and appends `ColumnEvents`. |
| DigitSlots.SlotCache.DisplayValue | src/cst.c:157-173 | Keeps `Valid()`. Leaves exactly `RowAfter` of the old table, and appends exactly the row's calls, ones column first. |
| DigitSlots.SlotCache.DisplayTime | src/cst.c:185-188 | Keeps `Valid()`. Shows the display hour in row 0 and the minute in row 1 (`TimeAfter`), with exactly those calls. |
| DigitSlots.SlotCache.Teardown | src/cst.c:463-465 | Keeps `Valid()`. Empties all four slots, releasing one bitmap per occupied slot in slot order, so live bitmaps end at zero. |
| BatteryIndicator.PowerLevelIndex | src/cst.c:217-224 | Charging gives 5. Otherwise the index is the 20-point band of the charge, with 0% in band 0. A charge in 0..100 gives 0..4. The index is inside `POWER_IMAGE_RESOURCE_IDS[6]` exactly when charging or at most 120%. |
| BatteryIndicator.EmptyBatteryBand | src/cst.c:223 | At 0% C's truncation gives band 0 where Euclidean division gives -1. |
| BatteryIndicator.PowerStepAsWritten | src/cst.c:217-250 | The handler as written: shown, `prev_power` becomes the level. Each level change allocates one more bitmap. |
| BatteryIndicator.PowerLevelChangeLeaksAsWritten | src/cst.c:225-239 | As written, a level change while an image is shown leaves two bitmaps allocated with only one reachable. |
| BatteryIndicator.PowerLeakExampleAsWritten | src/cst.c:225-239 | Concretely: 50% then 30% leaves two power bitmaps allocated. |
| BatteryIndicator.PowerStep | src/cst.c:217-250 | The corrected handler keeps the image and layer consistent and never loses a bitmap. Shown, it displays the current level and an unchanged level changes nothing. Hidden, it returns to the initial state. |
| BatteryIndicator.PowerRunHasNoLeak | src/cst.c:217-250 | Along any sequence of battery events from program start, exactly the shown power bitmap is allocated. |
| BatteryIndicator.PowerIndicator.constructor | src/cst.c:80-90 | Program start: no image, no layer, `prev_power == -1`. |
| BatteryIndicator.PowerIndicator.HandlePowerLevel | src/cst.c:217-250 | The handler updates `prev_power`, the image and the layer as the corrected `PowerStep` does, and keeps them leak-free. |
| Scenarios.TimeScenario | src/cst.c:185-188 | 14:05 on a 12-hour clock with zero-prefix off, forced, gives [EMPTY, 2, 0, 5]. The teardown loop then leaves all slots empty. |
| Scenarios.LeadingZeroScenario | src/cst.c:167 | 7 in row 0 shows a blank tens slot without zero-prefix and 0 with it. |
| Scenarios.MinuteTickScenario | src/cst.c:165 | A minutes row moves from 00 to 59 on an unforced tick. Repeating 59 leaves the table as it is. (The calls of both ticks are shown in the body: the cache is local, so its ghost trace is not part of the result.) |

## Left out

- Platform UI calls (`gbitmap_*`, `bitmap_layer_*`, `layer_*`, `window_*`, `text_layer_*`) are foreign code. They appear only as the ghost acquire and release events.
- Bitmap creation failure is not handled by the code, which dereferences the result at once, so an acquire always succeeds.
- Pixel frames of the digits and the power icon are display layout with nothing to verify.
- Settings are I/O: AppSync, AppMessage, `persist_*` and `persist_get_string`. So are `zero_prefix`, `show_power` and the 12/24-hour style, which are parameters here.
- `display_date`, `sync_day_text`, the day texts and `prev_day` are C string handling with no stated contract.
- The bluetooth indicator (`handle_connection`, `hide_bluetooth`) is not part of this model.
- Event subscriptions, `app_init`, `app_event_loop` and `main` are event-loop wiring. Of `app_destroy` only the slot loop is modelled.
- The `images` and `image_layers` arrays are represented only by the events. The model does not track handle identity or aliasing.
- DigitSlots.SlotCache.UnloadDigitImageFromSlot: requires the slot to be in 0..3, because the C function indexes the array without a range check. Every caller passes 0..3.
- DigitSlots.SlotCache.DisplayValue: requires `row_number` to be 0 or 1, because other rows index past `image_slot_state`. It is called only with 0 and 1.
- BatteryIndicator.PowerStep: requires an in-table index when shown. A charge above 120% would index past `POWER_IMAGE_RESOURCE_IDS`, and the battery service reports 0..100.
- BatteryIndicator.PowerIndicator.HandlePowerLevel: follows the corrected `PowerStep`, not the leaking code (see Findings). The as-written behaviour is `PowerStepAsWritten`.
- The power indicator's resources are not released in `app_destroy`. That exit path is not modelled.

Three behaviours of the code that the model keeps as they are:

- The code has no error path. An out-of-range slot or digit, or an occupied slot, is silently ignored, and a failed load is never handled.
- Slot 0 is blanked only when its column is redrawn, that is, when `changed` is set or the digit differs. A slot 0 already showing 0 is kept on an unforced tick. `SlotAfter` states this.
- A load into an occupied slot does nothing. A digit is replaced only because `display_value` unloads first.

## Findings

| source | as written | input that shows it | evidently intended | confidence | as-written member | corrected member |
|---|---|---|---|---|---|---|
| src/cst.c:225-239 | On a level change `handle_power_level` assigns a new bitmap to `power_image` without destroying the one it held. | Battery at 50% (image 2 shown), then 30% (image 1): two power bitmaps allocated, one unreachable. | Destroy the old `power_image` before creating the new one, as the hide path at src/cst.c:241-247 does. | not executed | BatteryIndicator.PowerLeakExampleAsWritten | BatteryIndicator.PowerRunHasNoLeak |
