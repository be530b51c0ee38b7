/**
 * The battery indicator of `handle_power_level`: the choice of one of the six
 * power images, and the indicator state (`prev_power`, `power_image`,
 * `power_layer`) that the handler updates.
 */
module BatteryIndicator {
  import opened CTypes

  /** `NUMBER_OF_POWER_IMAGES`: the length of `POWER_IMAGE_RESOURCE_IDS`. */
  const NumberOfPowerImages := 6
  /** The image shown while charging. */
  const ChargingPowerLevel := 5
  /** `prev_power` before anything is shown, and after the indicator is hidden. */
  const NoPowerLevel := -1

  /**
   * The power image index: the charging image while charging, otherwise the
   * 20-point band of the charge, computed as `(charge_percent - 1) / 20` with
   * C's truncating division (a charge of 0 gives band 0, not -1). The index
   * is inside `POWER_IMAGE_RESOURCE_IDS` exactly for charges up to 120, which
   * the battery service's 0..100 range respects.
   */
  function PowerLevelIndex(isCharging: bool, chargePercent: Uint8): (level: int)
    ensures isCharging ==> level == ChargingPowerLevel
    ensures !isCharging && chargePercent == 0 ==> level == 0
    ensures !isCharging && chargePercent > 0 ==> 20 * level < chargePercent <= 20 * level + 20
    ensures !isCharging && chargePercent <= 100 ==> 0 <= level <= 4
    ensures 0 <= level && (level < NumberOfPowerImages <==> isCharging || chargePercent <= 120)
  {
    if isCharging then ChargingPowerLevel else TruncDiv(chargePercent - 1, 20)
  }

  /** A charge of 0 is where Dafny's Euclidean division would have given -1. */
  lemma EmptyBatteryBand()
    ensures PowerLevelIndex(false, 0) == 0
    ensures (0 - 1) / 20 == -1
  {
  }

  /**
   * The indicator's state: `prev_power`, whether `power_image` and
   * `power_layer` are non-NULL, and how many power bitmaps are allocated
   * and not yet destroyed.
   */
  datatype PowerIcon = PowerIcon(prevPower: int, hasImage: bool, hasLayer: bool, liveBitmaps: int)

  /** Program start: nothing shown, `prev_power == -1`. */
  const PowerIconInitial := PowerIcon(NoPowerLevel, false, false, 0)

  /** The image and its layer exist together, exactly when a level is on show. */
  predicate WellFormed(p: PowerIcon)
  {
    p.hasImage == p.hasLayer &&
    (p.hasImage <==> p.prevPower != NoPowerLevel) &&
    (p.hasImage ==> 0 <= p.prevPower < NumberOfPowerImages) &&
    p.liveBitmaps >= (if p.hasImage then 1 else 0)
  }

  /** Every allocated power bitmap is the one `power_image` points to. */
  predicate NoLeak(p: PowerIcon)
  {
    p.liveBitmaps == (if p.hasImage then 1 else 0)
  }

  /**
   * `handle_power_level` as written: on a level change it creates the new
   * bitmap and overwrites `power_image` without destroying the bitmap it
   * held; hiding destroys only the current one.
   */
  function PowerStepAsWritten(p: PowerIcon, showPower: bool, isCharging: bool, chargePercent: Uint8): (q: PowerIcon)
    requires showPower ==> PowerLevelIndex(isCharging, chargePercent) < NumberOfPowerImages
    ensures WellFormed(p) ==> WellFormed(q)
    ensures showPower ==> q.prevPower == PowerLevelIndex(isCharging, chargePercent)
    ensures showPower && WellFormed(p) ==> q.hasImage
    ensures showPower && PowerLevelIndex(isCharging, chargePercent) != p.prevPower ==> q.liveBitmaps == p.liveBitmaps + 1
  {
    if showPower then
      var level := PowerLevelIndex(isCharging, chargePercent);
      if level != p.prevPower then PowerIcon(level, true, true, p.liveBitmaps + 1)
      else p
    else if p.hasImage then PowerIcon(NoPowerLevel, false, false, p.liveBitmaps - 1)
    else p
  }

  /** As written, a level change while an image is shown leaves one bitmap unreachable. */
  lemma PowerLevelChangeLeaksAsWritten(p: PowerIcon, isCharging: bool, chargePercent: Uint8)
    requires WellFormed(p) && NoLeak(p) && p.hasImage
    requires PowerLevelIndex(isCharging, chargePercent) < NumberOfPowerImages
    requires PowerLevelIndex(isCharging, chargePercent) != p.prevPower
    ensures PowerStepAsWritten(p, true, isCharging, chargePercent).liveBitmaps == 2
    ensures !NoLeak(PowerStepAsWritten(p, true, isCharging, chargePercent))
  {
  }

  /** The concrete case: shown at 50%, then at 30%; two bitmaps live, one reachable. */
  lemma PowerLeakExampleAsWritten()
    ensures var atHalf := PowerStepAsWritten(PowerIconInitial, true, false, 50);
      var atThirty := PowerStepAsWritten(atHalf, true, false, 30);
      atHalf.prevPower == 2 && atThirty.prevPower == 1 && atThirty.liveBitmaps == 2 && !NoLeak(atThirty)
  {
  }

  /**
   * `handle_power_level` with the release the hide path already performs
   * applied on a level change too: the old bitmap is destroyed before the
   * new one is created. Shown, it displays the current level; hidden, it is
   * back to the initial state; and no bitmap is ever lost.
   */
  function PowerStep(p: PowerIcon, showPower: bool, isCharging: bool, chargePercent: Uint8): (q: PowerIcon)
    requires showPower ==> PowerLevelIndex(isCharging, chargePercent) < NumberOfPowerImages
    ensures WellFormed(p) ==> WellFormed(q)
    ensures NoLeak(p) ==> NoLeak(q)
    ensures showPower ==> q.prevPower == PowerLevelIndex(isCharging, chargePercent)
    ensures showPower && WellFormed(p) ==> q.hasImage
    ensures showPower && PowerLevelIndex(isCharging, chargePercent) == p.prevPower ==> q == p
    ensures !showPower && WellFormed(p) && NoLeak(p) ==> q == PowerIconInitial
  {
    if showPower then
      var level := PowerLevelIndex(isCharging, chargePercent);
      if level != p.prevPower then
        var kept := if p.hasImage then p.liveBitmaps - 1 else p.liveBitmaps;
        PowerIcon(level, true, true, kept + 1)
      else p
    else if p.hasImage then PowerIcon(NoPowerLevel, false, false, p.liveBitmaps - 1)
    else p
  }

  /** Along any run of the corrected handler from program start, exactly the shown image is allocated. */
  lemma {:induction false} PowerRunHasNoLeak(shows: seq<bool>, charging: seq<bool>, percents: seq<Uint8>)
    requires |shows| == |charging| == |percents|
    requires forall i :: 0 <= i < |shows| && shows[i] ==> PowerLevelIndex(charging[i], percents[i]) < NumberOfPowerImages
    ensures WellFormed(PowerRun(shows, charging, percents)) && NoLeak(PowerRun(shows, charging, percents))
    decreases |shows|
  {
    if shows != [] {
      var n := |shows| - 1;
      PowerRunHasNoLeak(shows[..n], charging[..n], percents[..n]);
    }
  }

  /** The corrected handler applied to a sequence of battery events from program start. */
  function PowerRun(shows: seq<bool>, charging: seq<bool>, percents: seq<Uint8>): PowerIcon
    requires |shows| == |charging| == |percents|
    requires forall i :: 0 <= i < |shows| && shows[i] ==> PowerLevelIndex(charging[i], percents[i]) < NumberOfPowerImages
    decreases |shows|
  {
    if shows == [] then PowerIconInitial
    else
      var n := |shows| - 1;
      PowerStep(PowerRun(shows[..n], charging[..n], percents[..n]), shows[n], charging[n], percents[n])
  }

  class PowerIndicator {
    /** `prev_power`. */
    var prevPower: int
    /** `power_image != NULL`. */
    var hasImage: bool
    /** `power_layer != NULL`. */
    var hasLayer: bool
    /** Power bitmaps allocated and not destroyed. */
    ghost var liveBitmaps: int

    ghost function Model(): PowerIcon
      reads this
    {
      PowerIcon(prevPower, hasImage, hasLayer, liveBitmaps)
    }

    ghost predicate Valid()
      reads this
    {
      WellFormed(Model()) && NoLeak(Model())
    }

    constructor ()
      ensures Valid() && Model() == PowerIconInitial
    {
      prevPower, hasImage, hasLayer := NoPowerLevel, false, false;
      liveBitmaps := 0;
    }

    /**
     * `handle_power_level`, with `show_power` as a parameter and the old
     * bitmap destroyed before a new one replaces it.
     */
    method HandlePowerLevel(showPower: bool, isCharging: bool, chargePercent: Uint8)
      requires Valid()
      requires showPower ==> PowerLevelIndex(isCharging, chargePercent) < NumberOfPowerImages
      modifies this
      ensures Valid()
      ensures Model() == PowerStep(old(Model()), showPower, isCharging, chargePercent)
    {
      if showPower {
        var powerLevel := PowerLevelIndex(isCharging, chargePercent);
        if powerLevel != prevPower {
          if hasImage {
            liveBitmaps := liveBitmaps - 1;
          }
          liveBitmaps := liveBitmaps + 1;
          hasImage := true;
          if !hasLayer {
            hasLayer := true;
          }
          prevPower := powerLevel;
        }
      } else {
        if hasImage {
          hasLayer := false;
          hasImage := false;
          liveBitmaps := liveBitmaps - 1;
          prevPower := NoPowerLevel;
        }
      }
    }
  }
}
